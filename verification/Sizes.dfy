/** File trees as maps, and the sum of their sizes. */
module Sizes {
  import opened Common

  const MAX_FILES := 1000
  const MAX_BYTES := 5 * 1024 * 1024

  datatype File<K> = File(path: K, data: Bytes)

  function TotalSize<K>(files: seq<File<K>>): nat {
    if files == [] then 0 else TotalSize(files[..|files| - 1]) + |files[|files| - 1].data|
  }

  ghost predicate DistinctPaths<K>(files: seq<File<K>>) {
    forall i, j :: 0 <= i < j < |files| ==> files[i].path != files[j].path
  }

  /** m holds exactly the listed files. */
  ghost predicate Holds<K>(m: map<K, Bytes>, files: seq<File<K>>) {
    && (forall i :: 0 <= i < |files| ==> files[i].path in m && m[files[i].path] == files[i].data)
    && (forall k :: k in m ==> exists i :: 0 <= i < |files| && files[i].path == k)
  }

  /** The sum CheckUnpackedSize computes by ranging over the map. */
  ghost function MapSize<K>(m: map<K, Bytes>): nat {
    if m == map[] then 0
    else
      var k :| k in m;
      |m[k]| + MapSize(m - {k})
  }

  lemma {:induction false} MapSizeWithout<K>(m: map<K, Bytes>, k: K)
    requires k in m
    ensures MapSize(m) == |m[k]| + MapSize(m - {k})
    decreases |m|
  {
    var j :| j in m && MapSize(m) == |m[j]| + MapSize(m - {j});
    if j != k {
      MapSizeWithout(m - {j}, k);
      MapSizeWithout(m - {k}, j);
      assert m - {j} - {k} == m - {k} - {j};
    }
  }

  lemma {:induction false} HeldWithoutLast<K>(m: map<K, Bytes>, files: seq<File<K>>)
    requires DistinctPaths(files) && Holds(m, files) && files != []
    ensures var n := |files| - 1;
      DistinctPaths(files[..n]) && Holds(m - {files[n].path}, files[..n])
  {
    var n := |files| - 1;
    var k := files[n].path;
    forall p | p in m - {k} ensures exists i :: 0 <= i < n && files[..n][i].path == p {
      var i :| 0 <= i < |files| && files[i].path == p;
      assert files[..n][i].path == p;
    }
  }

  lemma {:induction false} CountWithout<K, V>(m: map<K, V>, k: K)
    requires k in m
    ensures |m| == |m - {k}| + 1
  {
    assert m.Keys == (m - {k}).Keys + {k};
  }

  lemma {:induction false} HeldSize<K>(m: map<K, Bytes>, files: seq<File<K>>)
    requires DistinctPaths(files) && Holds(m, files)
    ensures MapSize(m) == TotalSize(files) && |m| == |files|
    decreases |files|
  {
    if files == [] {
      assert m == map[];
    } else {
      var n := |files| - 1;
      var k := files[n].path;
      MapSizeWithout(m, k);
      CountWithout(m, k);
      HeldWithoutLast(m, files);
      HeldSize(m - {k}, files[..n]);
    }
  }

  lemma {:induction false} SamePermutation<K>(a: seq<File<K>>, b: seq<File<K>>)
    requires DistinctPaths(a) && DistinctPaths(b)
    requires forall f :: f in a <==> f in b
    ensures |a| == |b| && TotalSize(a) == TotalSize(b)
  {
    var m := map i | 0 <= i < |a| :: a[i].path := a[i].data;
    assert Holds(m, a);
    forall i | 0 <= i < |b| ensures b[i].path in m && m[b[i].path] == b[i].data {
      assert b[i] in a;
      var j :| 0 <= j < |a| && a[j] == b[i];
    }
    forall k | k in m ensures exists i :: 0 <= i < |b| && b[i].path == k {
      var j :| 0 <= j < |a| && a[j].path == k;
      assert a[j] in b;
      var i :| 0 <= i < |b| && b[i] == a[j];
    }
    HeldSize(m, a);
    HeldSize(m, b);
  }
}

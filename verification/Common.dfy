/** What several components share: optional values, bytes, and the range of exact floats. */
module Common {
  datatype Option<T> = None | Some(value: T)

  type Bytes = seq<bv8>

  /** Integers up to 2^53 pass unchanged through a float64. */
  const EXACT := 0x20_0000_0000_0000

  function First<T>(n: nat, s: seq<T>): seq<T> {
    if |s| <= n then s else s[..n]
  }

  /** A number above all members of a finite set. */
  ghost function Above(s: set<nat>): (k: nat)
    ensures forall x :: x in s ==> x < k
  {
    if s == {} then 0
    else
      var x :| x in s;
      var k := Above(s - {x});
      assert forall y :: y in s ==> y == x || y in s - {x};
      if x < k then k else x + 1
  }
}

/** `funcbox logs --follow`: polling the newest page of a log and printing what is new. Entries may
    turn up late, with an id smaller than one printed already, and old ones may be deleted. */
module LogFollow {
  import opened Text

  const PAGE_SIZE := 50

  /** The log of a function as one poll finds it, oldest first: ids are nonempty and increasing. */
  ghost predicate Log(ids: seq<string>) {
    Ascending(ids) && forall i :: 0 <= i < |ids| ==> ids[i] != ""
  }

  function Min(a: int, b: int): int { if a <= b then a else b }

  /** The last entries, a page of them or all. */
  function Newest(ids: seq<string>): seq<string> {
    ids[|ids| - Min(PAGE_SIZE, |ids|)..]
  }

  function Reversed(ids: seq<string>): (r: seq<string>)
    ensures |r| == |ids| && forall i :: 0 <= i < |ids| ==> r[i] == ids[|ids| - 1 - i]
  {
    seq(|ids|, i requires 0 <= i < |ids| => ids[|ids| - 1 - i])
  }

  lemma {:induction false} ReversedTwice(ids: seq<string>)
    ensures Reversed(Reversed(ids)) == ids
  {
  }

  predicate AtOrBefore(a: string, b: string) { a == b || Less(a, b) }

  lemma {:induction false} AfterMeansGreater(a: string, b: string)
    ensures !AtOrBefore(a, b) <==> Less(b, a)
  {
    if Less(b, a) && AtOrBefore(a, b) {
      LessIrreflexive(a);
      if Less(a, b) { LessAsymmetric(a, b); }
    }
    if a != b { LessTotal(a, b); }
  }

  lemma {:induction false} AtOrBeforeTransitive(a: string, b: string, c: string)
    requires AtOrBefore(a, b) && AtOrBefore(b, c)
    ensures AtOrBefore(a, c)
    ensures (Less(a, b) || Less(b, c)) ==> Less(a, c)
  {
    if Less(a, b) && Less(b, c) { LessTransitive(a, b, c); }
  }

  // ---- One page ----

  predicate IsNew(id: string, afterID: string) { afterID == "" || !AtOrBefore(id, afterID) }

  /** The new entries of a page, in its order. */
  function New(ids: seq<string>, afterID: string): (r: seq<string>)
    ensures forall x :: x in r <==> x in ids && IsNew(x, afterID)
  {
    if ids == [] then []
    else
      var l := ids[|ids| - 1];
      New(ids[..|ids| - 1], afterID) + if IsNew(l, afterID) then [l] else []
  }

  /** The greatest of the ids and `start`, where an empty `start` counts as none. */
  function Latest(ids: seq<string>, start: string): string {
    if ids == [] then start
    else
      var newest, l := Latest(ids[..|ids| - 1], start), ids[|ids| - 1];
      if newest == "" || Less(newest, l) then l else newest
  }

  /** One page, newest first: prints exactly its new entries, oldest first, and returns the greatest
      id printed, or `afterID` if none was. */
  method PrintLogsPage(page: seq<string>, afterID: string) returns (printed: seq<string>, newest: string)
    ensures printed == New(Reversed(page), afterID)
    ensures newest == Latest(printed, afterID)
  {
    ghost var ids, done: nat := Reversed(page), 0;
    newest := afterID;
    printed := [];
    var i := |page| - 1;
    while i >= 0
      invariant -1 <= i < |page| && done == |page| - 1 - i
      invariant printed == New(ids[..done], afterID) && newest == Latest(printed, afterID)
    {
      var l := page[i];
      OneMore(ids, afterID, done);
      done := done + 1;
      if afterID != "" && AtOrBefore(l, afterID) {
        i := i - 1;
        continue;
      }
      LatestNext(printed, afterID, l);
      printed := printed + [l];
      if newest == "" || Less(newest, l) {
        newest := l;
      }
      i := i - 1;
    }
    assert ids[..done] == ids;
  }

  lemma {:induction false} OneMore(ids: seq<string>, afterID: string, done: nat)
    requires done < |ids|
    ensures New(ids[..done + 1], afterID)
            == New(ids[..done], afterID) + if IsNew(ids[done], afterID) then [ids[done]] else []
  {
    assert ids[..done + 1][..done] == ids[..done];
  }

  lemma {:induction false} LatestNext(ids: seq<string>, start: string, l: string)
    ensures var newest := Latest(ids, start);
      Latest(ids + [l], start) == if newest == "" || Less(newest, l) then l else newest
  {
    assert (ids + [l])[..|ids|] == ids;
  }

  /** What Latest is: one of the ids or `start`, and at or after all of them. */
  lemma {:induction false} LatestMeaning(ids: seq<string>, start: string)
    requires forall i :: 0 <= i < |ids| ==> ids[i] != ""
    ensures var newest := Latest(ids, start);
      && (newest == start || newest in ids)
      && (forall x :: x in ids ==> AtOrBefore(x, newest))
      && (start != "" ==> AtOrBefore(start, newest))
      && (newest == "" <==> start == "" && ids == [])
  {
    if ids != [] {
      var front, l := ids[..|ids| - 1], ids[|ids| - 1];
      LatestMeaning(front, start);
      var before, newest := Latest(front, start), Latest(ids, start);
      AfterMeansGreater(l, before);
      if before != "" {
        forall x | x in front || (x == start && start != "") ensures AtOrBefore(x, newest) {
          AtOrBeforeTransitive(x, before, newest);
        }
      }
      assert ids == front + [l];
    }
  }

  lemma {:induction false} NewAscends(ids: seq<string>, afterID: string)
    requires Ascending(ids)
    ensures Ascending(New(ids, afterID))
  {
    if ids != [] {
      var front, l := ids[..|ids| - 1], ids[|ids| - 1];
      NewAscends(front, afterID);
      var r := New(front, afterID);
      forall i | 0 <= i < |r| ensures Less(r[i], l) {
        assert r[i] in front;
      }
    }
  }

  // ---- Many polls ----

  /** The last id seen after n polls; logs[m] is the log as poll m finds it. */
  function Seen(logs: seq<seq<string>>, n: nat): string
    requires n <= |logs|
    decreases n, 0
  {
    if n == 0 then "" else Latest(Printed(logs, n - 1), Seen(logs, n - 1))
  }

  /** What poll m prints. */
  function Printed(logs: seq<seq<string>>, m: nat): seq<string>
    requires m < |logs|
    decreases m, 1
  {
    New(Newest(logs[m]), Seen(logs, m))
  }

  function Output(logs: seq<seq<string>>, n: nat): seq<string>
    requires n <= |logs|
  {
    if n == 0 then [] else Output(logs, n - 1) + Printed(logs, n - 1)
  }

  /** One turn of the follow loop. */
  method Poll(log: seq<string>, lastSeenID: string) returns (printed: seq<string>, last: string)
    ensures printed == New(Newest(log), lastSeenID) && last == Latest(printed, lastSeenID)
  {
    ReversedTwice(Newest(log));
    var newest;
    printed, newest := PrintLogsPage(Reversed(Newest(log)), lastSeenID);
    last := if newest != "" then newest else lastSeenID;
    LatestOfNone(printed, lastSeenID);
  }

  lemma {:induction false} LatestOfNone(ids: seq<string>, start: string)
    ensures Latest(ids, start) == "" ==> start == ""
  {
    if ids != [] { LatestOfNone(ids[..|ids| - 1], start); }
  }

  /** Any number of polls, whatever log each of them finds. */
  method Follow(logs: seq<seq<string>>) returns (out: seq<string>)
    ensures out == Output(logs, |logs|)
  {
    out := [];
    var lastSeenID := "";
    for i := 0 to |logs|
      invariant out == Output(logs, i) && lastSeenID == Seen(logs, i)
    {
      var printed: seq<string>;
      printed, lastSeenID := Poll(logs[i], lastSeenID);
      out := out + printed;
    }
  }

  // ---- What is printed ----

  ghost predicate Logs(logs: seq<seq<string>>) {
    forall n :: 0 <= n < |logs| ==> Log(logs[n])
  }

  /** One of the first n polls has found it. */
  ghost predicate Found(logs: seq<seq<string>>, n: nat, y: string)
    requires n <= |logs|
  {
    exists m :: 0 <= m < n && y in logs[m]
  }

  /** Newer than all that the first n polls have found. */
  ghost predicate NewerThanBefore(logs: seq<seq<string>>, n: nat, x: string)
    requires n <= |logs|
  {
    forall y :: Found(logs, n, y) ==> Less(y, x)
  }

  lemma {:induction false} NewestIsLog(log: seq<string>)
    requires Log(log)
    ensures Log(Newest(log))
    ensures log != [] ==> log[|log| - 1] in Newest(log) && forall x :: x in log ==> AtOrBefore(x, log[|log| - 1])
  {
    var page, start := Newest(log), |log| - |Newest(log)|;
    assert forall i :: 0 <= i < |page| ==> page[i] == log[start + i];
  }

  lemma {:induction false} PrintedMeaning(logs: seq<seq<string>>, m: nat)
    requires Logs(logs) && m < |logs|
    ensures Ascending(Printed(logs, m)) && forall i :: 0 <= i < |Printed(logs, m)| ==> Printed(logs, m)[i] != ""
  {
    NewestIsLog(logs[m]);
    NewAscends(Newest(logs[m]), Seen(logs, m));
    forall i | 0 <= i < |Printed(logs, m)| ensures Printed(logs, m)[i] != "" {
      assert Printed(logs, m)[i] in Newest(logs[m]);
    }
  }

  /** What has been seen is the greatest id any poll has found, even if only a page was fetched. */
  lemma {:induction false} SeenIsGreatest(logs: seq<seq<string>>, n: nat)
    requires Logs(logs) && n <= |logs|
    ensures forall y :: Found(logs, n, y) ==> Seen(logs, n) != "" && AtOrBefore(y, Seen(logs, n))
    ensures Seen(logs, n) != "" ==> Found(logs, n, Seen(logs, n))
  {
    forall y | Found(logs, n, y) ensures Seen(logs, n) != "" && AtOrBefore(y, Seen(logs, n)) {
      var m :| 0 <= m < n && y in logs[m];
      FoundIsSeen(logs, n, m, y);
    }
    if Seen(logs, n) != "" {
      var m := SeenIsFound(logs, n);
    }
  }

  lemma {:induction false} FoundIsSeen(logs: seq<seq<string>>, n: nat, m: nat, y: string)
    requires Logs(logs) && m < n <= |logs| && y in logs[m]
    ensures Seen(logs, n) != "" && AtOrBefore(y, Seen(logs, n))
  {
    if m < n - 1 {
      FoundIsSeen(logs, n - 1, m, y);
      PrintedMeaning(logs, n - 1);
      LatestMeaning(Printed(logs, n - 1), Seen(logs, n - 1));
      AtOrBeforeTransitive(y, Seen(logs, n - 1), Seen(logs, n));
    } else {
      NewestIsLog(logs[m]);
      LastIsSeen(logs, n);
      AtOrBeforeTransitive(y, logs[m][|logs[m]| - 1], Seen(logs, n));
    }
  }

  lemma {:induction false} SeenIsFound(logs: seq<seq<string>>, n: nat) returns (m: nat)
    requires Logs(logs) && n <= |logs| && Seen(logs, n) != ""
    ensures m < n && Seen(logs, n) in logs[m]
  {
    PrintedMeaning(logs, n - 1);
    LatestMeaning(Printed(logs, n - 1), Seen(logs, n - 1));
    if Seen(logs, n) in Printed(logs, n - 1) {
      assert Seen(logs, n) in Newest(logs[n - 1]);
      m := n - 1;
    } else {
      m := SeenIsFound(logs, n - 1);
    }
  }

  /** The last entry of a log is on its page, so it is printed unless something newer has been seen. */
  lemma {:induction false} LastIsSeen(logs: seq<seq<string>>, n: nat)
    requires Logs(logs) && 0 < n <= |logs| && logs[n - 1] != []
    ensures var log := logs[n - 1]; Seen(logs, n) != "" && AtOrBefore(log[|log| - 1], Seen(logs, n))
  {
    var log, before := logs[n - 1], Seen(logs, n - 1);
    var last := log[|log| - 1];
    PrintedMeaning(logs, n - 1);
    LatestMeaning(Printed(logs, n - 1), before);
    NewestIsLog(log);
    if last !in Printed(logs, n - 1) {
      AtOrBeforeTransitive(last, before, Seen(logs, n));
    }
  }

  lemma {:induction false} NewIff(logs: seq<seq<string>>, n: nat, x: string)
    requires Logs(logs) && n <= |logs|
    ensures IsNew(x, Seen(logs, n)) <==> NewerThanBefore(logs, n, x)
  {
    var seen := Seen(logs, n);
    SeenIsGreatest(logs, n);
    AfterMeansGreater(x, seen);
    if IsNew(x, seen) {
      forall y | Found(logs, n, y) ensures Less(y, x) {
        AtOrBeforeTransitive(y, seen, x);
      }
    }
  }

  /** Poll m finds x among the newest 50, and newer than all the polls before have found. */
  ghost predicate Fresh(logs: seq<seq<string>>, m: nat, x: string)
    requires m < |logs|
  {
    x in Newest(logs[m]) && NewerThanBefore(logs, m, x)
  }

  lemma {:induction false} PrintedAtIff(logs: seq<seq<string>>, m: nat, x: string)
    requires Logs(logs) && m < |logs|
    ensures x in Printed(logs, m) <==> Fresh(logs, m, x)
  {
    NewIff(logs, m, x);
  }

  ghost predicate EverFresh(logs: seq<seq<string>>, n: nat, x: string)
    requires n <= |logs|
  {
    exists m :: 0 <= m < n && Fresh(logs, m, x)
  }

  lemma {:induction false} EverFreshNext(logs: seq<seq<string>>, n: nat, x: string)
    requires n < |logs|
    ensures EverFresh(logs, n + 1, x) <==> EverFresh(logs, n, x) || Fresh(logs, n, x)
  {
  }

  lemma {:induction false} OutputNext(logs: seq<seq<string>>, n: nat)
    requires n < |logs|
    ensures Output(logs, n + 1) == Output(logs, n) + Printed(logs, n)
  {
  }

  /** An id is in the output if and only if some poll finds it fresh. */
  lemma {:induction false} PrintedIff(logs: seq<seq<string>>, n: nat, x: string)
    requires Logs(logs) && n <= |logs|
    ensures x in Output(logs, n) <==> EverFresh(logs, n, x)
  {
    if n > 0 {
      PrintedIff(logs, n - 1, x);
      OutputNext(logs, n - 1);
      EverFreshNext(logs, n - 1, x);
      PrintedAtIff(logs, n - 1, x);
    }
  }

  lemma {:induction false} PrintedIsFound(logs: seq<seq<string>>, n: nat, x: string)
    requires Logs(logs) && n <= |logs| && x in Output(logs, n)
    ensures Found(logs, n, x)
  {
    PrintedIff(logs, n, x);
    var m :| 0 <= m < n && Fresh(logs, m, x);
    assert x in logs[m];
  }

  lemma {:induction false} OldBeforeNew(logs: seq<seq<string>>, n: nat, x: string, y: string)
    requires Logs(logs) && n < |logs| && x in Output(logs, n) && y in Printed(logs, n)
    ensures Less(x, y)
  {
    PrintedIsFound(logs, n, x);
    NewIff(logs, n, y);
  }

  lemma {:induction false} AppendAscends(a: seq<string>, b: seq<string>)
    requires Ascending(a) && Ascending(b) && forall x, y :: x in a && y in b ==> Less(x, y)
    ensures Ascending(a + b)
  {
    var s := a + b;
    forall i, j | 0 <= i < j < |s| ensures Less(s[i], s[j]) {
      if i < |a| <= j {
        assert s[i] in a && s[j] in b;
      }
    }
  }

  lemma {:induction false} NextAscends(logs: seq<seq<string>>, n: nat, out: seq<string>, printed: seq<string>)
    requires Logs(logs) && n < |logs| && out == Output(logs, n) && printed == Printed(logs, n) && Ascending(out)
    ensures Ascending(out + printed)
  {
    PrintedMeaning(logs, n);
    forall x, y | x in out && y in printed ensures Less(x, y) {
      OldBeforeNew(logs, n, x, y);
    }
    AppendAscends(out, printed);
  }

  lemma {:induction false} OutputAscends(logs: seq<seq<string>>, n: nat)
    requires Logs(logs) && n <= |logs|
    ensures Ascending(Output(logs, n))
  {
    if n > 0 {
      OutputAscends(logs, n - 1);
      NextAscends(logs, n - 1, Output(logs, n - 1), Printed(logs, n - 1));
      OutputNext(logs, n - 1);
    }
  }

  /** Printed ids are strictly increasing over all polls, so nothing is printed twice, and
      everything printed was found by some poll. */
  lemma {:induction false} NoRepeats(logs: seq<seq<string>>, i: nat, j: nat)
    requires Logs(logs) && i < j < |Output(logs, |logs|)|
    ensures var out := Output(logs, |logs|);
      Less(out[i], out[j]) && out[i] != out[j] && Found(logs, |logs|, out[i])
  {
    var out := Output(logs, |logs|);
    OutputAscends(logs, |logs|);
    LessIrreflexive(out[i]);
    assert out[i] in out;
    PrintedIsFound(logs, |logs|, out[i]);
  }

  // ---- When nothing is missed ----

  /** What poll n is the first to find. */
  ghost function Arrivals(logs: seq<seq<string>>, n: nat): set<string>
    requires n < |logs|
  {
    set x | x in logs[n] && !Found(logs, n, x)
  }

  /** An entry is ever printed if and only if, at the first poll that finds it, it is newer than all
      that was found before and among the newest 50. */
  lemma {:induction false} ArrivalPrintedIff(logs: seq<seq<string>>, n: nat, x: string)
    requires Logs(logs) && n < |logs| && x in Arrivals(logs, n)
    ensures x in Output(logs, |logs|) <==> x in Newest(logs[n]) && NewerThanBefore(logs, n, x)
  {
    PrintedIff(logs, |logs|, x);
    if m :| 0 <= m < |logs| && Fresh(logs, m, x) {
      LessIrreflexive(x);
      FoundLater(logs, m, n, x);
      FoundLater(logs, n, m, x);
    }
    assert Fresh(logs, n, x) <==> x in Newest(logs[n]) && NewerThanBefore(logs, n, x);
  }

  lemma {:induction false} FoundLater(logs: seq<seq<string>>, m: nat, n: nat, x: string)
    requires m < |logs| && n < |logs| && x in logs[m]
    ensures m < n ==> Found(logs, n, x)
  {
  }

  function Elements(s: seq<string>): set<string> { set x | x in s }

  lemma {:induction false} AtMostLength(s: seq<string>)
    ensures |Elements(s)| <= |s|
    ensures Ascending(s) ==> |Elements(s)| == |s|
  {
    if s != [] {
      var front, l := s[..|s| - 1], s[|s| - 1];
      AtMostLength(front);
      assert s == front + [l];
      assert Elements(s) == Elements(front) + {l};
      if Ascending(s) && l in front {
        LessIrreflexive(l);
        assert false;
      }
    }
  }

  lemma {:induction false} LargerSet(a: set<string>, b: set<string>)
    requires a <= b
    ensures |a| <= |b|
  {
    assert b == a + (b - a);
  }

  /** Of a log whose arrivals are all newer than what was found before, at most 50 of them are all on
      the newest page. */
  lemma {:induction false} FewAreOnPage(logs: seq<seq<string>>, n: nat, x: string)
    requires Logs(logs) && n < |logs| && |Arrivals(logs, n)| <= PAGE_SIZE
    requires x in Arrivals(logs, n) && NewerThanBefore(logs, n, x)
    ensures x in Newest(logs[n])
  {
    var log := logs[n];
    var i :| 0 <= i < |log| && log[i] == x;
    var tail := log[i..];
    assert forall j :: 0 <= j < |tail| ==> tail[j] == log[i + j];
    AtMostLength(tail);
    forall z | z in tail ensures z in Arrivals(logs, n) {
      if Found(logs, n, z) {
        assert Less(z, x) && AtOrBefore(x, z);
        AfterMeansGreater(x, z);
        assert false;
      }
    }
    LargerSet(Elements(tail), Arrivals(logs, n));
    assert Newest(log)[i - (|log| - Min(PAGE_SIZE, |log|))] == x;
  }

  /** Poll n prints all it is the first to find. */
  ghost predicate AllPrinted(logs: seq<seq<string>>, n: nat)
    requires n < |logs|
  {
    forall x :: x in Arrivals(logs, n) ==> x in Output(logs, |logs|)
  }

  /** No more than a page of them, and none out of order. */
  ghost predicate InOrder(logs: seq<seq<string>>, n: nat)
    requires n < |logs|
  {
    |Arrivals(logs, n)| <= PAGE_SIZE && forall x :: x in Arrivals(logs, n) ==> NewerThanBefore(logs, n, x)
  }

  lemma {:induction false} AllPrintedIff(logs: seq<seq<string>>, n: nat)
    requires Logs(logs) && n < |logs|
    ensures AllPrinted(logs, n) <==> InOrder(logs, n)
  {
    var arrivals := Arrivals(logs, n);
    if AllPrinted(logs, n) {
      forall x | x in arrivals ensures NewerThanBefore(logs, n, x) && x in Elements(Newest(logs[n])) {
        ArrivalPrintedIff(logs, n, x);
      }
      AtMostLength(Newest(logs[n]));
      LargerSet(arrivals, Elements(Newest(logs[n])));
    }
    if InOrder(logs, n) {
      forall x | x in arrivals ensures x in Output(logs, |logs|) {
        FewAreOnPage(logs, n, x);
        ArrivalPrintedIff(logs, n, x);
      }
    }
  }

  /** Every entry that arrives after the first poll, as far as any poll finds it, is printed if and
      only if at most 50 arrive between any two polls and each is newer than all found before. */
  lemma {:induction false} LosslessIff(logs: seq<seq<string>>)
    requires Logs(logs)
    ensures (forall n :: 1 <= n < |logs| ==> AllPrinted(logs, n)) <==> forall n :: 1 <= n < |logs| ==> InOrder(logs, n)
  {
    forall n | 1 <= n < |logs| ensures AllPrinted(logs, n) <==> InOrder(logs, n) {
      AllPrintedIff(logs, n);
    }
  }

  /** An entry with a smaller id than one printed already is skipped, however few there are. */
  lemma {:induction false} LateEntryIsSkipped(a: string, b: string)
    requires a != "" && Less(a, b)
    ensures var logs := [[b], [a, b]];
      Logs(logs) && a in Arrivals(logs, 1) && a !in Output(logs, 2)
  {
    var logs := [[b], [a, b]];
    LessIrreflexive(a);
    LessAsymmetric(a, b);
    assert b in logs[0] && Found(logs, 1, b);
    ArrivalPrintedIff(logs, 1, a);
  }
}

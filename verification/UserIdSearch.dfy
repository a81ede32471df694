/** When the User ID search of UserId halts, and where it cannot. */
module UserIdSearch {
  import opened Common
  import opened Text
  import opened UserId

  /** If k candidates in a row are all claimed, they are k of the claimed IDs: `rest` is what
      remains without them. */
  lemma {:induction false} ManyClaimed(base: string, claimed: set<string>, from: nat, k: nat)
    returns (rest: set<string>)
    requires IsLabel(base) && (k > 0 ==> Fits(from + k - 1))
    requires forall n: nat :: from <= n < from + k ==> |Suffix(n)| <= MAX_LENGTH && Suffixed(base, n) in claimed
    ensures rest <= claimed && |claimed| == |rest| + k
    ensures forall n: nat :: n >= from + k && Fits(n) ==>
              |Suffix(n)| <= MAX_LENGTH && (Suffixed(base, n) in claimed ==> Suffixed(base, n) in rest)
  {
    rest := claimed;
    if k == 0 {
      forall n: nat | Fits(n) ensures |Suffix(n)| <= MAX_LENGTH { SuffixFits(n); }
    } else {
      var last := from + k - 1;
      if k > 1 { SmallNumbersFit(last - 1, last); }
      var before := ManyClaimed(base, claimed, from, k - 1);
      var mine := Suffixed(base, last);
      assert mine in before;
      rest := before - {mine};
      forall n: nat | n >= from + k && Fits(n)
        ensures |Suffix(n)| <= MAX_LENGTH && (Suffixed(base, n) in claimed ==> Suffixed(base, n) in rest)
      {
        SuffixedDistinct(base, n, last);
      }
    }
  }

  /** Among |claimed| + 1 valid candidates in a row one is free. */
  lemma {:induction false} OneOfManyIsFree(base: string, claimed: set<string>, from: nat)
    requires IsLabel(base) && from >= 2 && Fits(from + |claimed|)
    requires forall n: nat :: from <= n <= from + |claimed| ==>
               |Suffix(n)| <= MAX_LENGTH && IsValid(Suffixed(base, n))
    ensures exists n: nat :: from <= n <= from + |claimed| && Acceptable(base, claimed, n)
  {
    if forall n: nat :: from <= n <= from + |claimed| ==> !Acceptable(base, claimed, n) {
      forall n: nat | from <= n <= from + |claimed| ensures Suffixed(base, n) in claimed {
        assert !Acceptable(base, claimed, n);
      }
      var rest := ManyClaimed(base, claimed, from, |claimed| + 1);
      assert false;
    }
  }

  /** Unless the base starts with `xn--`, one of the first |claimed| + 1 suffixes is free. */
  lemma {:induction false} SomeSuffixIsFree(base: string, claimed: set<string>)
    requires IsLabel(base) && !HasPrefix(base, "xn--") && Fits(|claimed| + 2)
    ensures exists n: nat :: 2 <= n <= |claimed| + 2 && Acceptable(base, claimed, n)
  {
    forall n: nat | 2 <= n <= |claimed| + 2
      ensures |Suffix(n)| <= MAX_LENGTH && IsValid(Suffixed(base, n))
    {
      SmallNumbersFit(n, |claimed| + 2);
      SuffixedIsLabel(base, n);
      SuffixedIsValidUnlessPunycode(base, n);
      assert HasPrefix(Trimmed(base, n), "xn--") ==> HasPrefix(base, "xn--");
    }
    OneOfManyIsFree(base, claimed, 2);
  }

  /** For any finite set of claimed IDs and any email whose base does not start with `xn--`, the
      search halts by suffix |claimed| + 2 with an unclaimed, unreserved DNS label. */
  lemma {:induction false} SearchHalts(email: string, claimed: set<string>, id: Option<string>, n: nat)
    requires !HasPrefix(BaseOf(email), "xn--") && Fits(|claimed| + 2)
    requires IsFirst(BaseOf(email), claimed, |claimed| + 2, id, n)
    ensures id.Some? && id.value !in claimed && IsValid(id.value) && |id.value| <= 63
  {
    BaseIsLabel(email);
    SomeSuffixIsFree(BaseOf(email), claimed);
  }

  // ---- Bases that start with xn-- ----

  const INT_LIMIT: nat := 0x8000_0000_0000_0000  // the loop counter is an int

  /** The base keeps `xn--` under every suffix the counter can produce: it is short, or one of
      its first 43 characters after `xn` is not a dash. */
  ghost predicate KeepsPunycode(base: string)
    requires |base| >= 2
  {
    |base| <= 43 || exists i :: 2 <= i < 43 && base[i] != '-'
  }

  lemma {:induction false} Pow10Values()
    ensures Pow10(18) == LONG && Pow10(19) == 10 * LONG
  {
    assert Pow10(6) == 1_000_000;
    assert Pow10(12) == 1_000_000_000_000;
  }

  lemma {:induction false} CounterSuffixes(n: nat)
    requires n < INT_LIMIT
    ensures Fits(n) && |Suffix(n)| <= 20
  {
    Pow10Values();
    ItoaLength(n, 19);
    Pow10Grows(19, 61);
  }

  lemma {:induction false} PrefixChars(s: string)
    ensures HasPrefix(s, "xn--") <==> |s| >= 4 && s[0] == 'x' && s[1] == 'n' && s[2] == '-' && s[3] == '-'
  {
  }

  lemma {:induction false} TrimmedKeepsPunycode(base: string, n: nat)
    requires IsLabel(base) && HasPrefix(base, "xn--") && KeepsPunycode(base) && n < INT_LIMIT
    ensures |Suffix(n)| <= MAX_LENGTH && HasPrefix(Trimmed(base, n), "xn--")
  {
    CounterSuffixes(n);
    PrefixChars(base);
    PrefixChars(Trimmed(base, n));
    if |base| + |Suffix(n)| > MAX_LENGTH {
      var cut := base[..MAX_LENGTH - |Suffix(n)|];
      var i :| 2 <= i < 43 && base[i] != '-';
      TrimRightMeaning(cut, '-');
      assert cut[i] == base[i];
      assert |TrimRight(cut, '-')| > i;
    }
  }

  /** For such a base no candidate is ever accepted, whatever is claimed: the loop does not halt
      within the range of its counter. */
  lemma {:induction false} PunycodeNeverAccepted(base: string, claimed: set<string>, n: nat)
    requires IsLabel(base) && HasPrefix(base, "xn--") && KeepsPunycode(base) && n < INT_LIMIT
    ensures !Acceptable(base, claimed, n)
  {
    if n >= 2 {
      CounterSuffixes(n);
      TrimmedKeepsPunycode(base, n);
      SuffixedIsValidUnlessPunycode(base, n);
    }
  }

  const LONG: nat := 1_000_000_000_000_000_000

  /** All the longest suffixes the counter can produce have 20 characters. */
  lemma {:induction false} LongSuffix(n: nat)
    requires LONG <= n < INT_LIMIT
    ensures |Suffix(n)| == 20 && Fits(n)
  {
    CounterSuffixes(n);
    Pow10Values();
    ItoaLength(n, 18);
  }

  /** A base that loses its `xn--` under the longest suffixes is valid with each of them. */
  lemma {:induction false} LongCandidatesAreValid(base: string, n: nat)
    requires IsLabel(base) && HasPrefix(base, "xn--") && !KeepsPunycode(base) && LONG <= n < INT_LIMIT
    ensures |Suffix(n)| <= MAX_LENGTH && IsValid(Suffixed(base, n))
  {
    LongSuffix(n);
    PrefixChars(base);
    var t, cut := Trimmed(base, n), base[..43];
    assert t == TrimRight(cut, '-');
    TrimRightMeaning(cut, '-');
    assert forall i :: 2 <= i < 43 ==> base[i] == '-';
    SuffixedIsValidUnlessPunycode(base, n);
  }

  /** The exact condition, for any set of claimed IDs smaller than the range of the longest
      suffixes: a base that is a DNS label has an acceptable candidate within the counter's range
      if and only if it does not start with `xn--` or loses it under the longest suffixes. */
  lemma {:induction false} HaltsIff(base: string, claimed: set<string>)
    requires IsLabel(base) && |claimed| < INT_LIMIT - LONG
    ensures (exists n: nat :: 1 <= n < INT_LIMIT && Acceptable(base, claimed, n))
            <==> !HasPrefix(base, "xn--") || !KeepsPunycode(base)
  {
    if HasPrefix(base, "xn--") && KeepsPunycode(base) {
      forall n: nat | 1 <= n < INT_LIMIT ensures !Acceptable(base, claimed, n) {
        PunycodeNeverAccepted(base, claimed, n);
      }
    } else if HasPrefix(base, "xn--") {
      forall n: nat | LONG <= n <= LONG + |claimed| ensures |Suffix(n)| <= MAX_LENGTH && IsValid(Suffixed(base, n)) {
        LongCandidatesAreValid(base, n);
      }
      CounterSuffixes(LONG + |claimed|);
      OneOfManyIsFree(base, claimed, LONG);
    } else {
      CounterSuffixes(|claimed| + 2);
      SomeSuffixIsFree(base, claimed);
    }
  }
}

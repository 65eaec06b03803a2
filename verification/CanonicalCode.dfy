/** The canonical prefix code of section 3.2.2 of RFC 1951.

    `ls[i]` is the code length of symbol `i`, 0 for a symbol that does not occur and at most 15 otherwise.
    Everything is stated for the first `n` symbols, so that table construction can be followed symbol by symbol.  */
module CanonicalCode {
  import opened Bits

  predicate Lengths(ls: seq<nat>) {
    forall i :: 0 <= i < |ls| ==> ls[i] <= 15
  }

  /** How many of the first `n` symbols have length `s`. */
  function Count(ls: seq<nat>, n: nat, s: nat): (c: nat)
    requires n <= |ls|
    ensures c <= n
  {
    if n == 0 then 0 else Count(ls, n - 1, s) + (if ls[n - 1] == s then 1 else 0)
  }

  /** `bl_count` of RFC 1951: symbols of length 0 are not counted. */
  function BlCount(ls: seq<nat>, n: nat, s: nat): nat
    requires n <= |ls|
  {
    if s == 0 then 0 else Count(ls, n, s)
  }

  /** `next_code` of RFC 1951: the smallest code of length `s`. */
  function FirstCode(ls: seq<nat>, n: nat, s: nat): nat
    requires n <= |ls|
  {
    if s == 0 then 0 else 2 * (FirstCode(ls, n, s - 1) + BlCount(ls, n, s - 1))
  }

  /** One more than the largest code of length `s`. */
  function Limit(ls: seq<nat>, n: nat, s: nat): nat
    requires n <= |ls|
  {
    FirstCode(ls, n, s) + BlCount(ls, n, s)
  }

  /** The code of symbol `i`, to be read as `ls[i]` bits, most significant first. */
  function Code(ls: seq<nat>, i: nat): nat
    requires i < |ls|
  {
    FirstCode(ls, |ls|, ls[i]) + Count(ls, i, ls[i])
  }

  /** The Kraft sum of the first `n` symbols, in units of `1 / 2^15`. */
  function Kraft(ls: seq<nat>, n: nat): nat
    requires n <= |ls| && Lengths(ls)
  {
    if n == 0 then 0 else Kraft(ls, n - 1) + (if ls[n - 1] == 0 then 0 else Pow2(15 - ls[n - 1]))
  }

  /** Every length has room for its codes. */
  ghost predicate Fits(ls: seq<nat>)
  {
    forall s :: 1 <= s <= 15 ==> Limit(ls, |ls|, s) <= Pow2(s)
  }

  lemma {:induction false} LimitGrows(ls: seq<nat>, n: nat, s: nat)
    requires n < |ls|
    ensures Limit(ls, n + 1, s) == Limit(ls, n, s) + (if ls[n] == 0 || s < ls[n] then 0 else Pow2(s - ls[n]))
  {
    if s == 0 {
    } else {
      LimitGrows(ls, n, s - 1);
    }
  }

  lemma {:induction false} LimitOfNothing(ls: seq<nat>, s: nat)
    ensures Limit(ls, 0, s) == 0
  {
    if s == 0 {
    } else {
      LimitOfNothing(ls, s - 1);
    }
  }

  lemma {:induction false} KraftIsLimit(ls: seq<nat>, n: nat)
    requires n <= |ls| && Lengths(ls)
    ensures Kraft(ls, n) == Limit(ls, n, 15)
  {
    if n == 0 {
      LimitOfNothing(ls, 15);
    } else {
      KraftIsLimit(ls, n - 1);
      LimitGrows(ls, n - 1, 15);
    }
  }

  /** Limits at least double from one length to the next. */
  lemma {:induction false} LimitAscends(ls: seq<nat>, s: nat, t: nat)
    requires s <= t
    ensures Limit(ls, |ls|, t) >= Shl(Limit(ls, |ls|, s), t - s)
    ensures s < t ==> FirstCode(ls, |ls|, t) >= Shl(Limit(ls, |ls|, s), t - s)
    decreases t
  {
    if s == t {
    } else {
      LimitAscends(ls, s, t - 1);
    }
  }

  /** Every length has room for its codes exactly when the Kraft sum is at most 1. */
  lemma FitsIffKraft(ls: seq<nat>)
    requires Lengths(ls)
    ensures Fits(ls) <==> Kraft(ls, |ls|) <= Pow2(15)
  {
    KraftIsLimit(ls, |ls|);
    if Kraft(ls, |ls|) <= Pow2(15) {
      forall s | 1 <= s <= 15 ensures Limit(ls, |ls|, s) <= Pow2(s) {
        LimitAscends(ls, s, 15);
        ShlPow2(s, 15 - s);
        ShlMonotone(Limit(ls, |ls|, s), Pow2(s), 15 - s);
      }
    }
  }

  /** A symbol is counted from its own place on. */
  lemma {:induction false} CountStrict(ls: seq<nat>, i: nat, n: nat)
    requires i < n <= |ls|
    ensures Count(ls, i, ls[i]) < Count(ls, n, ls[i])
  {
    if i == n - 1 {
    } else {
      CountStrict(ls, i, n - 1);
    }
  }

  /** Codes of length `s` lie from `FirstCode(s)` to `Limit(s) - 1`. */
  lemma CodeInRange(ls: seq<nat>, i: nat)
    requires i < |ls| && 0 < ls[i]
    ensures FirstCode(ls, |ls|, ls[i]) <= Code(ls, i) < Limit(ls, |ls|, ls[i])
  {
    CountStrict(ls, i, |ls|);
  }

  /** The symbol holding the `r`-th code of length `s`. */
  lemma {:induction false} Ranked(ls: seq<nat>, n: nat, s: nat, r: nat) returns (i: nat)
    requires n <= |ls| && r < Count(ls, n, s)
    ensures i < n && ls[i] == s && Count(ls, i, s) == r
  {
    if r < Count(ls, n - 1, s) {
      i := Ranked(ls, n - 1, s, r);
    } else {
      i := n - 1;
    }
  }

  /** No bit string starts with the codes of two symbols. */
  lemma PrefixFree(ls: seq<nat>, i: nat, j: nat, x: nat)
    requires i < |ls| && j < |ls| && 0 < ls[i] && 0 < ls[j]
    requires Top(x, ls[i]) == Code(ls, i) && Top(x, ls[j]) == Code(ls, j)
    ensures i == j
  {
    if ls[i] < ls[j] {
      ShorterWins(ls, i, j, x);
    } else if ls[j] < ls[i] {
      ShorterWins(ls, j, i, x);
    } else if i < j {
      CountStrict(ls, i, j);
    } else if j < i {
      CountStrict(ls, j, i);
    }
  }

  lemma ShorterWins(ls: seq<nat>, i: nat, j: nat, x: nat)
    requires i < |ls| && j < |ls| && 0 < ls[i] < ls[j]
    requires Top(x, ls[i]) == Code(ls, i)
    ensures Top(x, ls[j]) < Code(ls, j)
  {
    CodeInRange(ls, i);
    CodeInRange(ls, j);
    BelowLimit(ls, ls[i], ls[j], x);
  }

  /** A bit string whose `s`-bit prefix is below `Limit(s)` has every longer prefix below the first code that long. */
  lemma BelowLimit(ls: seq<nat>, s: nat, t: nat, x: nat)
    requires s < t && Top(x, s) < Limit(ls, |ls|, s)
    ensures Top(x, t) < FirstCode(ls, |ls|, t)
  {
  }

  /** Counts of symbols with a code shorter than `s`; symbols sorted by length, then by number, put the
      `r`-th symbol of length `s` at index `Prior(s) + r`. */
  function Prior(ls: seq<nat>, s: nat): nat {
    if s <= 1 then 0 else Prior(ls, s - 1) + BlCount(ls, |ls|, s - 1)
  }

  function SortedIndex(ls: seq<nat>, i: nat): nat
    requires i < |ls|
  {
    Prior(ls, ls[i]) + Count(ls, i, ls[i])
  }

  lemma {:induction false} PriorAscends(ls: seq<nat>, s: nat, t: nat)
    requires 1 <= s < t
    ensures Prior(ls, s) + BlCount(ls, |ls|, s) <= Prior(ls, t)
  {
    if s == t - 1 {
    } else {
      PriorAscends(ls, s, t - 1);
    }
  }

  lemma SortedIndexInjective(ls: seq<nat>, i: nat, j: nat)
    requires i < |ls| && j < |ls| && i != j && 0 < ls[i] && 0 < ls[j]
    ensures SortedIndex(ls, i) != SortedIndex(ls, j)
  {
    CountStrict(ls, i, |ls|);
    CountStrict(ls, j, |ls|);
    if ls[i] < ls[j] {
      PriorAscends(ls, ls[i], ls[j]);
    } else if ls[j] < ls[i] {
      PriorAscends(ls, ls[j], ls[i]);
    } else if i < j {
      CountStrict(ls, i, j);
    } else {
      CountStrict(ls, j, i);
    }
  }

  /** There are no more symbols with a code than symbols. */
  lemma {:induction false} PriorBounded(ls: seq<nat>, s: nat)
    ensures Prior(ls, s) <= CountBelow(ls, |ls|, s)
  {
    if s <= 1 {
    } else {
      PriorBounded(ls, s - 1);
      CountBelowStep(ls, |ls|, s - 1);
    }
  }

  ghost function CountBelow(ls: seq<nat>, n: nat, s: nat): (c: nat)
    requires n <= |ls|
    ensures c <= n
  {
    if n == 0 then 0 else CountBelow(ls, n - 1, s) + (if 0 < ls[n - 1] < s then 1 else 0)
  }

  lemma {:induction false} CountBelowStep(ls: seq<nat>, n: nat, s: nat)
    requires n <= |ls| && s > 0
    ensures CountBelow(ls, n, s) + Count(ls, n, s) == CountBelow(ls, n, s + 1)
  {
    if n == 0 {
    } else {
      CountBelowStep(ls, n - 1, s);
    }
  }

  lemma SortedIndexBounded(ls: seq<nat>, i: nat)
    requires i < |ls| && 0 < ls[i]
    ensures SortedIndex(ls, i) < |ls|
  {
    CountStrict(ls, i, |ls|);
    PriorBounded(ls, ls[i]);
    CountBelowStep(ls, |ls|, ls[i]);
  }
}

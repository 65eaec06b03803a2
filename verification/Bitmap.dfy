/** The bit map of bmap.c: runs of bits set, cleared and searched for in an array of 32-bit words. */
module Bitmap {
  import opened Bits
  import opened Common

  /** A word against a mask of one bit. */
  lemma MaskTest(w: nat, k: nat)
    ensures And(w, Shl(1, k)) != 0 <==> Bit(w, k) == 1
  {
    AndShl(w, 1, k);
    BitShr(w, k, 0);
    AndOdd(Shr(w, k), 0);
    AndZero(Shr(w, k) / 2);
    ShlMonotone(And(Shr(w, k), 1), 0, k);
    ShlZero(k);
  }

  /** The bits of a mask of one bit. */
  lemma MaskBit(k: nat, j: nat)
    ensures Bit(Shl(1, k), j) == if j == k then 1 else 0
  {
    BitShl(1, k, j);
    if j > k {
      BitBeyond(1, 1, j - k);
    }
  }

  lemma MaskBound(k: nat)
    requires k < 32
    ensures Shl(1, k) < Pow2(32)
  {
    ShlPow2(0, k);
    Pow2Monotone(k + 1, 32);
  }

  lemma OrMask(w: nat, k: nat, j: nat)
    ensures Bit(Or(w, Shl(1, k)), j) == if j == k then 1 else Bit(w, j)
  {
    BitOr(w, Shl(1, k), j);
    MaskBit(k, j);
  }

  lemma AndNotMask(w: nat, k: nat, j: nat)
    requires k < 32 && j < 32
    ensures Shl(1, k) < Pow2(32)
    ensures Bit(And(w, Not(Shl(1, k), 32)), j) == if j == k then 0 else Bit(w, j)
  {
    MaskBound(k);
    BitAnd(w, Not(Shl(1, k), 32), j);
    BitNot(Shl(1, k), 32, j);
    MaskBit(k, j);
  }

  /** The map as a sequence of bits. */
  function View(words: seq<nat>): (v: seq<bool>)
    ensures |v| == 32 * |words|
  {
    seq(32 * |words|, b requires 0 <= b < 32 * |words| => Bit(words[b / 32], b % 32) == 1)
  }

  lemma ViewUpdate(words: seq<nat>, b: nat, w: nat, on: bool)
    requires b < 32 * |words|
    requires forall j :: 0 <= j < 32 ==>
               Bit(w, j) == if j == b % 32 then (if on then 1 else 0) else Bit(words[b / 32], j)
    ensures View(words[b / 32 := w]) == View(words)[b := on]
  {
  }

  /** `v` with the `n` bits at `b` all `on`. */
  function Filled(v: seq<bool>, b: nat, n: nat, on: bool): (r: seq<bool>)
    requires b + n <= |v|
    ensures |r| == |v|
  {
    v[..b] + seq(n, _ => on) + v[b + n..]
  }

  lemma FilledNext(v: seq<bool>, b: nat, i: nat, on: bool)
    requires b + i < |v|
    ensures Filled(v, b, 0, on) == v && Filled(v, b, i + 1, on) == Filled(v, b, i, on)[b + i := on]
  {
  }

  predicate All(v: seq<bool>, b: nat, n: nat, on: bool) {
    b + n <= |v| && forall i :: b <= i < b + n ==> v[i] == on
  }

  /** A run taken from clear bits can be given back, and then nothing has changed. */
  lemma TakenAndGivenBack(v: seq<bool>, b: nat, n: nat)
    requires All(v, b, n, false)
    ensures All(Filled(v, b, n, true), b, n, true)
    ensures Filled(Filled(v, b, n, true), b, n, false) == v
    ensures forall i :: 0 <= i < |v| && !(b <= i < b + n) ==> Filled(v, b, n, true)[i] == v[i]
  {
  }

  class Map {
    const base: array<nat>

    constructor (base: array<nat>)
      ensures this.base == base
    {
      this.base := base;
    }

    method Test(b: nat) returns (on: bool)
      requires b < 32 * base.Length
      ensures on == View(base[..])[b]
    {
      MaskTest(base[b / 32], b % 32);
      on := And(base[b / 32], Shl(1, b % 32)) != 0;
    }

    method SetBit(b: nat)
      requires b < 32 * base.Length
      modifies base
      ensures View(base[..]) == old(View(base[..]))[b := true]
    {
      var k, w := b % 32, base[b / 32];
      forall j | 0 <= j < 32 ensures Bit(Or(w, Shl(1, k)), j) == if j == k then 1 else Bit(w, j) {
        OrMask(w, k, j);
      }
      ViewUpdate(base[..], b, Or(w, Shl(1, k)), true);
      base[b / 32] := Or(w, Shl(1, k));
      assert base[..] == old(base[..])[b / 32 := Or(w, Shl(1, k))];
    }

    method ClearBit(b: nat)
      requires b < 32 * base.Length
      modifies base
      ensures View(base[..]) == old(View(base[..]))[b := false]
    {
      var k, w := b % 32, base[b / 32];
      MaskBound(k);
      var m := And(w, Not(Shl(1, k), 32));
      forall j | 0 <= j < 32 ensures Bit(m, j) == if j == k then 0 else Bit(w, j) {
        AndNotMask(w, k, j);
      }
      ViewUpdate(base[..], b, m, false);
      base[b / 32] := m;
      assert base[..] == old(base[..])[b / 32 := m];
    }

    /** Sets a run of bits, if all of them are clear. */
    method Set(b: nat, n: nat) returns (err: int)
      requires n > 0 && b + n <= 32 * base.Length
      modifies base
      ensures err == if All(old(View(base[..])), b, n, false) then 0 else -EALREADY
      ensures View(base[..]) == if err == 0 then Filled(old(View(base[..])), b, n, true) else old(View(base[..]))
    {
      ghost var v := View(base[..]);
      for i := 0 to n
        invariant View(base[..]) == v && All(v, b, i, false)
      {
        var on := Test(b + i);
        if on {
          return -EALREADY;
        }
      }
      FilledNext(v, b, 0, true);
      for i := 0 to n
        invariant View(base[..]) == Filled(v, b, i, true)
      {
        FilledNext(v, b, i, true);
        SetBit(b + i);
      }
      err := 0;
    }

    /** Clears a run of bits, if all of them are set. */
    method Unset(b: nat, n: nat) returns (err: int)
      requires n > 0 && b + n <= 32 * base.Length
      modifies base
      ensures err == if All(old(View(base[..])), b, n, true) then 0 else -EALREADY
      ensures View(base[..]) == if err == 0 then Filled(old(View(base[..])), b, n, false) else old(View(base[..]))
    {
      ghost var v := View(base[..]);
      for i := 0 to n
        invariant View(base[..]) == v && All(v, b, i, true)
      {
        var on := Test(b + i);
        if !on {
          return -EALREADY;
        }
      }
      FilledNext(v, b, 0, false);
      for i := 0 to n
        invariant View(base[..]) == Filled(v, b, i, false)
      {
        FilledNext(v, b, i, false);
        ClearBit(b + i);
      }
      err := 0;
    }

    /** The first run of `n` bits that are all `on`, from `start` on; a failed run is left at the bit that ended it. */
    method FirstRun(start: nat, n: nat, on: bool) returns (r: int)
      requires n > 0 && start + n <= 32 * base.Length
      ensures r >= 0 || r == -ENOENT
      ensures r >= 0 ==> start <= r && All(View(base[..]), r, n, on)
                         && forall s :: start <= s < r ==> !All(View(base[..]), s, n, on)
      ensures r == -ENOENT <==> forall s :: start <= s ==> !All(View(base[..]), s, n, on)
    {
      var bit := start;
      ghost var v := View(base[..]);
      while bit + n <= 32 * base.Length
        invariant start <= bit && forall s :: start <= s < bit ==> !All(v, s, n, on)
      {
        var here := Test(bit);
        if here == on {
          var j, nr := bit, 0;
          while nr < n
            invariant 0 <= nr <= n && j == bit + nr && All(v, bit, nr, on)
          {
            var next := Test(j);
            if next != on {
              break;
            }
            nr, j := nr + 1, j + 1;
          }
          if nr == n {
            return bit;
          }
          forall s | bit <= s < j ensures !All(v, s, n, on) {
            assert v[j] != on;
          }
          bit := j;
        } else {
          assert v[bit] != on;
          bit := bit + 1;
        }
      }
      r := -ENOENT;
    }

    method FirstUnset(start: nat, n: nat) returns (r: int)
      requires n > 0 && start + n <= 32 * base.Length
      ensures r == -ENOENT <==> forall s :: start <= s ==> !All(View(base[..]), s, n, false)
      ensures r != -ENOENT ==> start <= r && All(View(base[..]), r, n, false)
                               && forall s :: start <= s < r ==> !All(View(base[..]), s, n, false)
    {
      r := FirstRun(start, n, false);
    }

    method FirstSet(start: nat, n: nat) returns (r: int)
      requires n > 0 && start + n <= 32 * base.Length
      ensures r == -ENOENT <==> forall s :: start <= s ==> !All(View(base[..]), s, n, true)
      ensures r != -ENOENT ==> start <= r && All(View(base[..]), r, n, true)
                               && forall s :: start <= s < r ==> !All(View(base[..]), s, n, true)
    {
      r := FirstRun(start, n, true);
    }

    /** Finding a clear run, setting it and clearing it again: both calls succeed and the map is as before. */
    method TakeAndGiveBack(start: nat, n: nat) returns (r: int, taken: int, given: int)
      requires n > 0 && start + n <= 32 * base.Length
      modifies base
      ensures r != -ENOENT ==> taken == 0 && given == 0
      ensures View(base[..]) == old(View(base[..]))
    {
      r := FirstUnset(start, n);
      taken, given := -ENOENT, -ENOENT;
      if r != -ENOENT {
        TakenAndGivenBack(View(base[..]), r, n);
        taken := Set(r, n);
        given := Unset(r, n);
      }
    }
  }
}

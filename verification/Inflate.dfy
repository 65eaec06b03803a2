/** Huffman decoding of the inflate decompressor in ssfn.h: bit reversal, construction of the decoding tables,
    the bit reader, and the decoder with its 9-bit fast table and its canonical slow path. */
module BitReversal {
  import opened Bits

  /** One line of `_ssfn__bitreverse16`: exchange neighbouring groups of `k` bits. */
  function SwapStage(n: nat, hi: nat, lo: nat, k: nat): nat {
    Or(Shr(And(n, hi), k), Shl(And(n, lo), k))
  }

  function BitReverse16(n: nat): nat {
    var n1 := SwapStage(n, 0xAAAA, 0x5555, 1);
    var n2 := SwapStage(n1, 0xCCCC, 0x3333, 2);
    var n3 := SwapStage(n2, 0xF0F0, 0x0F0F, 4);
    SwapStage(n3, 0xFF00, 0x00FF, 8)
  }

  function BitReverse(v: nat, bits: nat): nat
    requires bits <= 16
  {
    Shr(BitReverse16(v), 16 - bits)
  }

  /** Is bit `j` in the upper half of its group of `2 * k` bits (`k` being 1, 2, 4 or 8)? */
  function Half(j: nat, k: nat): (h: nat)
    ensures h <= 1
  {
    if k == 1 then j % 2 else if k == 2 then j / 2 % 2 else if k == 4 then j / 4 % 2 else j / 8 % 2
  }

  /** `hi` and `lo` select, of 16 bits, the upper and the lower half of each group of `2 * k`. */
  ghost predicate Masks(hi: nat, lo: nat, k: nat) {
    && hi < 0x10000
    && lo == 0xFFFF - hi
    && forall j :: 0 <= j < 16 ==> Bit(hi, j) == Half(j, k)
  }

  /** The bits from bit `j` on of the mask of the upper halves. */
  function Upper(k: nat, j: nat): nat
    decreases 16 - j
  {
    if j >= 16 then 0 else Half(j, k) + 2 * Upper(k, j + 1)
  }

  lemma {:induction false} UpperBit(k: nat, from: nat, j: nat)
    requires from + j < 16
    ensures Bit(Upper(k, from), j) == Half(from + j, k)
    decreases j
  {
    Halve(Half(from, k), Upper(k, from + 1));
    if j > 0 {
      UpperBit(k, from + 1, j - 1);
    }
  }

  lemma Halve(h: nat, u: nat)
    requires h <= 1
    ensures (h + 2 * u) % 2 == h && (h + 2 * u) / 2 == u
  {
  }

  lemma UpperMask(hi: nat, k: nat)
    requires hi == Upper(k, 0) < 0x10000
    ensures Masks(hi, 0xFFFF - hi, k)
  {
    forall j | 0 <= j < 16 ensures Bit(hi, j) == Half(j, k) {
      UpperBit(k, 0, j);
    }
  }

  lemma Masks1()
    ensures Masks(0xAAAA, 0x5555, 1)
  {
    assert Upper(1, 12) == 0xA;
    assert Upper(1, 8) == 0xAA;
    assert Upper(1, 4) == 0xAAA;
    assert Upper(1, 0) == 0xAAAA;
    UpperMask(0xAAAA, 1);
  }

  lemma Masks2()
    ensures Masks(0xCCCC, 0x3333, 2)
  {
    assert Upper(2, 12) == 0xC;
    assert Upper(2, 8) == 0xCC;
    assert Upper(2, 4) == 0xCCC;
    assert Upper(2, 0) == 0xCCCC;
    UpperMask(0xCCCC, 2);
  }

  lemma Masks4()
    ensures Masks(0xF0F0, 0x0F0F, 4)
  {
    assert Upper(4, 12) == 0xF;
    assert Upper(4, 8) == 0xF0;
    assert Upper(4, 4) == 0xF0F;
    assert Upper(4, 0) == 0xF0F0;
    UpperMask(0xF0F0, 4);
  }

  lemma Masks8()
    ensures Masks(0xFF00, 0x00FF, 8)
  {
    assert Upper(8, 12) == 0xF;
    assert Upper(8, 8) == 0xFF;
    assert Upper(8, 4) == 0xFF0;
    assert Upper(8, 0) == 0xFF00;
    UpperMask(0xFF00, 8);
  }

  /** Exchanging groups of `k` bits moves each bit by `k`, to the other half of its group of `2 * k`. */
  lemma SwapStageBit(n: nat, hi: nat, lo: nat, k: nat, j: nat)
    requires k in {1, 2, 4, 8} && Masks(hi, lo, k) && j < 16
    ensures Bit(SwapStage(n, hi, lo, k), j) == if Half(j, k) == 0 then Bit(n, j + k) else Bit(n, j - k)
  {
    OtherHalf(k, j);
    BitOr(Shr(And(n, hi), k), Shl(And(n, lo), k), j);
    HighHalf(n, hi, lo, k, j);
    LowHalf(n, hi, lo, k, j);
  }

  lemma HighHalf(n: nat, hi: nat, lo: nat, k: nat, j: nat)
    requires k in {1, 2, 4, 8} && Masks(hi, lo, k) && j < 16
    ensures Bit(Shr(And(n, hi), k), j) == if Half(j, k) == 0 then Bit(n, j + k) else 0
  {
    OtherHalf(k, j);
    BitShr(And(n, hi), k, j);
    BitAnd(n, hi, j + k);
    if j + k >= 16 {
      Pow2Literals();
      BitBeyond(hi, 16, j + k);
    }
  }

  lemma LowHalf(n: nat, hi: nat, lo: nat, k: nat, j: nat)
    requires k in {1, 2, 4, 8} && Masks(hi, lo, k) && j < 16
    ensures Bit(Shl(And(n, lo), k), j) == if Half(j, k) == 1 then Bit(n, j - k) else 0
  {
    OtherHalf(k, j);
    BitShl(And(n, lo), k, j);
    if j >= k {
      BitAnd(n, lo, j - k);
      LowerBit(hi, lo, k, j - k);
    }
  }

  lemma LowerBit(hi: nat, lo: nat, k: nat, j: nat)
    requires Masks(hi, lo, k) && j < 16
    ensures Bit(lo, j) == 1 - Half(j, k)
  {
    Pow2Literals();
    BitNot(hi, 16, j);
  }

  /** Moving by `k` bits leads to the other half. */
  ghost predicate Alternates(k: nat, j: nat) {
    && (Half(j, k) == 0 ==> j + k < 16 && Half(j + k, k) == 1 && (j >= k ==> Half(j - k, k) == 1))
    && (Half(j, k) == 1 ==> j >= k && Half(j - k, k) == 0 && (j + k < 16 ==> Half(j + k, k) == 0))
  }

  lemma Alternates2(j: nat)
    requires j < 16
    ensures Alternates(2, j)
  {
    assert (j + 2) / 2 == j / 2 + 1;
  }

  lemma Alternates4(j: nat)
    requires j < 16
    ensures Alternates(4, j)
  {
    assert (j + 4) / 4 == j / 4 + 1;
  }

  lemma Alternates8(j: nat)
    requires j < 16
    ensures Alternates(8, j)
  {
    assert (j + 8) / 8 == j / 8 + 1;
  }

  lemma OtherHalf(k: nat, j: nat)
    requires k in {1, 2, 4, 8} && j < 16
    ensures Alternates(k, j)
  {
    if k == 2 {
      Alternates2(j);
    } else if k == 4 {
      Alternates4(j);
    } else if k == 8 {
      Alternates8(j);
    }
  }

  lemma LastStageBound(n: nat)
    ensures SwapStage(n, 0xFF00, 0x00FF, 8) < Pow2(16)
  {
    Pow2Literals();
    AndBound(n, 0xFF00);
    AndBound(n, 0x00FF);
    ShrBound(And(n, 0xFF00), 8, 8);
    ShlPow2(8, 8);
    ShlMonotone(256, And(n, 0x00FF), 8);
    OrBound(Shr(And(n, 0xFF00), 8), Shl(And(n, 0x00FF), 8), 16);
  }

  function Flip(j: nat, k: nat): int {
    if Half(j, k) == 0 then j + k else j - k
  }

  /** `m` is `n` with neighbouring groups of `k` bits exchanged. */
  ghost predicate Swapped(n: nat, m: nat, k: nat) {
    k in {1, 2, 4, 8} && forall j :: 0 <= j < 16 ==> 0 <= Flip(j, k) < 16 && Bit(m, j) == Bit(n, Flip(j, k))
  }

  lemma SwapStageSwaps(n: nat, hi: nat, lo: nat, k: nat)
    requires k in {1, 2, 4, 8} && Masks(hi, lo, k)
    ensures Swapped(n, SwapStage(n, hi, lo, k), k)
  {
    forall j | 0 <= j < 16
      ensures 0 <= Flip(j, k) < 16 && Bit(SwapStage(n, hi, lo, k), j) == Bit(n, Flip(j, k))
    {
      OtherHalf(k, j);
      SwapStageBit(n, hi, lo, k, j);
    }
  }

  lemma FourSwapsReverse(n: nat, n1: nat, n2: nat, n3: nat, n4: nat, j: nat)
    requires j < 16
    requires Swapped(n, n1, 1) && Swapped(n1, n2, 2) && Swapped(n2, n3, 4) && Swapped(n3, n4, 8)
    ensures Bit(n4, j) == Bit(n, 15 - j)
  {
    var j3 := Flip(j, 8);
    var j2 := Flip(j3, 4);
    var j1 := Flip(j2, 2);
    assert Flip(j1, 1) == 15 - j;
  }

  lemma ReversedIsTop(n: nat, n1: nat, n2: nat, n3: nat, n4: nat)
    requires Swapped(n, n1, 1) && Swapped(n1, n2, 2) && Swapped(n2, n3, 4) && Swapped(n3, n4, 8) && n4 < Pow2(16)
    ensures n4 == Top(n, 16)
  {
    forall j | 0 <= j < 16 ensures Bit(n4, j) == Bit(n, 15 - j) {
      FourSwapsReverse(n, n1, n2, n3, n4, j);
    }
    TopOfBits(n4, n, 16);
  }

  lemma StagesSwap(n: nat, n1: nat, n2: nat, n3: nat)
    ensures Swapped(n, SwapStage(n, 0xAAAA, 0x5555, 1), 1) && Swapped(n1, SwapStage(n1, 0xCCCC, 0x3333, 2), 2)
    ensures Swapped(n2, SwapStage(n2, 0xF0F0, 0x0F0F, 4), 4) && Swapped(n3, SwapStage(n3, 0xFF00, 0x00FF, 8), 8)
  {
    Masks1();
    SwapStageSwaps(n, 0xAAAA, 0x5555, 1);
    Masks2();
    SwapStageSwaps(n1, 0xCCCC, 0x3333, 2);
    Masks4();
    SwapStageSwaps(n2, 0xF0F0, 0x0F0F, 4);
    Masks8();
    SwapStageSwaps(n3, 0xFF00, 0x00FF, 8);
  }

  /** The four exchanges together reverse 16 bits; higher bits of the argument are ignored. */
  lemma BitReverse16IsTop(n: nat)
    ensures BitReverse16(n) == Top(n, 16)
  {
    var n1 := SwapStage(n, 0xAAAA, 0x5555, 1);
    var n2 := SwapStage(n1, 0xCCCC, 0x3333, 2);
    var n3 := SwapStage(n2, 0xF0F0, 0x0F0F, 4);
    var n4 := SwapStage(n3, 0xFF00, 0x00FF, 8);
    StagesSwap(n, n1, n2, n3);
    LastStageBound(n3);
    ReversedIsTop(n, n1, n2, n3, n4);
  }

  /** `_ssfn__bit_reverse(v, bits)` reads the low `bits` bits of `v` in reverse. */
  lemma BitReverseIsTop(v: nat, bits: nat)
    requires bits <= 16
    ensures BitReverse(v, bits) == Top(v, bits)
  {
    BitReverse16IsTop(v);
    TopPrefix(v, bits, 16);
  }
}

module Inflate {
  import opened Bits
  import opened BitReversal
  import opened CanonicalCode

  const ZFAST_BITS: nat := 9
  const ZFAST_SIZE: nat := 512
  const MAX_SYMBOLS: nat := 288

  // ---------- what the tables hold ----------

  ghost predicate CodesReady(ls: seq<nat>, firstcode: seq<nat>, firstsymbol: seq<nat>, maxcode: seq<nat>) {
    && |firstcode| == 16 && |firstsymbol| == 16 && |maxcode| == 17
    && maxcode[16] == 0x10000
    && forall s :: 1 <= s < 16 ==>
         && firstcode[s] == FirstCode(ls, |ls|, s)
         && firstsymbol[s] == Prior(ls, s)
         && maxcode[s] == Shl(Limit(ls, |ls|, s), 16 - s)
  }

  ghost predicate ValuesReady(ls: seq<nat>, n: nat, size: seq<nat>, value: seq<nat>)
    requires n <= |ls|
  {
    && |size| == MAX_SYMBOLS && |value| == MAX_SYMBOLS
    && forall i :: 0 <= i < n && ls[i] > 0 ==>
         SortedIndex(ls, i) < MAX_SYMBOLS && value[SortedIndex(ls, i)] == i && size[SortedIndex(ls, i)] == ls[i]
  }

  predicate FastSymbol(ls: seq<nat>, i: nat, x: nat)
    requires i < |ls|
  {
    1 <= ls[i] <= ZFAST_BITS && Top(x, ls[i]) == Code(ls, i)
  }

  /** An entry of the fast table names the symbol whose code its index starts with, and is 0 if there is none. */
  ghost predicate FastReady(ls: seq<nat>, n: nat, fast: seq<nat>)
    requires n <= |ls|
  {
    && |fast| == ZFAST_SIZE
    && (forall x :: 0 <= x < ZFAST_SIZE && fast[x] != 0 ==>
          fast[x] % 512 < n && FastSymbol(ls, fast[x] % 512, x) && fast[x] / 512 == ls[fast[x] % 512])
    && (forall x, i :: 0 <= x < ZFAST_SIZE && 0 <= i < n && FastSymbol(ls, i, x) ==> fast[x] == 512 * ls[i] + i)
  }

  lemma FastStep(ls: seq<nat>, i: nat, before: seq<nat>, after: seq<nat>)
    requires i < |ls| <= MAX_SYMBOLS && Lengths(ls)
    requires FastReady(ls, i, before) && |after| == ZFAST_SIZE
    requires forall x :: 0 <= x < ZFAST_SIZE ==>
               after[x] == if FastSymbol(ls, i, x) then 512 * ls[i] + i else before[x]
    ensures FastReady(ls, i + 1, after)
  {
    EntryParts(ls[i], i);
    forall x, k | 0 <= x < ZFAST_SIZE && 0 <= k < i + 1 && FastSymbol(ls, k, x)
      ensures after[x] == 512 * ls[k] + k
    {
      if FastSymbol(ls, i, x) {
        PrefixFree(ls, k, i, x);
      }
    }
  }

  lemma EntryParts(s: nat, i: nat)
    requires i < 512
    ensures (512 * s + i) % 512 == i && (512 * s + i) / 512 == s
  {}

  lemma ValuesStep(ls: seq<nat>, i: nat, size: seq<nat>, value: seq<nat>)
    requires i < |ls| <= MAX_SYMBOLS && ls[i] > 0 && ValuesReady(ls, i, size, value)
    ensures SortedIndex(ls, i) < MAX_SYMBOLS
    ensures ValuesReady(ls, i + 1, size[SortedIndex(ls, i) := ls[i]], value[SortedIndex(ls, i) := i])
  {
    SortedIndexBounded(ls, i);
    forall k | 0 <= k < i && ls[k] > 0 ensures SortedIndex(ls, k) != SortedIndex(ls, i) {
      SortedIndexInjective(ls, k, i);
    }
  }

  ghost predicate Level(ls: seq<nat>, s: nat, nextcode: nat, firstcode: nat, firstsymbol: nat, maxcode: nat)
    requires s < 16
  {
    && Limit(ls, |ls|, s) <= Pow2(s)
    && nextcode == firstcode == FirstCode(ls, |ls|, s)
    && firstsymbol == Prior(ls, s)
    && maxcode == Shl(Limit(ls, |ls|, s), 16 - s)
  }

  ghost predicate Levels(ls: seq<nat>, n: nat, nextCode: seq<nat>, firstcode: seq<nat>, firstsymbol: seq<nat>,
                         maxcode: seq<nat>)
  {
    && n <= 16 && |nextCode| == |firstcode| == |firstsymbol| == 16 && |maxcode| == 17
    && forall s :: 1 <= s < n ==> Level(ls, s, nextCode[s], firstcode[s], firstsymbol[s], maxcode[s])
  }

  lemma LevelsStep(ls: seq<nat>, i: nat, nc: seq<nat>, fc: seq<nat>, fs: seq<nat>, mc: seq<nat>,
                   nc': seq<nat>, fc': seq<nat>, fs': seq<nat>, mc': seq<nat>)
    requires 1 <= i < 16 && Levels(ls, i, nc, fc, fs, mc)
    requires |nc'| == 16 && |fc'| == 16 && |fs'| == 16 && |mc'| == 17
    requires nc' == nc[i := nc'[i]] && fc' == fc[i := fc'[i]] && fs' == fs[i := fs'[i]] && mc' == mc[i := mc'[i]]
    requires Level(ls, i, nc'[i], fc'[i], fs'[i], mc'[i])
    ensures Levels(ls, i + 1, nc', fc', fs', mc')
  {}

  lemma AllLevels(ls: seq<nat>, nextCode: seq<nat>, firstcode: seq<nat>, firstsymbol: seq<nat>,
                  mc: seq<nat>, maxcode: seq<nat>)
    requires Levels(ls, 16, nextCode, firstcode, firstsymbol, mc) && maxcode == mc[16 := 0x10000]
    ensures Fits(ls) && CodesReady(ls, firstcode, firstsymbol, maxcode)
    ensures forall s :: 1 <= s < 16 ==> nextCode[s] == FirstCode(ls, |ls|, s)
  {
    forall s | 1 <= s <= 15 ensures Limit(ls, |ls|, s) <= Pow2(s) {
      assert Level(ls, s, nextCode[s], firstcode[s], firstsymbol[s], mc[s]);
    }
  }

  ghost predicate NextCodes(ls: seq<nat>, n: nat, nextCode: seq<nat>)
    requires n <= |ls|
  {
    |nextCode| == 16 && forall s :: 1 <= s < 16 ==> nextCode[s] == FirstCode(ls, |ls|, s) + Count(ls, n, s)
  }

  /** `_ssfn__zhuffman`: the decoding tables of one code. */
  class Huffman {
    const fast: array<nat>
    const firstcode: array<nat>
    const maxcode: array<nat>
    const firstsymbol: array<nat>
    const size: array<nat>
    const value: array<nat>

    ghost predicate Shape() {
      && fast.Length == ZFAST_SIZE && firstcode.Length == 16 && maxcode.Length == 17
      && firstsymbol.Length == 16 && size.Length == MAX_SYMBOLS && value.Length == MAX_SYMBOLS
      && firstcode != firstsymbol && size != value
    }

    ghost predicate Built(ls: seq<nat>)
      requires Shape()
      reads fast, firstcode, maxcode, firstsymbol, size, value
    {
      && Lengths(ls) && |ls| <= MAX_SYMBOLS && Fits(ls)
      && CodesReady(ls, firstcode[..], firstsymbol[..], maxcode[..])
      && ValuesReady(ls, |ls|, size[..], value[..])
      && FastReady(ls, |ls|, fast[..])
    }

    constructor ()
      ensures Shape()
      ensures fresh(fast) && fresh(firstcode) && fresh(maxcode) && fresh(firstsymbol) && fresh(size) && fresh(value)
    {
      fast := new nat[ZFAST_SIZE];
      firstcode := new nat[16];
      maxcode := new nat[17];
      firstsymbol := new nat[16];
      size := new nat[MAX_SYMBOLS];
      value := new nat[MAX_SYMBOLS];
    }

    /** `_ssfn__zbuild_huffman`: accepts exactly the length lists whose Kraft sum is at most 1, and then leaves
        tables that describe the canonical code of section 3.2.2 of RFC 1951. */
    method Build(sizelist: seq<nat>) returns (ok: bool)
      requires Shape() && Lengths(sizelist) && |sizelist| <= MAX_SYMBOLS
      modifies fast, firstcode, maxcode, firstsymbol, size, value
      ensures ok <==> Kraft(sizelist, |sizelist|) <= Pow2(15)
      ensures ok ==> Built(sizelist)
    {
      for x := 0 to ZFAST_SIZE
        invariant forall y :: 0 <= y < x ==> fast[y] == 0
      {
        fast[x] := 0;
      }
      var sizes := CountSizes(sizelist);
      FitsIffKraft(sizelist);
      var nextCode := new nat[16];
      ok := AssignCodes(sizelist, sizes, nextCode);
      if ok {
        FillTables(sizelist, nextCode);
      }
    }

    static method CountSizes(sizelist: seq<nat>) returns (sizes: array<nat>)
      requires Lengths(sizelist)
      ensures fresh(sizes) && sizes.Length == 17
      ensures forall s :: 0 <= s < 16 ==> sizes[s] == BlCount(sizelist, |sizelist|, s)
    {
      sizes := new nat[17](_ => 0);
      for i := 0 to |sizelist|
        invariant forall s :: 0 <= s < 16 ==> sizes[s] == Count(sizelist, i, s)
      {
        sizes[sizelist[i]] := sizes[sizelist[i]] + 1;
      }
      sizes[0] := 0;
    }

    static method PlausibleSizes(ghost ls: seq<nat>, sizes: array<nat>) returns (ok: bool)
      requires sizes.Length == 17 && forall s :: 0 <= s < 16 ==> sizes[s] == BlCount(ls, |ls|, s)
      ensures ok <==> forall s :: 1 <= s < 16 ==> BlCount(ls, |ls|, s) <= Pow2(s)
      ensures !ok ==> !Fits(ls)
    {
      for i := 1 to 16
        invariant forall s :: 1 <= s < i ==> BlCount(ls, |ls|, s) <= Pow2(s)
      {
        if sizes[i] > Pow2(i) {
          assert Limit(ls, |ls|, i) > Pow2(i);
          return false;
        }
      }
      return true;
    }

    method AssignCodes(ghost ls: seq<nat>, sizes: array<nat>, nextCode: array<nat>) returns (ok: bool)
      requires Shape() && Lengths(ls) && sizes.Length == 17 && nextCode.Length == 16
      requires forall s :: 0 <= s < 16 ==> sizes[s] == BlCount(ls, |ls|, s)
      requires nextCode !in {firstcode, firstsymbol, sizes} && sizes !in {firstcode, firstsymbol, maxcode}
      modifies firstcode, maxcode, firstsymbol, nextCode
      ensures ok <==> Fits(ls)
      ensures ok ==> CodesReady(ls, firstcode[..], firstsymbol[..], maxcode[..])
      ensures ok ==> forall s :: 1 <= s < 16 ==> nextCode[s] == FirstCode(ls, |ls|, s)
    {
      ok := PlausibleSizes(ls, sizes);
      if !ok {
        return;
      }
      ok := AssignLevels(ls, sizes, nextCode);
      if !ok {
        return;
      }
      ghost var nc, fc, fs, mc := nextCode[..], firstcode[..], firstsymbol[..], maxcode[..];
      maxcode[16] := 0x10000;
      assert maxcode[..] == mc[16 := 0x10000];
      AllLevels(ls, nc, fc, fs, mc, maxcode[..]);
    }

    /** The loop over the lengths. */
    method AssignLevels(ghost ls: seq<nat>, sizes: array<nat>, nextCode: array<nat>) returns (ok: bool)
      requires Shape() && sizes.Length == 17 && nextCode.Length == 16
      requires forall s :: 0 <= s < 16 ==> sizes[s] == BlCount(ls, |ls|, s)
      requires nextCode !in {firstcode, firstsymbol, sizes} && sizes !in {firstcode, firstsymbol, maxcode}
      modifies firstcode, maxcode, firstsymbol, nextCode
      ensures !ok ==> !Fits(ls)
      ensures ok ==> Levels(ls, 16, nextCode[..], firstcode[..], firstsymbol[..], maxcode[..])
    {
      var code, k := 0, 0;
      ghost var counts := sizes[..];
      for i := 1 to 16
        invariant sizes[..] == counts
        invariant code == FirstCode(ls, |ls|, i) && k == Prior(ls, i) && code <= Pow2(i)
        invariant Levels(ls, i, nextCode[..], firstcode[..], firstsymbol[..], maxcode[..])
      {
        assert sizes[i] == counts[i];
        ok, code, k := AssignLevel(ls, i, sizes[i], code, k, nextCode);
        if !ok {
          return;
        }
      }
      ok := true;
    }

    /** The codes of one length. */
    method AssignLevel(ghost ls: seq<nat>, i: nat, n: nat, first: nat, prior: nat, nextCode: array<nat>)
        returns (ok: bool, code: nat, k: nat)
      requires Shape() && 1 <= i < 16 && nextCode.Length == 16 && nextCode !in {firstcode, firstsymbol}
      requires n == BlCount(ls, |ls|, i) && first == FirstCode(ls, |ls|, i) <= Pow2(i) && prior == Prior(ls, i)
      requires Levels(ls, i, nextCode[..], firstcode[..], firstsymbol[..], maxcode[..])
      modifies firstcode, maxcode, firstsymbol, nextCode
      ensures !ok ==> !Fits(ls)
      ensures ok ==>
                && code == FirstCode(ls, |ls|, i + 1) && k == Prior(ls, i + 1) && code <= Pow2(i + 1)
                && Levels(ls, i + 1, nextCode[..], firstcode[..], firstsymbol[..], maxcode[..])
    {
      ghost var nc, fc, fs, mc := nextCode[..], firstcode[..], firstsymbol[..], maxcode[..];
      nextCode[i] := first;
      firstcode[i] := first;
      firstsymbol[i] := prior;
      code, k := first + n, prior;
      if n != 0 && code - 1 >= Pow2(i) {
        assert Limit(ls, |ls|, i) > Pow2(i);
        return false, code, k;
      }
      maxcode[i] := Shl(code, 16 - i);
      LevelsStep(ls, i, nc, fc, fs, mc, nextCode[..], firstcode[..], firstsymbol[..], maxcode[..]);
      code := 2 * code;
      k := k + n;
      ok := true;
    }

    method FillTables(ls: seq<nat>, nextCode: array<nat>)
      requires Shape() && Lengths(ls) && |ls| <= MAX_SYMBOLS && Fits(ls)
      requires nextCode.Length == 16 && nextCode !in {firstcode, firstsymbol}
      requires CodesReady(ls, firstcode[..], firstsymbol[..], maxcode[..])
      requires forall s :: 1 <= s < 16 ==> nextCode[s] == FirstCode(ls, |ls|, s)
      requires forall y :: 0 <= y < ZFAST_SIZE ==> fast[y] == 0
      modifies fast, size, value, nextCode
      ensures Built(ls)
    {
      for i := 0 to |ls|
        invariant CodesReady(ls, firstcode[..], firstsymbol[..], maxcode[..])
        invariant NextCodes(ls, i, nextCode[..])
        invariant ValuesReady(ls, i, size[..], value[..])
        invariant FastReady(ls, i, fast[..])
      {
        AddSymbol(ls, i, nextCode);
      }
    }

    /** The body of the last loop. */
    method AddSymbol(ls: seq<nat>, i: nat, nextCode: array<nat>)
      requires Shape() && Lengths(ls) && |ls| <= MAX_SYMBOLS && Fits(ls) && i < |ls|
      requires nextCode.Length == 16 && nextCode !in {firstcode, firstsymbol}
      requires CodesReady(ls, firstcode[..], firstsymbol[..], maxcode[..])
      requires NextCodes(ls, i, nextCode[..])
      requires ValuesReady(ls, i, size[..], value[..]) && FastReady(ls, i, fast[..])
      modifies fast, size, value, nextCode
      ensures NextCodes(ls, i + 1, nextCode[..])
      ensures ValuesReady(ls, i + 1, size[..], value[..]) && FastReady(ls, i + 1, fast[..])
    {
      var s := ls[i];
      if s == 0 {
        FastStep(ls, i, fast[..], fast[..]);
        return;
      }
      ghost var fast0, size0, value0, next0 := fast[..], size[..], value[..], nextCode[..];
      var code := nextCode[s];
      var c := code - firstcode[s] + firstsymbol[s];
      assert code == Code(ls, i) && c == SortedIndex(ls, i);
      ValuesStep(ls, i, size0, value0);
      size[c] := s;
      value[c] := i;
      assert size[..] == size0[c := ls[i]] && value[..] == value0[c := i];
      if s <= ZFAST_BITS {
        CodeInRange(ls, i);
        FillFast(code, s, 512 * s + i);
      }
      FastStep(ls, i, fast0, fast[..]);
      nextCode[s] := code + 1;
      assert nextCode[..] == next0[s := nextCode[s]];
    }

    static method Reversed(code: nat, s: nat) returns (r: nat)
      requires s <= 16
      ensures r == Top(code, s)
    {
      BitReverseIsTop(code, s);
      r := BitReverse(code, s);
    }

    /** The innermost loop: steps of `1 << s` from the reversed code on visit exactly the indices that start with it. */
    method FillFast(code: nat, s: nat, fastv: nat)
      requires Shape() && 1 <= s <= ZFAST_BITS && code < Pow2(s)
      modifies fast
      ensures forall x :: 0 <= x < ZFAST_SIZE ==> fast[x] == if Top(x, s) == code then fastv else old(fast[x])
    {
      var j := Reversed(code, s);
      ghost var r := j;
      ReversedSlots(code, s, r);
      assert Pow2(ZFAST_BITS) == ZFAST_SIZE by { Pow2Literals(); }
      ghost var fast0 := fast[..];
      while j < Pow2(ZFAST_BITS)
        invariant Low(j, s) == r && Filled(fast0, fast[..], j, s, r, fastv)
      {
        ghost var before := fast[..];
        FillStep(fast0, before, j, s, r, fastv);
        fast[j] := fastv;
        assert fast[..] == before[j := fastv];
        j := j + Pow2(s);
      }
    }
  }

  /** The slots below `j` that start with the code whose reversal is `r` hold `v`, the others what they held before. */
  ghost predicate Filled(before: seq<nat>, after: seq<nat>, j: nat, s: nat, r: nat, v: nat) {
    && |before| == |after| == ZFAST_SIZE
    && forall x :: 0 <= x < ZFAST_SIZE ==> after[x] == if x < j && Low(x, s) == r then v else before[x]
  }

  lemma FillStep(before: seq<nat>, after: seq<nat>, j: nat, s: nat, r: nat, v: nat)
    requires Filled(before, after, j, s, r, v) && j < ZFAST_SIZE && Low(j, s) == r
    ensures Filled(before, after[j := v], j + Pow2(s), s, r, v) && Low(j + Pow2(s), s) == r
  {
    NoneBetween(j, s);
  }

  lemma ReversedSlots(code: nat, s: nat, r: nat)
    requires code < Pow2(s) && r == Top(code, s)
    ensures Low(r, s) == r && forall x :: 0 <= x < r ==> Low(x, s) != r
    ensures forall x: nat :: Top(x, s) == code <==> Low(x, s) == r
  {
    LowOfSmall(r, s);
    forall x | 0 <= x < r ensures Low(x, s) != r {
      LowOfSmall(x, s);
    }
    LowOfSmall(code, s);
    TopInvolution(code, s);
    forall x: nat ensures Top(x, s) == code <==> Low(x, s) == r {
      TopInvolution(x, s);
      TopOfLow(x, s);
    }
  }

  lemma NoneBetween(j: nat, s: nat)
    ensures Low(j + Pow2(s), s) == Low(j, s)
    ensures forall x :: j < x < j + Pow2(s) ==> Low(x, s) != Low(j, s)
  {
    LowPeriod(j, s);
    forall x | j < x < j + Pow2(s) ensures Low(x, s) != Low(j, s) {
      if Low(x, s) == Low(j, s) {
        LowInjective(j, x, s);
      }
    }
  }

  // ---------- the bit stream ----------

  /** The compressed data, as memory read through `zbuffer` without a bound. */
  type Memory = nat -> nat

  /** Bit `p` of the data: bytes in order, least significant bit first. */
  function MemBit(mem: Memory, p: nat): nat {
    Bit(mem(p / 8) % 256, p % 8)
  }

  /** The data from bit `p` on start with the code of symbol `i`, most significant code bit first. */
  ghost predicate Matches(ls: seq<nat>, i: nat, mem: Memory, p: nat)
    requires i < |ls|
  {
    ls[i] > 0 && forall j :: 0 <= j < ls[i] ==> CodeBitAt(Code(ls, i), ls[i], mem, p, j)
  }

  predicate CodeBitAt(code: nat, s: nat, mem: Memory, p: nat, j: nat)
    requires j < s
  {
    MemBit(mem, p + j) == Bit(code, s - 1 - j)
  }

  /** `x` holds the first 16 bits of the data from bit `p` on. */
  ghost predicate Window(mem: Memory, p: nat, x: nat) {
    forall j :: 0 <= j < 16 ==> Bit(x, j) == MemBit(mem, p + j)
  }

  lemma MatchesIffTop(ls: seq<nat>, i: nat, mem: Memory, p: nat, x: nat)
    requires i < |ls| && Lengths(ls) && Fits(ls) && Window(mem, p, x)
    ensures Matches(ls, i, mem, p) <==> ls[i] > 0 && Top(x, ls[i]) == Code(ls, i)
  {
    if ls[i] > 0 {
      CodeInRange(ls, i);
      CodeIffTop(Code(ls, i), ls[i], mem, p, x);
    }
  }

  lemma CodeIffTop(c: nat, s: nat, mem: Memory, p: nat, x: nat)
    requires 0 < s <= 15 && c < Pow2(s) && Window(mem, p, x)
    ensures (forall j :: 0 <= j < s ==> CodeBitAt(c, s, mem, p, j)) <==> Top(x, s) == c
  {
    if forall j :: 0 <= j < s ==> CodeBitAt(c, s, mem, p, j) {
      forall j | 0 <= j < s ensures Bit(c, j) == Bit(x, s - 1 - j) {
        assert CodeBitAt(c, s, mem, p, s - 1 - j);
      }
      TopOfBits(c, x, s);
    }
    if Top(x, s) == c {
      forall j | 0 <= j < s ensures CodeBitAt(c, s, mem, p, j) {
        BitOfTop(x, s, s - 1 - j);
      }
    }
  }

  /** At most one symbol's code starts the data: decoding is deterministic. */
  lemma UniqueMatch(ls: seq<nat>, i: nat, k: nat, mem: Memory, p: nat, x: nat)
    requires i < |ls| && k < |ls| && Lengths(ls) && Fits(ls) && Window(mem, p, x)
    requires Matches(ls, i, mem, p) && Matches(ls, k, mem, p)
    ensures i == k
  {
    MatchesIffTop(ls, i, mem, p, x);
    MatchesIffTop(ls, k, mem, p, x);
    PrefixFree(ls, i, k, x);
  }

  /** If no code of at most `t` bits starts `x`, the `t`-bit prefix of `x` is above all codes of that length. */
  lemma {:induction false} AboveShortCodes(ls: seq<nat>, x: nat, t: nat)
    requires forall i :: 0 <= i < |ls| && 0 < ls[i] <= t ==> Top(x, ls[i]) != Code(ls, i)
    ensures Top(x, t) >= Limit(ls, |ls|, t)
  {
    if t == 0 {
    } else {
      AboveShortCodes(ls, x, t - 1);
      if Top(x, t) < Limit(ls, |ls|, t) {
        var i := SymbolOfPrefix(ls, x, t);
      }
    }
  }

  lemma SymbolOfPrefix(ls: seq<nat>, x: nat, t: nat) returns (i: nat)
    requires t > 0 && FirstCode(ls, |ls|, t) <= Top(x, t) < Limit(ls, |ls|, t)
    ensures i < |ls| && ls[i] == t && Top(x, ls[i]) == Code(ls, i)
  {
    i := Ranked(ls, |ls|, t, Top(x, t) - FirstCode(ls, |ls|, t));
  }

  /** ... and conversely. */
  lemma AboveMeansNoMatch(ls: seq<nat>, x: nat, t: nat, i: nat)
    requires i < |ls| && 0 < ls[i] <= t && Top(x, t) >= Limit(ls, |ls|, t)
    ensures Top(x, ls[i]) != Code(ls, i)
  {
    CodeInRange(ls, i);
    if Top(x, ls[i]) == Code(ls, i) && ls[i] < t {
      BelowLimit(ls, ls[i], t, x);
    }
  }

  lemma TopAgainstMaxcode(x: nat, s: nat, limit: nat)
    requires s <= 16
    ensures Top(x, 16) < Shl(limit, 16 - s) <==> Top(x, s) < limit
  {
    TopPrefix(x, s, 16);
    ShrBelow(Top(x, 16), 16 - s, limit);
  }

  /** The word `x` holds the `n` bits of the data from bit `p` on, and nothing else. */
  ghost predicate Holds(mem: Memory, p: nat, n: nat, x: nat) {
    x < Pow2(n) && forall j :: 0 <= j < n ==> Bit(x, j) == MemBit(mem, p + j)
  }

  lemma HoldsMore(mem: Memory, p: nat, n: nat, x: nat, z: nat, b: nat)
    requires Holds(mem, p, n, x) && p + n == 8 * z && b == mem(z) % 256
    ensures Holds(mem, p, n + 8, Or(x, Shl(b, n)))
  {
    var y := Or(x, Shl(b, n));
    Pow2Literals();
    JoinedBound(b, x, 8, n);
    forall j | 0 <= j < n + 8 ensures Bit(y, j) == MemBit(mem, p + j) {
      JoinedBit(b, x, n, j);
      if j >= n {
        MemBitOfByte(mem, z, j - n);
      }
    }
  }

  lemma MemBitOfByte(mem: Memory, z: nat, i: nat)
    requires i < 8
    ensures MemBit(mem, 8 * z + i) == Bit(mem(z) % 256, i)
  {
    assert (8 * z + i) / 8 == z && (8 * z + i) % 8 == i;
  }

  lemma HoldsLess(mem: Memory, p: nat, n: nat, x: nat, k: nat)
    requires Holds(mem, p, n, x) && k <= n
    ensures Holds(mem, p + k, n - k, Shr(x, k))
  {
    ShrBound(x, n - k, k);
    forall j | 0 <= j < n - k ensures Bit(Shr(x, k), j) == MemBit(mem, p + k + j) {
      BitShr(x, k, j);
      assert MemBit(mem, p + (j + k)) == Bit(x, j + k);
    }
  }

  lemma HeldField(mem: Memory, p: nat, n: nat, x: nat, k: nat)
    requires Holds(mem, p, n, x) && k <= n
    ensures Holds(mem, p, k, And(x, Pow2(k) - 1))
  {
    MaskedBits(x, k);
    var r := And(x, Pow2(k) - 1);
    forall j | 0 <= j < k ensures Bit(r, j) == MemBit(mem, p + j) {
      assert Bit(x, j) == MemBit(mem, p + j);
    }
  }

  /** `_ssfn__zbuf`: a bit reader over memory. */
  class ZBuf {
    const mem: Memory
    var zbuffer: nat
    var numBits: nat
    var codeBuffer: nat

    constructor (mem: Memory, start: nat)
      ensures Valid() && this.mem == mem && Cursor() == 8 * start
    {
      this.mem := mem;
      zbuffer, numBits, codeBuffer := start, 0, 0;
    }

    ghost predicate Valid()
      reads this
    {
      && numBits <= 32 && numBits <= 8 * zbuffer
      && var held := Holds(mem, 8 * zbuffer - numBits, numBits, codeBuffer); held
    }

    /** The number of bits consumed. */
    ghost function Cursor(): nat
      requires Valid()
      reads this
    {
      8 * zbuffer - numBits
    }

    method Get8() returns (b: nat)
      modifies this`zbuffer
      ensures b == mem(old(zbuffer)) % 256 && zbuffer == old(zbuffer) + 1
    {
      b := mem(zbuffer) % 256;
      zbuffer := zbuffer + 1;
    }

    /** One iteration of `_ssfn__fill_bits`. */
    method AppendByte()
      requires Valid() && numBits <= 24
      modifies this
      ensures Valid() && Cursor() == old(Cursor()) && numBits == old(numBits) + 8
    {
      ghost var p, n := Cursor(), numBits;
      var b := Get8();
      var word := Or(codeBuffer, Shl(b, numBits));
      HoldsMore(mem, p, n, codeBuffer, zbuffer - 1, b);
      assert Holds(mem, p, n + 8, word);
      codeBuffer := word;
      numBits := numBits + 8;
      assert 8 * zbuffer - numBits == p;
    }

    /** `_ssfn__fill_bits` reads ahead without consuming. */
    method FillBits()
      requires Valid() && numBits <= 24
      modifies this
      ensures Valid() && Cursor() == old(Cursor()) && 24 < numBits
    {
      AppendByte();
      while numBits <= 24
        invariant Valid() && Cursor() == old(Cursor())
        decreases 32 - numBits
      {
        AppendByte();
      }
    }

    /** Shifting the word right consumes bits. */
    method Consume(n: nat)
      requires Valid() && n <= numBits
      modifies this`codeBuffer, this`numBits
      ensures Valid() && Cursor() == old(Cursor()) + n && numBits == old(numBits) - n
    {
      HoldsLess(mem, Cursor(), numBits, codeBuffer, n);
      codeBuffer := Shr(codeBuffer, n);
      numBits := numBits - n;
    }

    /** `_ssfn__zreceive`: the next `n` bits as a number, least significant first. */
    method Receive(n: nat) returns (k: nat)
      requires Valid() && n <= 25
      modifies this
      ensures Valid() && Cursor() == old(Cursor()) + n
      ensures Holds(mem, old(Cursor()), n, k)
    {
      if numBits < n {
        FillBits();
      }
      k := And(codeBuffer, Pow2(n) - 1);
      HeldField(mem, Cursor(), numBits, codeBuffer, n);
      Consume(n);
    }

    /** `_ssfn__zhuffman_decode`: returns symbol `i`, and consumes exactly its code, if and only if the unread bits
        start with the code of `i`; returns -1 and consumes nothing if they start with no code. */
    method Decode(z: Huffman, ghost ls: seq<nat>) returns (r: int)
      requires Valid() && z.Shape() && z.Built(ls)
      modifies this
      ensures Valid() && Decoded(ls, mem, old(Cursor()), r, Cursor())
    {
      Need16();
      ghost var q := Cursor();
      var s: nat;
      r, s := LookUp(z, codeBuffer, ls);
      DecodedByTop(ls, mem, q, r, codeBuffer);
      if r != -1 {
        Consume(s);
        q := q + s;
      }
      assert Cursor() == q;
    }

    method Need16()
      requires Valid()
      modifies this
      ensures Valid() && Cursor() == old(Cursor()) && 16 <= numBits && Window(mem, Cursor(), codeBuffer)
    {
      if numBits < 16 {
        FillBits();
      }
    }
  }

  /** The fast table, then the slow path. */
  method LookUp(z: Huffman, x: nat, ghost ls: seq<nat>) returns (r: int, s: nat)
    requires z.Shape() && z.Built(ls)
    ensures r == -1 || (0 <= r < |ls| && 0 < ls[r] == s && Top(x, ls[r]) == Code(ls, r))
    ensures r == -1 ==> Top(x, 15) >= Limit(ls, |ls|, 15)
  {
    var slot := And(x, Pow2(ZFAST_BITS) - 1);
    FastLookup(ls, z.fast[..], x, slot);
    var b := z.fast[slot];
    if b != 0 {
      return b % 512, b / 512;
    }
    r, s := SlowPath(z, x, ls);
  }

  /** The search of `_ssfn__zhuffman_decode_slowpath`, for a word that starts with no code of at most 9 bits: the
      symbol whose code it starts with and the length of that code, or -1. */
  method SlowPath(z: Huffman, x: nat, ghost ls: seq<nat>) returns (r: int, s: nat)
    requires z.Shape() && z.Built(ls)
    requires forall i :: 0 <= i < |ls| && 0 < ls[i] <= ZFAST_BITS ==> Top(x, ls[i]) != Code(ls, i)
    ensures r == -1 || (0 <= r < |ls| && 0 < ls[r] == s && Top(x, ls[r]) == Code(ls, r))
    ensures r == -1 ==> Top(x, 15) >= Limit(ls, |ls|, 15)
  {
    var k := BitReverse(x, 16);
    BitReverseIsTop(x, 16);
    assert k < 0x10000 by { Pow2Literals(); }
    AboveShortCodes(ls, x, ZFAST_BITS);
    s := ZFAST_BITS + 1;
    while k >= z.maxcode[s]
      invariant ZFAST_BITS < s <= 16 && Top(x, s - 1) >= Limit(ls, |ls|, s - 1)
      decreases 16 - s
    {
      TopAgainstMaxcode(x, s, Limit(ls, |ls|, s));
      s := s + 1;
    }
    if s == 16 {
      return -1, s;
    }
    var b := Shr(k, 16 - s) - z.firstcode[s] + z.firstsymbol[s];
    ghost var i := SlowSymbol(ls, z.firstcode[..], z.firstsymbol[..], z.maxcode[..], x, s, b);
    r := z.value[b];
  }

  lemma SlowSymbol(ls: seq<nat>, firstcode: seq<nat>, firstsymbol: seq<nat>, maxcode: seq<nat>, x: nat, s: nat, b: int)
    returns (i: nat)
    requires CodesReady(ls, firstcode, firstsymbol, maxcode) && 1 <= s < 16
    requires Top(x, s - 1) >= Limit(ls, |ls|, s - 1) && Top(x, 16) < maxcode[s]
    requires b == Shr(Top(x, 16), 16 - s) - firstcode[s] + firstsymbol[s]
    ensures i < |ls| && ls[i] == s && Top(x, s) == Code(ls, i) && b == SortedIndex(ls, i)
  {
    TopAgainstMaxcode(x, s, Limit(ls, |ls|, s));
    TopPrefix(x, s, 16);
    i := SymbolOfPrefix(ls, x, s);
  }

  /** What a decoding step that returns `r` and moves from bit `p` to bit `q` has to do. */
  ghost predicate Decoded(ls: seq<nat>, mem: Memory, p: nat, r: int, q: nat) {
    && (r == -1 || (0 <= r < |ls| && ls[r] > 0))
    && q == (if r == -1 then p else p + ls[r])
    && forall i :: 0 <= i < |ls| ==> (r == i <==> Matches(ls, i, mem, p))
  }

  lemma DecodedByTop(ls: seq<nat>, mem: Memory, p: nat, r: int, x: nat)
    requires Lengths(ls) && Fits(ls) && Window(mem, p, x)
    requires r == -1 || (0 <= r < |ls| && 0 < ls[r] && Top(x, ls[r]) == Code(ls, r))
    requires r == -1 ==> Top(x, 15) >= Limit(ls, |ls|, 15)
    ensures Decoded(ls, mem, p, r, if r == -1 then p else p + ls[r])
  {
    if r == -1 {
      NoMatch(ls, mem, p, x);
    } else {
      OnlyMatch(ls, r, mem, p, x);
    }
  }

  lemma MaskedBits(x: nat, n: nat)
    ensures And(x, Pow2(n) - 1) < Pow2(n)
    ensures forall j :: 0 <= j < n ==> Bit(And(x, Pow2(n) - 1), j) == Bit(x, j)
  {
    AndMask(x, n);
    forall j | 0 <= j < n ensures Bit(And(x, Pow2(n) - 1), j) == Bit(x, j) {
      BitLow(x, n, j);
    }
  }

  lemma LowBits(x: nat, slot: nat)
    requires slot == And(x, Pow2(ZFAST_BITS) - 1)
    ensures slot < ZFAST_SIZE && forall s :: 0 <= s <= ZFAST_BITS ==> Top(slot, s) == Top(x, s)
  {
    Pow2Literals();
    MaskedBits(x, ZFAST_BITS);
    forall s | 0 <= s <= ZFAST_BITS ensures Top(slot, s) == Top(x, s) {
      TopIgnoresHighBits(slot, x, s);
    }
  }

  lemma FastLookup(ls: seq<nat>, fast: seq<nat>, x: nat, slot: nat)
    requires FastReady(ls, |ls|, fast) && slot == And(x, Pow2(ZFAST_BITS) - 1)
    ensures slot < |fast|
    ensures fast[slot] != 0 ==>
              var r := fast[slot] % 512;
              r < |ls| && 0 < ls[r] <= ZFAST_BITS && fast[slot] / 512 == ls[r] && Top(x, ls[r]) == Code(ls, r)
    ensures fast[slot] == 0 ==>
              forall i :: 0 <= i < |ls| && 0 < ls[i] <= ZFAST_BITS ==> Top(x, ls[i]) != Code(ls, i)
  {
    LowBits(x, slot);
    if fast[slot] == 0 {
      forall i | 0 <= i < |ls| && 0 < ls[i] <= ZFAST_BITS ensures Top(x, ls[i]) != Code(ls, i) {
        assert !FastSymbol(ls, i, slot);
      }
    }
  }

  lemma OnlyMatch(ls: seq<nat>, r: nat, mem: Memory, p: nat, x: nat)
    requires Lengths(ls) && Fits(ls) && Window(mem, p, x)
    requires r < |ls| && ls[r] > 0 && Top(x, ls[r]) == Code(ls, r)
    ensures forall i :: 0 <= i < |ls| ==> (r == i <==> Matches(ls, i, mem, p))
  {
    MatchesIffTop(ls, r, mem, p, x);
    forall i | 0 <= i < |ls| && Matches(ls, i, mem, p) ensures r == i {
      UniqueMatch(ls, i, r, mem, p, x);
    }
  }

  lemma NoMatch(ls: seq<nat>, mem: Memory, p: nat, x: nat)
    requires Lengths(ls) && Fits(ls) && Window(mem, p, x) && Top(x, 15) >= Limit(ls, |ls|, 15)
    ensures forall i :: 0 <= i < |ls| ==> !Matches(ls, i, mem, p)
  {
    forall i | 0 <= i < |ls| ensures !Matches(ls, i, mem, p) {
      MatchesIffTop(ls, i, mem, p, x);
      if ls[i] > 0 {
        AboveMeansNoMatch(ls, x, 15, i);
      }
    }
  }
}

/** Huffman tables of nanojpeg.c: a table definition (section B.2.4.2 of ITU-T T.81) is expanded into a table with one
    entry for every 16-bit prefix of the data, against the code table of Annex C of ITU-T T.81. */
module JpegHuffman {
  import opened Bits
  import opened Common
  import opened JpegBits

  const TABLE_SIZE: nat := 65536

  // ---------- Annex C ----------

  /** HUFFSIZE, for the code lengths 1, ..., `n`: `counts[l - 1]` symbols have codes of length `l`. */
  function Sizes(counts: seq<nat>, n: nat): seq<nat>
    requires n <= |counts|
  {
    if n == 0 then [] else Sizes(counts, n - 1) + seq(counts[n - 1], _ => n)
  }

  predicate Ascending(sizes: seq<nat>) {
    && (forall i :: 0 <= i < |sizes| ==> 1 <= sizes[i] <= 16)
    && (forall i, j :: 0 <= i < j < |sizes| ==> sizes[i] <= sizes[j])
  }

  lemma {:induction false} SizesAscend(counts: seq<nat>, n: nat)
    requires n <= |counts| && n <= 16
    ensures Ascending(Sizes(counts, n)) && forall i :: 0 <= i < |Sizes(counts, n)| ==> Sizes(counts, n)[i] <= n
  {
    if n == 0 {
    } else {
      SizesAscend(counts, n - 1);
    }
  }

  /** HUFFCODE: the code of symbol `k`, to be read as `sizes[k]` bits. */
  function HuffCode(sizes: seq<nat>, k: nat): nat
    requires Ascending(sizes) && k < |sizes|
  {
    if k == 0 then 0 else Shl(HuffCode(sizes, k - 1) + 1, sizes[k] - sizes[k - 1])
  }

  /** How many 16-bit numbers start with the code of one of the first `k` symbols. */
  function Start(sizes: seq<nat>, k: nat): nat
    requires Ascending(sizes) && k <= |sizes|
  {
    if k == 0 then 0 else Start(sizes, k - 1) + Pow2(16 - sizes[k - 1])
  }

  /** The 16-bit number `v` starts with the code of symbol `k`. */
  predicate StartsWith(sizes: seq<nat>, k: nat, v: nat)
    requires Ascending(sizes) && k < |sizes|
  {
    Shr(v, 16 - sizes[k]) == HuffCode(sizes, k)
  }

  lemma {:induction false} CodeStart(sizes: seq<nat>, k: nat)
    requires Ascending(sizes) && k < |sizes|
    ensures Shl(HuffCode(sizes, k), 16 - sizes[k]) == Start(sizes, k)
  {
    if k == 0 {
      ShlZero(16 - sizes[k]);
    } else {
      CodeStart(sizes, k - 1);
      var c := HuffCode(sizes, k - 1);
      ShlAgain(c + 1, sizes[k] - sizes[k - 1], 16 - sizes[k]);
      ShlAdds(c, 1, 16 - sizes[k - 1]);
      ShlPow2(0, 16 - sizes[k - 1]);
    }
  }

  /** The numbers that start with the code of symbol `k` form a run, after those of the symbols before. */
  lemma StartsWithIsRun(sizes: seq<nat>, k: nat, v: nat)
    requires Ascending(sizes) && k < |sizes|
    ensures StartsWith(sizes, k, v) <==> Start(sizes, k) <= v < Start(sizes, k + 1)
  {
    var c, m := HuffCode(sizes, k), 16 - sizes[k];
    CodeStart(sizes, k);
    ShlAdds(c, 1, m);
    ShlPow2(0, m);
    ShrBelow(v, m, c);
    ShrBelow(v, m, c + 1);
  }

  lemma {:induction false} StartAscends(sizes: seq<nat>, i: nat, j: nat)
    requires Ascending(sizes) && i <= j <= |sizes|
    ensures Start(sizes, i) <= Start(sizes, j)
  {
    if i == j {
    } else {
      StartAscends(sizes, i, j - 1);
    }
  }

  /** At most one code starts a number: the code is prefix free. */
  lemma UniqueSymbol(sizes: seq<nat>, i: nat, j: nat, v: nat)
    requires Ascending(sizes) && i < |sizes| && j < |sizes|
    requires StartsWith(sizes, i, v) && StartsWith(sizes, j, v)
    ensures i == j
  {
    StartsWithIsRun(sizes, i, v);
    StartsWithIsRun(sizes, j, v);
    if i < j {
      StartAscends(sizes, i + 1, j);
    } else if j < i {
      StartAscends(sizes, j + 1, i);
    }
  }

  // ---------- tables ----------

  datatype Vlc = Vlc(bits: nat, code: nat)

  /** A table definition: its destination, the 16 counts and the symbols. */
  datatype Def = Def(table: nat, counts: seq<nat>, symbols: seq<nat>) {
    function HuffSize(): seq<nat>
      requires |counts| == 16
    {
      Sizes(counts, 16)
    }

    /** A usable code: a symbol for each length, and no more codes than fit into 16 bits. */
    ghost predicate Valid() {
      && table < 4 && |counts| == 16 && |symbols| == |HuffSize()|
      && Ascending(HuffSize()) && Start(HuffSize(), |symbols|) <= TABLE_SIZE
    }
  }

  /** The symbol whose code `v` starts with, among the first `k`, or -1. */
  function FindSymbol(sizes: seq<nat>, v: nat, k: nat): (r: int)
    requires Ascending(sizes) && k <= |sizes|
    ensures -1 <= r < k
    ensures r >= 0 ==> StartsWith(sizes, r, v)
    ensures r == -1 ==> forall i :: 0 <= i < k ==> !StartsWith(sizes, i, v)
  {
    if k == 0 then -1 else if StartsWith(sizes, k - 1, v) then k - 1 else FindSymbol(sizes, v, k - 1)
  }

  /** The entry for the prefix `v`: length and symbol of the code that `v` starts with, or length 0. */
  function Entry(d: Def, v: nat, before: Vlc): Vlc
    requires d.Valid()
  {
    var k := FindSymbol(d.HuffSize(), v, |d.symbols|);
    if k < 0 then Vlc(0, before.code) else Vlc(d.HuffSize()[k], d.symbols[k])
  }

  function Expand(d: Def, before: seq<Vlc>): (after: seq<Vlc>)
    requires d.Valid() && |before| == TABLE_SIZE
    ensures |after| == TABLE_SIZE
  {
    seq(TABLE_SIZE, v requires 0 <= v < TABLE_SIZE => Entry(d, v, before[v]))
  }

  /** The entry holds length and symbol of the code that `v` starts with, and length 0 exactly if there is none. */
  ghost predicate EntryOk(d: Def, v: nat, e: Vlc)
    requires d.Valid()
  {
    && (forall k :: 0 <= k < |d.symbols| && StartsWith(d.HuffSize(), k, v) ==>
          e == Vlc(d.HuffSize()[k], d.symbols[k]))
    && (e.bits == 0 <==> forall k :: 0 <= k < |d.symbols| ==> !StartsWith(d.HuffSize(), k, v))
  }

  /** Every entry of the table is right. */
  ghost predicate Decodes(d: Def, t: seq<Vlc>)
    requires d.Valid()
  {
    |t| == TABLE_SIZE && forall v :: 0 <= v < TABLE_SIZE ==> EntryOk(d, v, t[v])
  }

  /** Entry `v` of an expanded table holds length and symbol `k` exactly when `v` starts with the code of symbol `k`,
      and length 0 exactly when it starts with no code. */
  lemma ExpandedDecodes(d: Def, before: seq<Vlc>)
    requires d.Valid() && |before| == TABLE_SIZE
    ensures Decodes(d, Expand(d, before))
  {
    var sizes := d.HuffSize();
    forall v | 0 <= v < TABLE_SIZE ensures EntryOk(d, v, Expand(d, before)[v]) {
      var f := FindSymbol(sizes, v, |d.symbols|);
      forall k | 0 <= k < |d.symbols| && StartsWith(sizes, k, v) ensures k == f {
        UniqueSymbol(sizes, k, f, v);
      }
    }
  }

  /** The first `k` symbols have been expanded: the entries below `Start(k)` are in place. */
  ghost predicate Runs(sizes: seq<nat>, symbols: seq<nat>, k: nat, before: seq<Vlc>, t: seq<Vlc>)
    requires Ascending(sizes) && k <= |sizes| == |symbols|
  {
    && |before| == |t| == TABLE_SIZE && Start(sizes, k) <= TABLE_SIZE
    && (forall i, v :: 0 <= i < k && 0 <= v < TABLE_SIZE && StartsWith(sizes, i, v) ==>
          t[v] == Vlc(sizes[i], symbols[i]))
    && (forall v :: Start(sizes, k) <= v < TABLE_SIZE ==> t[v] == before[v])
  }

  lemma RunsStep(sizes: seq<nat>, symbols: seq<nat>, k: nat, before: seq<Vlc>, t: seq<Vlc>)
    requires Ascending(sizes) && k < |sizes| == |symbols| && Runs(sizes, symbols, k, before, t)
    requires Start(sizes, k + 1) <= TABLE_SIZE
    ensures Runs(sizes, symbols, k + 1, before,
                 Overwritten(t, Start(sizes, k), Pow2(16 - sizes[k]), Vlc(sizes[k], symbols[k])))
  {
    var t' := Overwritten(t, Start(sizes, k), Pow2(16 - sizes[k]), Vlc(sizes[k], symbols[k]));
    forall i, v | 0 <= i < k + 1 && 0 <= v < TABLE_SIZE && StartsWith(sizes, i, v)
      ensures t'[v] == Vlc(sizes[i], symbols[i])
    {
      StartsWithIsRun(sizes, i, v);
      if i < k {
        StartAscends(sizes, i + 1, k);
      }
    }
  }

  lemma RunsComplete(d: Def, before: seq<Vlc>, t: seq<Vlc>, t': seq<Vlc>)
    requires d.Valid() && Runs(d.HuffSize(), d.symbols, |d.symbols|, before, t) && |t'| == TABLE_SIZE
    requires forall v :: 0 <= v < TABLE_SIZE ==>
               t'[v] == if v < Start(d.HuffSize(), |d.symbols|) then t[v] else Vlc(0, t[v].code)
    ensures t' == Expand(d, before)
  {
    var sizes, n := d.HuffSize(), |d.symbols|;
    forall v | 0 <= v < TABLE_SIZE ensures t'[v] == Entry(d, v, before[v]) {
      if v < Start(sizes, n) {
        var k := CoveringRun(sizes, n, v);
        UniqueSymbol(sizes, k, FindSymbol(sizes, v, n), v);
      } else {
        NoRunBeyond(sizes, n, v);
      }
    }
  }

  lemma {:induction false} CoveringRun(sizes: seq<nat>, n: nat, v: nat) returns (k: nat)
    requires Ascending(sizes) && n <= |sizes| && v < Start(sizes, n)
    ensures k < n && StartsWith(sizes, k, v)
  {
    if v < Start(sizes, n - 1) {
      k := CoveringRun(sizes, n - 1, v);
    } else {
      k := n - 1;
      StartsWithIsRun(sizes, k, v);
    }
  }

  lemma NoRunBeyond(sizes: seq<nat>, n: nat, v: nat)
    requires Ascending(sizes) && n <= |sizes| && Start(sizes, n) <= v
    ensures forall k :: 0 <= k < n ==> !StartsWith(sizes, k, v)
  {
    forall k | 0 <= k < n ensures !StartsWith(sizes, k, v) {
      StartsWithIsRun(sizes, k, v);
      StartAscends(sizes, k + 1, n);
    }
  }

  // ---------- counting a level ----------

  lemma {:induction false} SizesPrefix(counts: seq<nat>, n: nat, m: nat)
    requires n <= m <= |counts|
    ensures Sizes(counts, n) <= Sizes(counts, m)
  {
    if n == m {
    } else {
      SizesPrefix(counts, n, m - 1);
    }
  }

  lemma {:induction false} LevelSum(sizes: seq<nat>, k: nat, c: nat, l: nat)
    requires Ascending(sizes) && k + c <= |sizes| && 1 <= l <= 16
    requires forall i :: k <= i < k + c ==> sizes[i] == l
    ensures Start(sizes, k + c) == Start(sizes, k) + Shl(c, 16 - l)
    decreases c
  {
    if c == 0 {
      ShlZero(16 - l);
    } else {
      LevelSum(sizes, k, c - 1, l);
      ShlAdds(c - 1, 1, 16 - l);
      ShlPow2(0, 16 - l);
    }
  }

  // ---------- the segment ----------

  /** The destination identifiers that are accepted: class 0 or 1 in the upper half, table 0 or 1 in the lower. */
  predicate IdOk(id: nat) {
    id == 0x00 || id == 0x01 || id == 0x10 || id == 0x11
  }

  function TableOf(id: nat): nat {
    id / 16 * 2 + id % 16
  }

  function FirstDef(p: seq<nat>): (r: Option<Def>)
    requires |p| >= 17
    ensures r.Some? ==> r.value.Valid() && 17 + |r.value.symbols| <= |p|
  {
    var counts := p[1..17];
    var sizes := Sizes(counts, 16);
    SizesAscend(counts, 16);
    if IdOk(p[0]) && 17 + |sizes| <= |p| && Start(sizes, |sizes|) <= TABLE_SIZE
    then Some(Def(TableOf(p[0]), counts, p[17..17 + |sizes|]))
    else None
  }

  /** The table definitions that a segment consists of, if it is well formed. */
  function Defs(p: seq<nat>): (r: Option<seq<Def>>)
    ensures r.Some? ==> AllValid(r.value)
    decreases |p|
  {
    if |p| < 17 then
      if p == [] then Some([]) else None
    else
      match FirstDef(p)
      case None => None
      case Some(d) =>
        match Defs(p[17 + |d.symbols|..])
        case None => None
        case Some(ds) => Some([d] + ds)
  }

  predicate FourTables(t: seq<seq<Vlc>>) {
    |t| == 4 && forall i :: 0 <= i < 4 ==> |t[i]| == TABLE_SIZE
  }

  /** The four tables after the given definitions, in order. */
  function Apply(ds: seq<Def>, t: seq<seq<Vlc>>): (u: seq<seq<Vlc>>)
    requires FourTables(t) && AllValid(ds)
    ensures FourTables(u)
  {
    if ds == [] then t
    else
      assert ds[0].Valid();
      Apply(ds[1..], t[ds[0].table := Expand(ds[0], t[ds[0].table])])
  }

  /** After `n` definitions of the segment `p0`, the segment `p` is left: applying the rest to the tables `t` gives what
      applying all to `t0` gives. */
  ghost predicate SoFar(p0: seq<nat>, t0: seq<seq<Vlc>>, n: nat, p: seq<nat>, t: seq<seq<Vlc>>)
    requires FourTables(t0) && FourTables(t)
  {
    && (Defs(p).Some? <==> Defs(p0).Some?)
    && (Defs(p).Some? ==>
          Apply(Defs(p).value, t) == Apply(Defs(p0).value, t0) && n + |Defs(p).value| == |Defs(p0).value|)
  }

  lemma SoFarStep(p0: seq<nat>, t0: seq<seq<Vlc>>, n: nat, p: seq<nat>, t: seq<seq<Vlc>>)
    requires FourTables(t0) && FourTables(t) && |p| >= 17 && SoFar(p0, t0, n, p, t)
    ensures FirstDef(p).None? ==> Defs(p0).None?
    ensures FirstDef(p).Some? ==>
              var d := FirstDef(p).value;
              SoFar(p0, t0, n + 1, p[17 + |d.symbols|..], t[d.table := Expand(d, t[d.table])])
  {
    if FirstDef(p).Some? {
      var d := FirstDef(p).value;
      var rest := Defs(p[17 + |d.symbols|..]);
      if rest.Some? {
        assert ([d] + rest.value)[1..] == rest.value;
      }
    }
  }

  ghost predicate AllValid(ds: seq<Def>) {
    forall i :: 0 <= i < |ds| ==> ds[i].Valid()
  }

  /** Definition `k` is the last one for table `i`. */
  ghost predicate LastFor(ds: seq<Def>, k: int, i: nat) {
    0 <= k < |ds| && ds[k].table == i && forall j :: k < j < |ds| ==> ds[j].table != i
  }

  /** Each table decodes the code of the last definition that names it; tables that none names are as before. */
  ghost predicate Redefined(ds: seq<Def>, before: seq<seq<Vlc>>, after: seq<seq<Vlc>>)
    requires FourTables(before) && FourTables(after) && AllValid(ds)
  {
    forall i :: 0 <= i < 4 ==>
      && (forall k :: LastFor(ds, k, i) ==> Decodes(ds[k], after[i]))
      && ((forall k :: 0 <= k < |ds| ==> ds[k].table != i) ==> after[i] == before[i])
  }

  lemma LastDecodes(ds: seq<Def>, before: seq<seq<Vlc>>, after: seq<seq<Vlc>>, i: nat, k: nat)
    requires FourTables(before) && FourTables(after) && AllValid(ds) && Redefined(ds, before, after)
    requires i < 4 && LastFor(ds, k, i)
    ensures ds[k].Valid() && Decodes(ds[k], after[i])
  {
  }

  lemma {:induction false} ApplyKeeps(ds: seq<Def>, t: seq<seq<Vlc>>, i: nat)
    requires FourTables(t) && AllValid(ds) && i < 4 && forall k :: 0 <= k < |ds| ==> ds[k].table != i
    ensures Apply(ds, t)[i] == t[i]
  {
    if ds == [] {
    } else {
      assert ds[0].Valid();
      ApplyKeeps(ds[1..], t[ds[0].table := Expand(ds[0], t[ds[0].table])], i);
    }
  }

  lemma {:induction false} ApplyDecodes(ds: seq<Def>, t: seq<seq<Vlc>>, i: nat, k: nat)
    requires FourTables(t) && AllValid(ds) && i < 4 && LastFor(ds, k, i)
    ensures Decodes(ds[k], Apply(ds, t)[i])
  {
    assert ds[0].Valid();
    var t' := t[ds[0].table := Expand(ds[0], t[ds[0].table])];
    if k == 0 {
      ExpandedDecodes(ds[0], t[i]);
      ApplyKeeps(ds[1..], t', i);
    } else {
      ApplyDecodes(ds[1..], t', i, k - 1);
    }
  }

  lemma ApplyRedefines(ds: seq<Def>, t: seq<seq<Vlc>>)
    requires FourTables(t) && AllValid(ds)
    ensures Redefined(ds, t, Apply(ds, t))
  {
    forall i | 0 <= i < 4 && forall k :: 0 <= k < |ds| ==> ds[k].table != i ensures Apply(ds, t)[i] == t[i] {
      ApplyKeeps(ds, t, i);
    }
    forall i, k | 0 <= i < 4 && LastFor(ds, k, i) ensures Decodes(ds[k], Apply(ds, t)[i]) {
      ApplyDecodes(ds, t, i, k);
    }
  }

  /** The part of the decoder context that defines and uses Huffman tables. */
  class Decoder {
    const r: Reader
    const vlctab: seq<array<Vlc>>
    /** What is left of the current segment. */
    var length: int

    constructor (r: Reader)
      requires r.Valid() && r.size >= 0
      ensures Valid() && this.r == r && (forall i :: 0 <= i < 4 ==> fresh(vlctab[i]))
    {
      this.r := r;
      var t0 := new Vlc[TABLE_SIZE];
      var t1 := new Vlc[TABLE_SIZE];
      var t2 := new Vlc[TABLE_SIZE];
      var t3 := new Vlc[TABLE_SIZE];
      vlctab := [t0, t1, t2, t3];
      length := 0;
    }

    ghost predicate Shape() {
      && |vlctab| == 4
      && (forall i :: 0 <= i < 4 ==> vlctab[i].Length == TABLE_SIZE)
      && (forall i, j :: 0 <= i < j < 4 ==> vlctab[i] != vlctab[j])
    }

    /** The segment lies within the data. */
    ghost predicate Valid()
      reads this, r
    {
      Shape() && r.Valid() && length <= r.size && 0 <= r.size
    }

    ghost function Tables(): (t: seq<seq<Vlc>>)
      requires Shape()
      reads vlctab
      ensures FourTables(t) && forall i :: 0 <= i < 4 ==> t[i] == vlctab[i][..]
    {
      [vlctab[0][..], vlctab[1][..], vlctab[2][..], vlctab[3][..]]
    }

    /** Table `t` decodes the code of the definition. */
    ghost predicate Right(t: nat, d: Def)
      requires Shape() && t < 4 && d.Valid()
      reads vlctab
    {
      var right := Decodes(d, vlctab[t][..]);
      right
    }

    function Payload(): (p: seq<nat>)
      requires r.size > 0 ==> r.pos + r.size <= |r.data|
      requires length <= r.size
      reads this, r
      ensures |p| == if length > 0 then length else 0
    {
      if length > 0 then r.data[r.pos..r.pos + length] else []
    }

    method Skip(count: nat)
      requires Valid() && count <= length
      modifies r`pos, r`size, this`length
      ensures Valid() && length == old(length) - count && r.pos == old(r.pos) + count && r.size == old(r.size) - count
      ensures Payload() == old(Payload())[count..]
    {
      r.pos := r.pos + count;
      r.size := r.size - count;
      length := length - count;
    }

    /** The length field at the cursor; it counts itself. */
    function LengthField(): (n: nat)
      requires r.Valid() && r.size >= 2
      reads r
    {
      256 * r.data[r.pos] + r.data[r.pos + 1]
    }

    /** The bytes of the segment at the cursor behind its length field, unless the data ends before it does. */
    ghost function Segment(): (s: Option<seq<nat>>)
      requires r.Valid()
      reads r
    {
      if r.size >= 2 && 2 <= LengthField() <= r.size
      then Some(r.data[r.pos + 2..r.pos + LengthField()])
      else None
    }

    /** The table definitions the segment at the cursor is made of, if it is. */
    ghost function Definitions(): (ds: Option<seq<Def>>)
      requires r.Valid()
      reads r
    {
      var s := Segment();
      if s.Some? then Defs(s.value) else None
    }

    /** `njDecodeLength`, for a marker segment that starts at the cursor: what is left is the segment. */
    method DecodeLength()
      requires Shape() && r.Valid() && r.size >= 0
      modifies r`pos, r`size, r`error, this`length
      ensures old(r.size >= 2 && LengthField() <= r.size) ==>
                && Valid() && r.error == old(r.error) && length + 2 == old(LengthField())
                && r.pos == old(r.pos) + 2 && r.size == old(r.size) - 2
                && (if length >= 0 then old(Segment()) == Some(Payload()) else old(Segment()).None?)
      ensures !old(r.size >= 2 && LengthField() <= r.size) ==> r.error == SyntaxError && old(Segment()).None?
    {
      if r.size < 2 {
        r.error := SyntaxError;
        return;
      }
      length := LengthField();
      if length > r.size {
        r.error := SyntaxError;
        return;
      }
      r.pos := r.pos + 2;
      r.size := r.size - 2;
      length := length - 2;
    }

    /** `njGetVLC` with a table for the definition `d`: if the unread bits start with the code of symbol `k`,
        skips it and the additional bits that the symbol asks for, and returns the number they encode; otherwise reports
        an error and skips nothing. */
    method GetVLC(t: nat, ghost d: Def) returns (value: int, code: nat, ghost k: int)
      requires Shape() && r.Streaming() && t < 4 && d.Valid() && Right(t, d)
      modifies r`pos, r`size, r`buf, r`bufbits, r`error, r`loaded, r`skipped
      ensures r.Streaming() && Ahead(d, k, r.coded, old(r.skipped))
      ensures k == -1 ==> value == 0 && r.error == SyntaxError && r.skipped == old(r.skipped)
      ensures k >= 0 ==>
                code == d.symbols[k] && Taken(r.coded, old(r.skipped), r.skipped, d.HuffSize()[k], code, value)
      ensures old(Clean(r.Rest())) ==> Clean(r.Rest()) && (k >= 0 ==> r.error == old(r.error))
    {
      var e;
      e, k := PeekCode(t, d);
      if e.bits == 0 {
        r.error := SyntaxError;
        return 0, 0, k;
      }
      code := e.code;
      value := TakeCode(e.bits, code);
    }

    /** The table entry for the next 16 bits, and the symbol whose code they start with. */
    method PeekCode(t: nat, ghost d: Def) returns (e: Vlc, ghost k: int)
      requires Shape() && r.Streaming() && t < 4 && d.Valid() && Right(t, d)
      modifies r`pos, r`size, r`buf, r`bufbits, r`error, r`loaded
      ensures r.Streaming() && Ahead(d, k, r.coded, r.skipped)
      ensures k == -1 <==> e.bits == 0
      ensures k >= 0 ==> e.bits == d.HuffSize()[k] <= 16 && e.code == d.symbols[k]
      ensures old(Clean(r.Rest())) ==> Clean(r.Rest()) && r.error == old(r.error)
    {
      var v := r.ShowBits(16);
      k := SymbolAhead(d, r.coded, r.skipped, v);
      e := vlctab[t][..][v];
      assert EntryOk(d, v, e);
    }

    /** Skip a code and read its additional bits. */
    method TakeCode(bits: nat, code: nat) returns (value: int)
      requires r.Streaming() && bits <= 16
      modifies r`pos, r`size, r`buf, r`bufbits, r`error, r`loaded, r`skipped
      ensures r.Streaming() && Taken(r.coded, old(r.skipped), r.skipped, bits, code, value)
      ensures old(Clean(r.Rest())) ==> Clean(r.Rest()) && r.error == old(r.error)
    {
      r.SkipBits(bits);
      value := AdditionalBits(code);
    }

    /** The number in the additional bits of a code. */
    method AdditionalBits(code: nat) returns (value: int)
      requires r.Streaming()
      modifies r`pos, r`size, r`buf, r`bufbits, r`error, r`loaded, r`skipped
      ensures r.Streaming() && r.skipped == old(r.skipped) + Low(code, 4)
      ensures Encodes(r.coded, old(r.skipped), Low(code, 4), value)
      ensures old(Clean(r.Rest())) ==> Clean(r.Rest()) && r.error == old(r.error)
    {
      var bits := LowNibble(code);
      if bits == 0 {
        return 0;
      }
      var raw := r.GetBits(bits);
      value := Extend(raw, bits);
      ExtendEncodes(r.coded, r.skipped - bits, bits, raw);
    }

    /** `njDecodeDHT`: accepts exactly the segments that are sequences of table definitions, and then has applied them,
        in order, writing every entry of the table a definition names exactly once.  So each table decodes the code of
        the last definition that names it, and one that no definition names is as before. */
    method DecodeDHT() returns (ghost logs: seq<seq<nat>>)
      requires Shape() && r.Valid() && r.size >= 0 && r.error == OK
      modifies r`pos, r`size, r`error, this`length, vlctab
      ensures (r.error == OK) == old(Definitions()).Some?
      ensures r.error == OK ==>
                var ds := old(Definitions()).value;
                && length == 0 && Tables() == Apply(ds, old(Tables())) && Redefined(ds, old(Tables()), Tables())
                && |logs| == |ds| && AllEachOnce(logs)
      ensures r.error == OK ==>
                Valid() && r.pos == old(r.pos + LengthField()) && r.size == old(r.size - LengthField())
    {
      DecodeLength();
      if r.error == OK {
        logs := DefineTables();
      } else {
        logs := [];
      }
    }

    /** The same behind the length field. */
    method DefineTables() returns (ghost logs: seq<seq<nat>>)
      requires Valid() && r.error == OK
      modifies r`pos, r`size, r`error, this`length, vlctab
      ensures (r.error == OK) == old(length >= 0 && Defs(Payload()).Some?)
      ensures r.error == OK ==>
                var ds := old(Defs(Payload())).value;
                && length == 0 && Tables() == Apply(ds, old(Tables())) && Redefined(ds, old(Tables()), Tables())
                && |logs| == |ds| && AllEachOnce(logs)
      ensures r.error == OK ==> Valid() && r.pos == old(r.pos + length) && r.size == old(r.size - length)
    {
      logs := [];
      while length >= 17
        invariant Valid() && r.error == OK
        invariant r.pos + length == old(r.pos + length) && r.size - length == old(r.size - length)
        invariant old(length) >= 0 <==> length >= 0
        invariant SoFar(old(Payload()), old(Tables()), |logs|, Payload(), Tables())
        invariant AllEachOnce(logs)
      {
        ghost var n, p, t := |logs|, Payload(), Tables();
        var ok;
        ghost var log;
        ok, log := ReadTable();
        SoFarStep(old(Payload()), old(Tables()), n, p, t);
        if !ok {
          return;
        }
        logs := logs + [log];
      }
      if length != 0 {
        r.error := SyntaxError;
      } else {
        ApplyRedefines(old(Defs(Payload())).value, old(Tables()));
      }
    }

    /** A segment: the table it names last decodes that definition, and what is left is the data behind it. */
    method Define(t: nat, ghost d: Def, ghost k: nat)
      requires Shape() && r.Valid() && r.size >= 0 && r.error == OK && t < 4
      requires Definitions().Some? && LastFor(Definitions().value, k, t) && d == Definitions().value[k]
      modifies this`length, r`pos, r`size, r`error, vlctab
      ensures Valid() && r.error == OK && r.pos == old(r.pos + LengthField()) && r.size == old(r.size - LengthField())
      ensures d.Valid() && Right(t, d)
    {
      ghost var ds, before := Definitions().value, Tables();
      ghost var logs := DecodeDHT();
      LastDecodes(ds, before, Tables(), t, k);
    }

    /** The first symbol of the data. */
    method ReadFirst(t: nat, ghost d: Def) returns (value: int, code: nat, ghost j: int)
      requires Shape() && r.Valid() && r.bufbits == 0 && t < 4 && d.Valid() && Right(t, d)
      modifies r
      ensures r.coded == BitsOfBytes(Unstuff(old(r.Rest()))) && Ahead(d, j, r.coded, 0)
      ensures j == -1 ==> r.error == SyntaxError
      ensures j >= 0 ==> code == d.symbols[j] && Taken(r.coded, 0, r.skipped, d.HuffSize()[j], code, value)
    {
      r.Begin();
      value, code, j := GetVLC(t, d);
    }

    /** A segment, and a symbol from the data behind it: read with table `t`, which definition `k` is the last to name,
        it is the symbol of that definition whose code starts the data. */
    method DefineAndRead(t: nat, ghost d: Def, ghost k: nat) returns (value: int, code: nat, ghost j: int)
      requires Shape() && r.Valid() && r.size >= 0 && r.error == OK && r.bufbits == 0 && t < 4
      requires Definitions().Some? && LastFor(Definitions().value, k, t) && d == Definitions().value[k]
      modifies this`length, r, vlctab
      ensures r.coded == BitsOfBytes(Unstuff(Part(r.data, old(r.pos + LengthField()), old(r.size - LengthField()))))
      ensures d.Valid() && Ahead(d, j, r.coded, 0)
      ensures j == -1 ==> r.error == SyntaxError
      ensures j >= 0 ==> code == d.symbols[j] && Taken(r.coded, 0, r.skipped, d.HuffSize()[j], code, value)
    {
      Define(t, d, k);
      value, code, j := ReadFirst(t, d);
    }

    /** One table definition. */
    method ReadTable() returns (ok: bool, ghost log: seq<nat>)
      requires Valid() && r.error == OK && length >= 17
      modifies r`pos, r`size, r`error, this`length, vlctab
      ensures Valid() && ok == old(FirstDef(Payload()).Some?) && (r.error == OK <==> ok) && length >= 0
      ensures ok ==> var d := old(FirstDef(Payload())).value;
                && Payload() == old(Payload())[17 + |d.symbols|..]
                && Tables() == old(Tables())[d.table := Expand(d, old(Tables())[d.table])]
      ensures ok ==> EachOnce(log)
      ensures ok ==> r.pos + length == old(r.pos + length) && r.size - length == old(r.size - length)
    {
      var p := Payload();
      ghost var tables := Tables();
      var err := CheckId(p[0]);
      if err != OK {
        r.error := err;
        return false, [];
      }
      var i := SelectTable(p[0]);
      SizesAscend(p[1..17], 16);
      var used;
      ok, used, log := BuildTable(vlctab[i], i, p[1..17], p[17..]);
      if !ok {
        r.error := SyntaxError;
        return;
      }
      OneTable(tables, Tables(), i, vlctab[i][..]);
      SameDef(p, i, used);
      Skip(17 + used);
    }
  }

  /** Expand the counts, and the symbols `p` that follow them, into the table `vlc`, the table number `i`. */
  method BuildTable(vlc: array<Vlc>, ghost i: nat, counts: seq<nat>, p: seq<nat>)
    returns (ok: bool, used: nat, ghost log: seq<nat>)
    requires vlc.Length == TABLE_SIZE && i < 4 && |counts| == 16 && Ascending(Sizes(counts, 16))
    modifies vlc
    ensures ok == (|Sizes(counts, 16)| <= |p| && Start(Sizes(counts, 16), |Sizes(counts, 16)|) <= TABLE_SIZE)
    ensures ok ==> used == |Sizes(counts, 16)| && vlc[..] == Expand(Def(i, counts, p[..used]), old(vlc[..]))
    ensures ok ==> EachOnce(log)
  {
    ghost var before := vlc[..];
    ghost var symbols := Padded(p, |Sizes(counts, 16)|);
    used, log := 0, [];
    var remain, spread, next := TABLE_SIZE, TABLE_SIZE, 0;
    Pow2Literals();
    for codelen := 1 to 17
      invariant Progress(counts, codelen - 1, p, used, remain, next) && spread == Pow2(17 - codelen)
      invariant Runs(Sizes(counts, 16), symbols, used, before, vlc[..]) && WrittenUpTo(log, next)
    {
      spread := spread / 2;
      ok, used, remain, next, log :=
        BuildLevel(vlc, counts, codelen, spread, p, used, remain, next, symbols, before, log);
      if !ok {
        return;
      }
    }
    ghost var t := vlc[..];
    log := ClearRest(vlc, next, remain, log);
    assert symbols == p[..used];
    RunsComplete(Def(i, counts, symbols), before, t, vlc[..]);
    AllOnce(log);
    return true, used, log;
  }

  /** Every entry of a table was written exactly once. */
  ghost predicate EachOnce(log: seq<nat>) {
    |log| == TABLE_SIZE && forall v :: 0 <= v < TABLE_SIZE ==> multiset(log)[v] == 1
  }

  ghost predicate AllEachOnce(logs: seq<seq<nat>>) {
    forall i :: 0 <= i < |logs| ==> EachOnce(logs[i])
  }

  lemma AllOnce(log: seq<nat>)
    requires WrittenUpTo(log, TABLE_SIZE)
    ensures EachOnce(log)
  {
    forall v | 0 <= v < TABLE_SIZE ensures multiset(log)[v] == 1 {
      WrittenOnce(log, TABLE_SIZE, v);
    }
  }

  /** The codes of the first `l` lengths have been read: `used` symbols, which fill the entries below `next`. */
  ghost predicate Progress(counts: seq<nat>, l: nat, p: seq<nat>, used: nat, remain: nat, next: nat) {
    && |counts| == 16 && l <= 16 && Ascending(Sizes(counts, 16))
    && used == |Sizes(counts, l)| && used <= |p| && used <= |Sizes(counts, 16)|
    && next == Start(Sizes(counts, 16), used) && next + remain == TABLE_SIZE
  }

  /** The codes of length `codelen`. */
  method BuildLevel(vlc: array<Vlc>, counts: seq<nat>, codelen: nat, spread: nat, p: seq<nat>,
                    used: nat, remain: nat, next: nat, ghost symbols: seq<nat>, ghost before: seq<Vlc>,
                    ghost log: seq<nat>)
    returns (ok: bool, used': nat, remain': nat, next': nat, ghost log': seq<nat>)
    requires vlc.Length == TABLE_SIZE && 1 <= codelen <= 16 && spread == Pow2(16 - codelen)
    requires Progress(counts, codelen - 1, p, used, remain, next) && symbols == Padded(p, |Sizes(counts, 16)|)
    requires Runs(Sizes(counts, 16), symbols, used, before, vlc[..]) && WrittenUpTo(log, next)
    modifies vlc
    ensures ok ==> Progress(counts, codelen, p, used', remain', next') && WrittenUpTo(log', next')
    ensures ok ==> Runs(Sizes(counts, 16), symbols, used', before, vlc[..])
    ensures !ok ==> |Sizes(counts, 16)| > |p| || Start(Sizes(counts, 16), |Sizes(counts, 16)|) > TABLE_SIZE
  {
    ghost var sizes := Sizes(counts, 16);
    var currcnt := counts[codelen - 1];
    used', remain', next', log' := used, remain, next, log;
    LevelOf(counts, codelen);
    if currcnt == 0 {
      return true, used, remain, next, log;
    }
    if |p| - used < currcnt {
      return false, used, remain, next, log;
    }
    LevelSum(sizes, used, currcnt, codelen);
    if remain - Shl(currcnt, 16 - codelen) < 0 {
      StartAscends(sizes, used + currcnt, |sizes|);
      return false, used, remain, next, log;
    }
    remain' := remain - Shl(currcnt, 16 - codelen);
    var codes := p[used..used + currcnt];
    next', log' := WriteLevel(vlc, next, codelen, spread, codes, sizes, symbols, used, before, log);
    used' := used + |codes|;
    ok := true;
  }

  /** The first `n` bytes of `p`, and zeros if there are fewer. */
  ghost function Padded(p: seq<nat>, n: nat): (s: seq<nat>)
    ensures |s| == n && forall k :: 0 <= k < n ==> s[k] == if k < |p| then p[k] else 0
  {
    seq(n, k requires 0 <= k => if k < |p| then p[k] else 0)
  }

  /** Where the codes of one length stand among all. */
  lemma LevelOf(counts: seq<nat>, l: nat)
    requires |counts| == 16 && 1 <= l <= 16
    ensures |Sizes(counts, l)| == |Sizes(counts, l - 1)| + counts[l - 1] <= |Sizes(counts, 16)|
    ensures forall i :: |Sizes(counts, l - 1)| <= i < |Sizes(counts, l)| ==> Sizes(counts, 16)[i] == l
  {
    SizesPrefix(counts, l, 16);
    forall i | |Sizes(counts, l - 1)| <= i < |Sizes(counts, l)| ensures Sizes(counts, 16)[i] == l {
      assert Sizes(counts, 16)[i] == Sizes(counts, l)[i];
    }
  }

  /** The two inner loops: the codes of one length, `spread` entries each. */
  method WriteLevel(vlc: array<Vlc>, from: nat, codelen: nat, spread: nat, codes: seq<nat>,
                    ghost sizes: seq<nat>, ghost symbols: seq<nat>, ghost k: nat, ghost before: seq<Vlc>,
                    ghost log: seq<nat>)
    returns (next: nat, ghost log': seq<nat>)
    requires vlc.Length == TABLE_SIZE && 1 <= codelen <= 16 && spread == Pow2(16 - codelen)
    requires Ascending(sizes) && k + |codes| <= |sizes| == |symbols|
    requires forall i :: 0 <= i < |codes| ==> sizes[k + i] == codelen && symbols[k + i] == codes[i]
    requires from == Start(sizes, k) && Start(sizes, k + |codes|) <= TABLE_SIZE
    requires Runs(sizes, symbols, k, before, vlc[..]) && WrittenUpTo(log, from)
    modifies vlc
    ensures next == Start(sizes, k + |codes|) && Runs(sizes, symbols, k + |codes|, before, vlc[..])
    ensures WrittenUpTo(log', next)
  {
    next, log' := from, log;
    for i := 0 to |codes|
      invariant next == Start(sizes, k + i) && Runs(sizes, symbols, k + i, before, vlc[..]) && WrittenUpTo(log', next)
    {
      StartAscends(sizes, k + i + 1, k + |codes|);
      log' := WriteCode(vlc, next, spread, Vlc(codelen, codes[i]), sizes, symbols, k + i, before, log');
      next := next + spread;
    }
  }

  method WriteCode(vlc: array<Vlc>, from: nat, spread: nat, e: Vlc,
                   ghost sizes: seq<nat>, ghost symbols: seq<nat>, ghost k: nat, ghost before: seq<Vlc>,
                   ghost log: seq<nat>)
    returns (ghost log': seq<nat>)
    requires vlc.Length == TABLE_SIZE && Ascending(sizes) && k < |sizes| == |symbols| && WrittenUpTo(log, from)
    requires e == Vlc(sizes[k], symbols[k]) && spread == Pow2(16 - sizes[k])
    requires from == Start(sizes, k) && Start(sizes, k + 1) <= TABLE_SIZE && Runs(sizes, symbols, k, before, vlc[..])
    modifies vlc
    ensures Runs(sizes, symbols, k + 1, before, vlc[..]) && WrittenUpTo(log', from + spread)
  {
    RunsStep(sizes, symbols, k, before, vlc[..]);
    log' := WriteRun(vlc, from, spread, e, log);
  }

  /** `t` with `n` entries from `from` on replaced by `e`. */
  function Overwritten(t: seq<Vlc>, from: nat, n: nat, e: Vlc): (r: seq<Vlc>)
    requires from + n <= |t|
    ensures |r| == |t|
    ensures forall v :: 0 <= v < |t| ==> r[v] == if from <= v < from + n then e else t[v]
  {
    t[..from] + seq(n, _ => e) + t[from + n..]
  }

  /** The entries written so far are 0, 1, ... up to `n`, in this order and once each. */
  ghost predicate WrittenUpTo(log: seq<nat>, n: nat) {
    |log| == n && forall i :: 0 <= i < n ==> log[i] == i
  }

  lemma {:induction false} WrittenOnce(log: seq<nat>, n: nat, v: nat)
    requires WrittenUpTo(log, n)
    ensures multiset(log)[v] == if v < n then 1 else 0
  {
    if n == 0 {
      assert log == [];
    } else {
      assert log == log[..n - 1] + [n - 1];
      WrittenOnce(log[..n - 1], n - 1, v);
    }
  }

  /** The only place where a table is written: every write is logged. */
  method Store(vlc: array<Vlc>, v: nat, e: Vlc, ghost log: seq<nat>) returns (ghost log': seq<nat>)
    requires v < vlc.Length
    modifies vlc
    ensures vlc[..] == old(vlc[..])[v := e] && log' == log + [v]
  {
    vlc[v] := e;
    log' := log + [v];
  }

  method WriteRun(vlc: array<Vlc>, from: nat, n: nat, e: Vlc, ghost log: seq<nat>) returns (ghost log': seq<nat>)
    requires from + n <= vlc.Length && WrittenUpTo(log, from)
    modifies vlc
    ensures vlc[..] == Overwritten(old(vlc[..]), from, n, e) && WrittenUpTo(log', from + n)
  {
    ghost var t := vlc[..];
    log' := log;
    var j := n;
    while j != 0
      invariant 0 <= j <= n
      invariant vlc[..] == Overwritten(t, from, n - j, e) && WrittenUpTo(log', from + n - j)
    {
      log' := Store(vlc, from + n - j, e, log');
      j := j - 1;
    }
  }

  method ClearRest(vlc: array<Vlc>, from: nat, remain: nat, ghost log: seq<nat>) returns (ghost log': seq<nat>)
    requires from + remain == vlc.Length && WrittenUpTo(log, from)
    modifies vlc
    ensures forall v :: 0 <= v < vlc.Length ==> vlc[v] == if v < from then old(vlc[v]) else Vlc(0, old(vlc[v]).code)
    ensures WrittenUpTo(log', vlc.Length)
  {
    log' := log;
    var n, next := remain, from;
    while n != 0
      invariant next + n == vlc.Length && from <= next && 0 <= n && WrittenUpTo(log', next)
      invariant forall v :: 0 <= v < vlc.Length ==>
                  vlc[v] == if from <= v < next then Vlc(0, old(vlc[v]).code) else old(vlc[v])
    {
      log' := Store(vlc, next, vlc[next].(bits := 0), log');
      next := next + 1;
      n := n - 1;
    }
  }

  /** The bits of `u` after the first `p` start with the code of symbol `k`. */
  ghost predicate CodeAhead(d: Def, k: nat, u: seq<nat>, p: nat)
    requires d.Valid() && k < |d.symbols|
  {
    IsField(u, p, d.HuffSize()[k], HuffCode(d.HuffSize(), k))
  }

  /** The `n` bits of `u` after the first `from` encode `value`, as in Table F.1 of ITU-T T.81: positive numbers of `n`
      bits as they are, negative ones as the complement of their absolute value. */
  ghost predicate Encodes(u: seq<nat>, from: nat, n: nat, value: int) {
    if n == 0 then value == 0
    else
      && (Pow2(n - 1) <= value < Pow2(n) || (0 < value + Pow2(n) && value + Pow2(n - 1) <= 0))
      && IsField(u, from, n, if value > 0 then value else Pow2(n) - 1 + value)
  }

  function Extend(raw: nat, n: nat): int
    requires n > 0
  {
    if raw < Pow2(n - 1) then raw - Pow2(n) + 1 else raw
  }

  lemma ExtendEncodes(u: seq<nat>, from: nat, n: nat, raw: nat)
    requires n > 0 && IsField(u, from, n, raw)
    ensures Encodes(u, from, n, Extend(raw, n))
  {}

  /** Symbol `k` is the one whose code is at bit `p` of `u`; it is -1 if there is none. */
  ghost predicate Ahead(d: Def, k: int, u: seq<nat>, p: nat)
    requires d.Valid()
  {
    -1 <= k < |d.symbols| && forall i :: 0 <= i < |d.symbols| ==> (CodeAhead(d, i, u, p) <==> i == k)
  }

  /** From bit `p` to bit `q` of `u` there are a code of `bits` bits and the additional bits its symbol `code` asks for,
      which encode `value`. */
  ghost predicate Taken(u: seq<nat>, p: nat, q: nat, bits: nat, code: nat, value: int) {
    q == p + bits + Low(code, 4) && Encodes(u, p + bits, Low(code, 4), value)
  }

  /** `code & 15` */
  method LowNibble(code: nat) returns (n: nat)
    ensures n == Low(code, 4) < 16
  {
    LowFour(code, 15);
    n := And(code, 15);
  }

  lemma LowFour(x: nat, m: nat)
    requires m == 15
    ensures And(x, m) == Low(x, 4) < 16
  {
    assert Pow2(4) == 16;
    AndMask(x, 4);
  }

  /** A field's prefix is the field shifted right. */
  lemma FieldPrefix(u: seq<nat>, p: nat, n: nat, v: nat, l: nat, c: nat)
    requires l <= n && IsField(u, p, n, v)
    ensures IsField(u, p, l, c) <==> Shr(v, n - l) == c
  {
    var w := Shr(v, n - l);
    ShrBound(v, l, n - l);
    forall j | 0 <= j < l ensures Bit(w, j) == At(u, p + l - 1 - j) {
      BitShr(v, n - l, j);
      assert Bit(v, j + (n - l)) == At(u, p + n - 1 - (j + (n - l)));
    }
    if IsField(u, p, l, c) {
      SameBits(w, c, l);
    }
  }

  lemma SymbolAhead(d: Def, u: seq<nat>, p: nat, v: nat) returns (k: int)
    requires d.Valid() && IsField(u, p, 16, v)
    ensures v < TABLE_SIZE && Ahead(d, k, u, p)
    ensures k == -1 ==> forall i :: 0 <= i < |d.symbols| ==> !StartsWith(d.HuffSize(), i, v)
    ensures k >= 0 ==> StartsWith(d.HuffSize(), k, v)
  {
    Pow2Literals();
    var sizes := d.HuffSize();
    k := FindSymbol(sizes, v, |d.symbols|);
    forall i | 0 <= i < |d.symbols| ensures CodeAhead(d, i, u, p) <==> i == k {
      FieldPrefix(u, p, 16, v, sizes[i], HuffCode(sizes, i));
      if StartsWith(sizes, i, v) {
        UniqueSymbol(sizes, i, k, v);
      }
    }
  }

  lemma SameDef(p: seq<nat>, i: nat, used: nat)
    requires |p| >= 17 && FirstDef(p).Some? && i == TableOf(p[0]) && used == |Sizes(p[1..17], 16)| <= |p[17..]|
    ensures FirstDef(p).value == Def(i, p[1..17], p[17..][..used])
  {
    assert p[17..][..used] == p[17..17 + used];
  }

  lemma OneTable(before: seq<seq<Vlc>>, after: seq<seq<Vlc>>, i: nat, t: seq<Vlc>)
    requires FourTables(before) && FourTables(after) && i < 4
    requires after[i] == t && forall j :: 0 <= j < 4 && j != i ==> after[j] == before[j]
    ensures after == before[i := t]
  {}

  /** The checks of the destination identifier, `i & 0xEC` and `i & 0x02`. */
  method CheckId(id: nat) returns (e: Error)
    requires id < 256
    ensures e == OK <==> IdOk(id)
  {
    var a, b := And(id, 0xEC), And(id, 0x02);
    IdBits(id, 0xEC, 0x02);
    if a != 0 {
      return SyntaxError;
    }
    if b != 0 {
      return Unsupported;
    }
    return OK;
  }

  lemma IdBits(id: nat, m: nat, n: nat)
    requires id < 256 && m == 0xEC && n == 0x02
    ensures And(id, m) == 0 && And(id, n) == 0 <==> IdOk(id)
  {
    if And(id, m) == 0 && And(id, n) == 0 {
      MaskedBitZero(id, m, 2);
      MaskedBitZero(id, m, 3);
      MaskedBitZero(id, m, 5);
      MaskedBitZero(id, m, 6);
      MaskedBitZero(id, m, 7);
      MaskedBitZero(id, n, 1);
    }
    if IdOk(id) {
      IdOkMasked(id, m);
      IdOkMasked(id, n);
    }
  }

  lemma IdOkMasked(id: nat, m: nat)
    requires IdOk(id) && (m == 0xEC || m == 0x02)
    ensures And(id, m) == 0
  {
    AndBound(id, m);
    Pow2Literals();
    var r := And(id, m);
    forall j | 0 <= j < 8 ensures Bit(r, j) == Bit(0, j) {
      BitAnd(id, m, j);
      BitOfZero(j);
      IdBit(id, m, j);
    }
    SameBits(r, 0, 8);
  }

  lemma IdBit(id: nat, m: nat, j: nat)
    requires IdOk(id) && (m == 0xEC || m == 0x02) && j < 8
    ensures Bit(id, j) == 0 || Bit(m, j) == 0
  {
    BitByDivision(id, j);
    BitByDivision(m, j);
  }

  lemma MaskedBitZero(x: nat, m: nat, j: nat)
    requires And(x, m) == 0 && j < 16
    ensures m / [1, 2, 4, 8, 16, 32, 64, 128, 256, 512, 1024, 2048, 4096, 8192, 16384, 32768][j] % 2 == 0 ||
            x / [1, 2, 4, 8, 16, 32, 64, 128, 256, 512, 1024, 2048, 4096, 8192, 16384, 32768][j] % 2 == 0
  {
    BitAnd(x, m, j);
    BitOfZero(j);
    BitByDivision(x, j);
    BitByDivision(m, j);
  }

  /** `(i | (i >> 3)) & 3` */
  method SelectTable(id: nat) returns (i: nat)
    requires IdOk(id)
    ensures i == TableOf(id)
  {
    IdTable(id, 3);
    i := And(Or(id, Shr(id, 3)), 3);
  }

  lemma IdTable(id: nat, m: nat)
    requires IdOk(id) && m == 3
    ensures And(Or(id, Shr(id, 3)), m) == TableOf(id)
  {
    Thrice(id);
    IdArithmetic(id);
    LowTwo(id, Shr(id, 3), m);
  }

  lemma IdArithmetic(id: nat)
    requires IdOk(id)
    ensures (if id % 2 + id / 8 % 2 == 0 then 0 else 1) + (if id / 2 % 2 + id / 8 / 2 % 2 == 0 then 0 else 2) ==
              TableOf(id)
  {}

  lemma LowTwo(x: nat, y: nat, m: nat)
    requires m == 3
    ensures And(Or(x, y), m) ==
              (if x % 2 + y % 2 == 0 then 0 else 1) + (if x / 2 % 2 + y / 2 % 2 == 0 then 0 else 2)
  {
    var z := Or(x, y);
    assert Pow2(2) == 4;
    AndMask(z, 2);
    BitOr(x, y, 0);
    BitOr(x, y, 1);
    assert Low(z, 2) == Bit(z, 0) + 2 * Bit(z, 1);
  }
}

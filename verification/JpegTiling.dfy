/** Where nanojpeg.c puts the samples of the blocks it decodes: the blocks of a component tile its plane. */
module JpegTiling {

  // ---------- arithmetic ----------

  lemma Radix(a: nat, n: nat, b: nat)
    requires b < n
    ensures (a * n + b) / n == a && (a * n + b) % n == b
  {
    var x := a * n + b;
    var e := x / n - a;
    assert x == (x / n) * n + x % n;
    assert e * n == b - x % n;
    Small(e, n);
  }

  lemma Small(e: int, n: int)
    requires n > 0 && -n < e * n < n
    ensures e == 0
  {
    assert e >= 1 ==> e * n >= n;
    assert e <= -1 ==> e * n <= -n;
  }

  lemma Scaled(a: nat, b: nat, n: nat)
    requires a < b
    ensures a * n + n <= b * n
  {
    Keeps(a + 1, b, n);
    assert (a + 1) * n == a * n + n;
  }

  lemma Quotient(x: nat, n: nat, m: nat)
    requires n > 0 && x < m * n
    ensures x / n < m && x % n < n && x == (x / n) * n + x % n
  {
    if x / n >= m {
      Keeps(m, x / n, n);
    }
  }

  lemma Keeps(a: nat, b: nat, n: nat)
    requires a <= b
    ensures a * n <= b * n
  {}

  function Div(x: nat, n: nat): nat
    requires n > 0
  {
    x / n
  }

  function Mod(x: nat, n: nat): nat
    requires n > 0
  {
    x % n
  }

  // ---------- the plane of a component ----------

  /** The geometry of a component: sampling factors, and the size of the image in macroblocks. */
  datatype Plane = Plane(ssx: nat, ssy: nat, mbwidth: nat, mbheight: nat) {
    predicate Valid() {
      ssx > 0 && ssy > 0 && mbwidth > 0 && mbheight > 0
    }

    /** Blocks per row of blocks, and rows of blocks. */
    function Across(): nat { mbwidth * ssx }
    function Down(): nat { mbheight * ssy }

    function Stride(): nat { Across() * 8 }
    function Lines(): nat { Down() * 8 }

    /** The size of the allocation. */
    function Size(): nat { Lines() * Stride() }
  }

  /** One sample of one block: macroblock, block within it, line and column within the block. */
  datatype Sample = Sample(mbx: nat, mby: nat, sbx: nat, sby: nat, row: nat, col: nat) {
    predicate In(p: Plane) {
      mbx < p.mbwidth && mby < p.mbheight && sbx < p.ssx && sby < p.ssy && row < 8 && col < 8
    }
  }

  /** The offset of the first sample of a block, as `njDecodeScan` computes it. */
  function BlockOffset(p: Plane, s: Sample): nat {
    ((s.mby * p.ssy + s.sby) * p.Stride() + s.mbx * p.ssx + s.sbx) * 8
  }

  /** The offset that `njColIDCT` writes a sample to. */
  function Offset(p: Plane, s: Sample): nat {
    BlockOffset(p, s) + s.row * p.Stride() + s.col
  }

  function Column(p: Plane, s: Sample): nat {
    (s.mbx * p.ssx + s.sbx) * 8 + s.col
  }

  function Line(p: Plane, s: Sample): nat {
    (s.mby * p.ssy + s.sby) * 8 + s.row
  }

  lemma OffsetIsCell(p: Plane, s: Sample)
    ensures Offset(p, s) == Line(p, s) * p.Stride() + Column(p, s)
  {
    var b, w := s.mby * p.ssy + s.sby, p.Stride();
    assert (b * w) * 8 == (b * 8) * w;
    assert (b * 8 + s.row) * w == (b * 8) * w + s.row * w;
  }

  lemma CellInPlane(p: Plane, s: Sample)
    requires p.Valid() && s.In(p)
    ensures Column(p, s) < p.Stride() && Line(p, s) < p.Lines()
  {
    Scaled(s.mbx, p.mbwidth, p.ssx);
    Scaled(s.mby, p.mbheight, p.ssy);
  }

  /** No sample falls outside the allocation. */
  lemma OffsetInBounds(p: Plane, s: Sample)
    requires p.Valid() && s.In(p)
    ensures Offset(p, s) < p.Size()
  {
    OffsetIsCell(p, s);
    CellInPlane(p, s);
    Scaled(Line(p, s), p.Lines(), p.Stride());
  }

  lemma StridePositive(p: Plane)
    requires p.Valid()
    ensures p.Stride() > 0
  {
    Scaled(0, p.mbwidth, p.ssx);
  }

  /** The sample at an offset. */
  function SampleAt(p: Plane, a: nat): Sample
    requires p.Valid()
  {
    StridePositive(p);
    var y, x := Div(a, p.Stride()), Mod(a, p.Stride());
    Sample(Div(x / 8, p.ssx), Div(y / 8, p.ssy), Mod(x / 8, p.ssx), Mod(y / 8, p.ssy), y % 8, x % 8)
  }

  /** Different samples go to different offsets: the offset determines the sample. */
  lemma SampleAtOffset(p: Plane, s: Sample)
    requires p.Valid() && s.In(p)
    ensures SampleAt(p, Offset(p, s)) == s
  {
    StridePositive(p);
    OffsetIsCell(p, s);
    CellInPlane(p, s);
    Radix(Line(p, s), p.Stride(), Column(p, s));
    Radix(s.mbx * p.ssx + s.sbx, 8, s.col);
    Radix(s.mby * p.ssy + s.sby, 8, s.row);
    Radix(s.mbx, p.ssx, s.sbx);
    Radix(s.mby, p.ssy, s.sby);
  }

  /** Every offset of the allocation is that of a sample. */
  lemma OffsetOfSampleAt(p: Plane, a: nat)
    requires p.Valid() && a < p.Size()
    ensures SampleAt(p, a).In(p) && Offset(p, SampleAt(p, a)) == a
  {
    StridePositive(p);
    var s := SampleAt(p, a);
    Quotient(a, p.Stride(), p.Lines());
    var y, x := a / p.Stride(), a % p.Stride();
    Quotient(x, 8, p.Across());
    Quotient(y, 8, p.Down());
    Quotient(x / 8, p.ssx, p.mbwidth);
    Quotient(y / 8, p.ssy, p.mbheight);
    OffsetIsCell(p, s);
  }

  lemma OnlyOffset(p: Plane, s: Sample, a: nat)
    requires p.Valid() && s.In(p) && a < p.Size()
    ensures SampleAt(p, a) == s <==> a == Offset(p, s)
  {
    SampleAtOffset(p, s);
    OffsetOfSampleAt(p, a);
  }

  // ---------- the scan ----------

  predicate SameBlock(s: Sample, b: Sample) {
    s.mbx == b.mbx && s.mby == b.mby && s.sbx == b.sbx && s.sby == b.sby
  }

  /** The writes of a block come column by column, each from top to bottom. */
  predicate EarlierInBlock(s: Sample, row: nat, col: nat) {
    s.col < col || (s.col == col && s.row < row)
  }

  /** Macroblocks come line by line, the blocks of a macroblock likewise. */
  predicate EarlierBlock(s: Sample, b: Sample) {
    || s.mby < b.mby
    || (s.mby == b.mby && s.mbx < b.mbx)
    || (s.mby == b.mby && s.mbx == b.mbx && s.sby < b.sby)
    || (s.mby == b.mby && s.mbx == b.mbx && s.sby == b.sby && s.sbx < b.sbx)
  }

  /** The writes to each offset, after the blocks before `b` and the first columns and rows of `b`. */
  ghost predicate Logged(p: Plane, log: seq<seq<Sample>>, b: Sample, row: nat, col: nat)
    requires p.Valid()
  {
    && |log| == p.Size()
    && forall a :: 0 <= a < p.Size() ==>
         var s := SampleAt(p, a);
         log[a] == if EarlierBlock(s, b) || (SameBlock(s, b) && EarlierInBlock(s, row, col)) then [s] else []
  }

  lemma LoggedStep(p: Plane, log: seq<seq<Sample>>, b: Sample, row: nat, col: nat)
    requires p.Valid() && row < 8 && col < 8
    requires b.(row := row, col := col).In(p) && Logged(p, log, b, row, col)
    ensures var s := b.(row := row, col := col);
            Offset(p, s) < |log| &&
            Logged(p, log[Offset(p, s) := log[Offset(p, s)] + [s]], b, row + 1, col)
  {
    var s := b.(row := row, col := col);
    OffsetInBounds(p, s);
    forall a | 0 <= a < p.Size() ensures SampleAt(p, a) == s <==> a == Offset(p, s) {
      OnlyOffset(p, s, a);
    }
  }

  /** What comes to the same point of the scan has the same log. */
  lemma SamePoint(p: Plane, log: seq<seq<Sample>>, b: Sample, row: nat, col: nat, c: Sample, row': nat, col': nat)
    requires p.Valid() && Logged(p, log, b, row, col)
    requires forall s: Sample :: s.In(p) ==>
               ((EarlierBlock(s, b) || (SameBlock(s, b) && EarlierInBlock(s, row, col))) <==>
                (EarlierBlock(s, c) || (SameBlock(s, c) && EarlierInBlock(s, row', col'))))
    ensures Logged(p, log, c, row', col')
  {
    forall a | 0 <= a < p.Size() ensures SampleAt(p, a).In(p) {
      OffsetOfSampleAt(p, a);
    }
  }

  /** `njDecodeBlock` writes its samples (`njColIDCT`, for each column). */
  method PlaceBlock(p: Plane, log: array<seq<Sample>>, b: Sample)
    requires p.Valid() && b.In(p) && b.row == b.col == 0 && Logged(p, log[..], b, 0, 0)
    modifies log
    ensures Logged(p, log[..], b, 0, 8)
  {
    for col := 0 to 8
      invariant Logged(p, log[..], b, 0, col)
    {
      for row := 0 to 8
        invariant Logged(p, log[..], b, row, col)
      {
        var s := b.(row := row, col := col);
        ghost var before := log[..];
        LoggedStep(p, before, b, row, col);
        var a := BlockOffset(p, b) + row * p.Stride() + col;
        assert a == Offset(p, s);
        log[a] := log[a] + [s];
        assert log[..] == before[a := before[a] + [s]];
      }
      SamePoint(p, log[..], b, 8, col, b, 0, col + 1);
    }
  }

  /** The blocks of one macroblock of the component. */
  method PlaceMacroblock(p: Plane, log: array<seq<Sample>>, mbx: nat, mby: nat)
    requires p.Valid() && mbx < p.mbwidth && mby < p.mbheight
    requires Logged(p, log[..], Sample(mbx, mby, 0, 0, 0, 0), 0, 0)
    modifies log
    ensures Logged(p, log[..], Sample(mbx, mby, 0, p.ssy, 0, 0), 0, 0)
  {
    for sby := 0 to p.ssy
      invariant Logged(p, log[..], Sample(mbx, mby, 0, sby, 0, 0), 0, 0)
    {
      for sbx := 0 to p.ssx
        invariant Logged(p, log[..], Sample(mbx, mby, sbx, sby, 0, 0), 0, 0)
      {
        var b := Sample(mbx, mby, sbx, sby, 0, 0);
        PlaceBlock(p, log, b);
        SamePoint(p, log[..], b, 0, 8, Sample(mbx, mby, sbx + 1, sby, 0, 0), 0, 0);
      }
      SamePoint(p, log[..], Sample(mbx, mby, p.ssx, sby, 0, 0), 0, 0, Sample(mbx, mby, 0, sby + 1, 0, 0), 0, 0);
    }
  }

  /** The components of one scan have the same macroblocks and each a plane of its own. */
  ghost predicate Components(ps: seq<Plane>, logs: seq<array<seq<Sample>>>, width: nat, height: nat) {
    && |ps| == |logs| && 0 < width && 0 < height
    && (forall i :: 0 <= i < |ps| ==> ps[i].Valid() && ps[i].mbwidth == width && ps[i].mbheight == height)
    && forall i, j :: 0 <= i < j < |logs| ==> logs[i] != logs[j]
  }

  /** The start of a macroblock, or its end. */
  function Point(p: Plane, mbx: nat, mby: nat, done: bool): Sample {
    Sample(mbx, mby, 0, if done then p.ssy else 0, 0, 0)
  }

  /** The scan has come to a macroblock, and the first `n` components are through with it. */
  ghost predicate At(ps: seq<Plane>, logs: seq<array<seq<Sample>>>, mbx: nat, mby: nat, n: nat)
    requires |ps| == |logs| && forall i :: 0 <= i < |ps| ==> ps[i].Valid()
    reads logs
  {
    forall i :: 0 <= i < |ps| ==> Logged(ps[i], logs[i][..], Point(ps[i], mbx, mby, i < n), 0, 0)
  }

  /** One macroblock of every component. */
  method PlaceAll(ps: seq<Plane>, logs: seq<array<seq<Sample>>>, mbx: nat, mby: nat,
                  ghost width: nat, ghost height: nat)
    requires Components(ps, logs, width, height) && mbx < width && mby < height && At(ps, logs, mbx, mby, 0)
    modifies logs
    ensures At(ps, logs, mbx, mby, |ps|)
  {
    for i := 0 to |ps|
      invariant At(ps, logs, mbx, mby, i)
    {
      assert Logged(ps[i], logs[i][..], Point(ps[i], mbx, mby, false), 0, 0);
      PlaceMacroblock(ps[i], logs[i], mbx, mby);
    }
  }

  /** The end of a macroblock is the start of the next one, at the right edge that of the next line. */
  lemma NextMacroblock(ps: seq<Plane>, logs: seq<array<seq<Sample>>>, mbx: nat, mby: nat, width: nat, height: nat)
    requires Components(ps, logs, width, height) && mbx < width && At(ps, logs, mbx, mby, |ps|)
    ensures if mbx + 1 < width then At(ps, logs, mbx + 1, mby, 0) else At(ps, logs, 0, mby + 1, 0)
  {
    var next := if mbx + 1 < width then (mbx + 1, mby) else (0, mby + 1);
    forall i | 0 <= i < |ps| ensures Logged(ps[i], logs[i][..], Point(ps[i], next.0, next.1, false), 0, 0) {
      SamePoint(ps[i], logs[i][..], Point(ps[i], mbx, mby, true), 0, 0, Point(ps[i], next.0, next.1, false), 0, 0);
    }
  }

  /** The loop of `njDecodeScan` over macroblocks and components, if no block fails to decode: starting from planes
      nothing was written to, every offset of every plane is written exactly once, by the sample that belongs there. */
  method DecodeScan(ps: seq<Plane>, logs: seq<array<seq<Sample>>>, width: nat, height: nat)
    requires Components(ps, logs, width, height)
    requires forall i :: 0 <= i < |ps| ==>
               logs[i].Length == ps[i].Size() && forall a :: 0 <= a < logs[i].Length ==> logs[i][a] == []
    modifies logs
    ensures forall i, a :: 0 <= i < |ps| && 0 <= a < logs[i].Length ==> logs[i][a] == [SampleAt(ps[i], a)]
  {
    var mbx, mby := 0, 0;
    while true
      invariant mbx < width && mby < height && At(ps, logs, mbx, mby, 0)
      decreases height - mby, width - mbx
    {
      PlaceAll(ps, logs, mbx, mby, width, height);
      NextMacroblock(ps, logs, mbx, mby, width, height);
      mbx := mbx + 1;
      if mbx >= width {
        mbx := 0;
        mby := mby + 1;
        if mby >= height {
          break;
        }
      }
    }
    forall i, a | 0 <= i < |ps| && 0 <= a < logs[i].Length ensures logs[i][a] == [SampleAt(ps[i], a)] {
      OffsetOfSampleAt(ps[i], a);
    }
  }

  // ---------- the geometry ----------

  /** Rounding up. */
  function Ceil(x: nat, n: nat): nat
    requires n > 0
  {
    Div(x + n - 1, n)
  }

  lemma CeilCovers(x: nat, n: nat)
    requires n > 0
    ensures x <= Ceil(x, n) * n < x + n
  {
    var y := x + n - 1;
    assert y == (y / n) * n + y % n;
  }

  lemma CeilLeast(x: nat, n: nat, m: nat)
    requires n > 0 && x <= m * n
    ensures Ceil(x, n) <= m
  {
    CeilCovers(x, n);
    if Ceil(x, n) > m {
      Scaled(m, Ceil(x, n), n);
    }
  }

  /** The geometry that `njDecodeSOF` computes gives every component a plane that covers its visible samples. */
  lemma PlaneCoversComponent(width: nat, ss: nat, ssmax: nat, mb: nat)
    requires 0 < ss <= ssmax && mb == Ceil(width, ssmax * 8)
    ensures Ceil(width * ss, ssmax) <= mb * ss * 8
  {
    CeilCovers(width, ssmax * 8);
    Keeps(width, mb * (ssmax * 8), ss);
    assert mb * (ssmax * 8) * ss == (mb * ss * 8) * ssmax;
    CeilLeast(width * ss, ssmax, mb * ss * 8);
  }
}

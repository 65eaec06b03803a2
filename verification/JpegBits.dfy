/** The bit reader of nanojpeg.c, which undoes byte stuffing while it fills a 32-bit word, against the plain sequence
    of entropy-coded bits (section F.2.2.5 of ITU-T T.81). */
module JpegBits {
  import opened Bits
  import opened Common

  predicate Bytes(d: seq<nat>) {
    forall i :: 0 <= i < |d| ==> d[i] < 256
  }

  // ---------- the unstuffed data ----------

  /** One of the markers RST0, ..., RST7: 0xD0, ..., 0xD7. */
  predicate IsRestart(m: nat) {
    m / 8 == 26
  }

  /** The data bytes that a sequence of stored bytes stands for: 0xFF is followed by a byte that is dropped, ends the
      data (end of image), or, for a restart marker, is kept. */
  function Unstuff(d: seq<nat>): seq<nat> {
    if d == [] then []
    else if d[0] != 0xFF then [d[0]] + Unstuff(d[1..])
    else if |d| == 1 then [d[0]]
    else if d[1] == 0xD9 then [d[0]]
    else if d[1] != 0x00 && d[1] != 0xFF && IsRestart(d[1]) then [d[0], d[1]] + Unstuff(d[2..])
    else [d[0]] + Unstuff(d[2..])
  }

  /** No byte 0xFF is followed by a marker that may not occur in entropy-coded data. */
  predicate Clean(d: seq<nat>) {
    if d == [] then true
    else if d[0] != 0xFF then Clean(d[1..])
    else if |d| == 1 then false
    else if d[1] == 0xD9 then true
    else (d[1] == 0x00 || d[1] == 0xFF || IsRestart(d[1])) && Clean(d[2..])
  }

  /** The low `n` bits of `x`, most significant first. */
  function BitsOf(x: nat, n: nat): (r: seq<nat>)
    ensures |r| == n
    ensures forall i :: 0 <= i < n ==> r[i] == Bit(x, n - 1 - i)
  {
    seq(n, i requires 0 <= i < n => Bit(x, n - 1 - i))
  }

  function BitsOfBytes(d: seq<nat>): seq<nat> {
    if d == [] then [] else BitsOf(d[0], 8) + BitsOfBytes(d[1..])
  }

  /** Bit `i` of a bit sequence that continues with ones for ever. */
  function At(u: seq<nat>, i: nat): nat {
    if i < |u| then u[i] else 1
  }

  /** All bits of `u` from bit `n` on are ones. */
  predicate OnesFrom(u: seq<nat>, n: nat)
    decreases |u| - n
  {
    n >= |u| || (u[n] == 1 && OnesFrom(u, n + 1))
  }

  /** `v` is `u` without its first `n` bits, both continued with ones for ever. */
  predicate Later(u: seq<nat>, v: seq<nat>, n: nat)
    decreases |v|
  {
    if v == [] then OnesFrom(u, n) else v[0] == At(u, n) && Later(u, v[1..], n + 1)
  }

  lemma {:induction false} OnesFromAt(u: seq<nat>, n: nat, i: nat)
    requires OnesFrom(u, n) && n <= i
    ensures At(u, i) == 1
    decreases i - n
  {
    if n < i && n < |u| {
      OnesFromAt(u, n + 1, i);
    }
  }

  lemma {:induction false} LaterAt(u: seq<nat>, v: seq<nat>, n: nat, i: nat)
    requires Later(u, v, n)
    ensures At(v, i) == At(u, n + i)
    decreases |v|
  {
    if v == [] {
      OnesFromAt(u, n, n + i);
    } else if i > 0 {
      LaterAt(u, v[1..], n + 1, i - 1);
    }
  }

  lemma {:induction false} OnesFromIntro(u: seq<nat>, n: nat)
    requires forall i :: n <= i < |u| ==> u[i] == 1
    ensures OnesFrom(u, n)
    decreases |u| - n
  {
    if n >= |u| {
    } else {
      OnesFromIntro(u, n + 1);
    }
  }

  lemma {:induction false} LaterIntro(u: seq<nat>, v: seq<nat>, n: nat)
    requires forall i: nat {:trigger At(v, i)} :: At(v, i) == At(u, n + i)
    ensures Later(u, v, n)
    decreases |v|
  {
    if v == [] {
      forall i | n <= i < |u| ensures u[i] == 1 {
        assert At(v, i - n) == At(u, n + (i - n));
      }
      OnesFromIntro(u, n);
    } else {
      assert At(v, 0) == At(u, n + 0);
      forall i: nat ensures At(v[1..], i) == At(u, n + 1 + i) {
        assert At(v, i + 1) == At(u, n + (i + 1));
      }
      LaterIntro(u, v[1..], n + 1);
    }
  }

  /** `r` is the number formed by the `n` bits of `u` after the first `from`, most significant first. */
  ghost predicate IsField(u: seq<nat>, from: nat, n: nat, r: nat) {
    r < Pow2(n) && forall j :: 0 <= j < n ==> Bit(r, j) == At(u, from + n - 1 - j)
  }

  /** Reading `a` and then `b` bits splits one reading of `a + b` bits. */
  lemma SplitField(u: seq<nat>, from: nat, a: nat, b: nat, r: nat, high: nat, low: nat)
    requires IsField(u, from, a + b, r) && IsField(u, from, a, high) && IsField(u, from + a, b, low)
    ensures r == Shl(high, b) + low
  {
    var joined := Or(low, Shl(high, b));
    forall j | 0 <= j < a + b ensures Bit(r, j) == Bit(joined, j) {
      JoinedBit(high, low, b, j);
    }
    JoinedBound(high, low, a, b);
    SameBits(r, joined, a + b);
  }

  lemma BitsOfAppend(x: nat, n: nat, b: nat, y: nat)
    requires n + 8 <= 32 && b < 256 && y == Or(b, Low(Shl(x, 8), 32))
    ensures y < WORD && BitsOf(y, n + 8) == BitsOf(x, n) + BitsOf(b, 8)
  {
    Pow2Literals();
    OrBound(b, Low(Shl(x, 8), 32), 32);
    forall i | 0 <= i < n + 8 ensures BitsOf(y, n + 8)[i] == (BitsOf(x, n) + BitsOf(b, 8))[i] {
      AppendedBit(x, b, n + 7 - i);
    }
  }

  lemma AppendedBit(x: nat, b: nat, j: nat)
    requires j < 32 && b < 256
    ensures Bit(Or(b, Low(Shl(x, 8), 32)), j) == if j < 8 then Bit(b, j) else Bit(x, j - 8)
  {
    Pow2Literals();
    BitOr(b, Low(Shl(x, 8), 32), j);
    BitLow(Shl(x, 8), 32, j);
    BitShl(x, 8, j);
    if j >= 8 {
      BitBeyond(b, 8, j);
    }
  }

  lemma LaterAgain(u: seq<nat>, v: seq<nat>, w: seq<nat>, a: nat, b: nat)
    requires Later(u, v, a) && Later(v, w, b)
    ensures Later(u, w, a + b)
  {
    forall i: nat ensures At(w, i) == At(u, a + b + i) {
      LaterAt(v, w, b, i);
      LaterAt(u, v, a, b + i);
    }
    LaterIntro(u, w, a + b);
  }

  lemma LaterDrop(u: seq<nat>, n: nat)
    requires n <= |u|
    ensures Later(u, u[n..], n) && Later(u, u, 0)
  {
    LaterIntro(u, u[n..], n);
    LaterIntro(u, u, 0);
  }

  lemma PaddingWithOnes(u: seq<nat>)
    ensures Later(u, u + BitsOf(0xFF, 8), 0)
  {
    forall i | 0 <= i < 8 ensures BitsOf(0xFF, 8)[i] == 1 {
      Pow2Literals();
      AllOnes(8, 7 - i);
    }
    LaterIntro(u, u + BitsOf(0xFF, 8), 0);
  }

  lemma {:induction false} AllOnes(s: nat, j: nat)
    requires j < s
    ensures Bit(Pow2(s) - 1, j) == 1
  {
    if j == 0 {
    } else {
      var x := Pow2(s) - 1;
      assert x / 2 == Pow2(s - 1) - 1;
      AllOnes(s - 1, j - 1);
    }
  }

  /** How unstuffed data begins. */
  lemma UnstuffOther(d: seq<nat>)
    requires d != [] && d[0] != 0xFF
    ensures BitsOfBytes(Unstuff(d)) == BitsOf(d[0], 8) + BitsOfBytes(Unstuff(d[1..])) && Clean(d) == Clean(d[1..])
  {
  }

  lemma UnstuffLast(d: seq<nat>)
    requires d != [] && d[0] == 0xFF && (|d| == 1 || d[1] == 0xD9)
    ensures BitsOfBytes(Unstuff(d)) == BitsOf(d[0], 8) && Clean(d) == (|d| > 1)
  {
  }

  lemma UnstuffRestart(d: seq<nat>)
    requires |d| > 1 && d[0] == 0xFF && IsRestart(d[1]) && d[1] != 0xD9
    ensures BitsOfBytes(Unstuff(d)) == BitsOf(d[0], 8) + BitsOf(d[1], 8) + BitsOfBytes(Unstuff(d[2..]))
    ensures Clean(d) == Clean(d[2..])
  {
    var tail := Unstuff(d[2..]);
    assert Unstuff(d) == [d[0], d[1]] + tail == [d[0]] + ([d[1]] + tail);
    BitsOfCons(d[0], [d[1]] + tail);
    BitsOfCons(d[1], tail);
    Associative(BitsOf(d[0], 8), BitsOf(d[1], 8), BitsOfBytes(tail));
  }

  lemma UnstuffDropped(d: seq<nat>)
    requires |d| > 1 && d[0] == 0xFF && !IsRestart(d[1]) && d[1] != 0xD9
    ensures BitsOfBytes(Unstuff(d)) == BitsOf(d[0], 8) + BitsOfBytes(Unstuff(d[2..]))
    ensures Clean(d) <==> (d[1] == 0x00 || d[1] == 0xFF) && Clean(d[2..])
  {
  }

  lemma BitsOfCons(b: nat, d: seq<nat>)
    ensures BitsOfBytes([b] + d) == BitsOf(b, 8) + BitsOfBytes(d)
  {
    assert ([b] + d)[1..] == d;
  }

  lemma DropBits(coded: seq<nat>, skipped: nat, x: nat, n: nat, k: nat, rest: seq<nat>)
    requires k <= n && Later(coded, BitsOf(x, n) + rest, skipped)
    ensures Later(coded, BitsOf(x, n - k) + rest, skipped + k)
  {
    LowerBits(x, n, n - k, rest);
    LaterAgain(coded, BitsOf(x, n) + rest, BitsOf(x, n - k) + rest, skipped, k);
  }

  lemma LowerBits(x: nat, n: nat, m: nat, rest: seq<nat>)
    requires m <= n
    ensures Later(BitsOf(x, n) + rest, BitsOf(x, m) + rest, n - m)
  {
    var u := BitsOf(x, n) + rest;
    assert BitsOf(x, m) + rest == u[n - m..];
    LaterDrop(u, n - m);
  }

  lemma Associative(a: seq<nat>, b: seq<nat>, c: seq<nat>)
    ensures a + b + c == a + (b + c)
  {}

  datatype Error = OK | SyntaxError | Unsupported

  /** `size` bytes of the data from `pos` on. */
  function Part(data: seq<nat>, pos: nat, size: int): seq<nat>
    requires size > 0 ==> pos + size <= |data|
  {
    if size > 0 then data[pos..pos + size] else []
  }

  /** The part of the decoder context `nj` that the bit reader uses. */
  class Reader {
    const data: seq<nat>
    var pos: nat
    var size: int
    var buf: nat
    var bufbits: nat
    var error: Error
    /** The bits of the entropy-coded data being read, how many of them have been skipped, and how many whole bytes have
        entered the word. */
    ghost var coded: seq<nat>
    ghost var skipped: nat
    ghost var loaded: nat

    constructor (data: seq<nat>)
      requires Bytes(data)
      ensures Valid() && this.data == data && pos == 0 && size == |data| && bufbits == 0 && error == OK
    {
      this.data := data;
      pos, size, buf, bufbits, error := 0, |data|, 0, 0, OK;
      coded, skipped, loaded := [], 0, 0;
    }

    ghost predicate Valid()
      reads this`pos, this`size, this`buf, this`bufbits
    {
      Bytes(data) && bufbits <= 31 && buf < WORD && (size > 0 ==> pos + size <= |data|)
    }

    /** Entropy-coded data is being read: what is unread is the coded data without the bits skipped. */
    ghost predicate Streaming()
      reads this`pos, this`size, this`buf, this`bufbits, this`coded, this`skipped, this`loaded
    {
      Valid() && skipped + bufbits == 8 * loaded && Later(coded, Unread(), skipped)
    }

    /** Reading of entropy-coded data begins at the current position. */
    ghost method Begin()
      requires Valid() && bufbits == 0
      modifies this`coded, this`skipped, this`loaded
      ensures Streaming() && coded == BitsOfBytes(Unstuff(Rest())) && skipped == 0
    {
      coded, skipped, loaded := BitsOfBytes(Unstuff(Rest())), 0, 0;
      assert Unread() == coded;
      LaterDrop(coded, 0);
    }

    function Rest(): seq<nat>
      requires size > 0 ==> pos + size <= |data|
      reads this`pos, this`size
    {
      Part(data, pos, size)
    }

    /** The bits not yet skipped: those in the word, then those of the rest of the data. */
    ghost function Unread(): seq<nat>
      requires size > 0 ==> pos + size <= |data|
      reads this`pos, this`size, this`buf, this`bufbits
    {
      BitsOf(buf, bufbits) + BitsOfBytes(Unstuff(Rest()))
    }

    method NextByte() returns (b: nat)
      requires Valid() && size > 0
      modifies this`pos, this`size
      ensures Valid() && size == old(size) - 1 && b == old(Rest())[0] < 256 && Rest() == old(Rest())[1..]
    {
      b := data[pos];
      pos := pos + 1;
      size := size - 1;
    }

    method Append(b: nat)
      requires Valid() && bufbits <= 23 && b < 256
      modifies this`buf, this`bufbits, this`loaded
      ensures Valid() && bufbits == old(bufbits) + 8 && loaded == old(loaded) + 1
      ensures BitsOf(buf, bufbits) == old(BitsOf(buf, bufbits)) + BitsOf(b, 8)
    {
      BitsOfAppend(buf, bufbits, b, Or(b, Low(Shl(buf, 8), 32)));
      buf := Or(b, Low(Shl(buf, 8), 32));
      bufbits := bufbits + 8;
      loaded := loaded + 1;
    }

    /** One iteration of the loop of `njShowBits`. */
    method Refill()
      requires Streaming() && bufbits < 16
      modifies this`pos, this`size, this`buf, this`bufbits, this`error, this`loaded
      ensures Streaming() && bufbits > old(bufbits)
      ensures old(Clean(Rest())) ==> Clean(Rest()) && error == old(error)
    {
      ghost var u := Unread();
      Load();
      LaterAgain(coded, u, Unread(), skipped, 0);
    }

    method Load()
      requires Valid() && bufbits < 16
      modifies this`pos, this`size, this`buf, this`bufbits, this`error, this`loaded
      ensures Valid() && bufbits > old(bufbits) && bufbits - old(bufbits) == 8 * (loaded - old(loaded))
      ensures Later(old(Unread()), Unread(), 0)
      ensures old(Clean(Rest())) ==> Clean(Rest()) && error == old(error)
    {
      ghost var rest, word := Rest(), BitsOf(buf, bufbits);
      if size <= 0 {
        PaddingWithOnes(word);
        Append(0xFF);
        assert Unread() == BitsOf(buf, bufbits) && old(Unread()) == word;
        return;
      }
      var newbyte := NextByte();
      Append(newbyte);
      if newbyte == 0xFF {
        Marker(rest, word);
      } else {
        UnstuffOther(rest);
      }
      assert Unread() == word + BitsOfBytes(Unstuff(rest));
      LaterDrop(Unread(), 0);
    }

    /** The rest of that iteration after a byte 0xFF, where `rest` was unread and the word held `word`. */
    method Marker(ghost rest: seq<nat>, ghost word: seq<nat>)
      requires Valid() && bufbits <= 23 && rest != [] && rest[0] == 0xFF && Rest() == rest[1..] && size >= 0
      requires BitsOf(buf, bufbits) == word + BitsOf(rest[0], 8)
      modifies this`pos, this`size, this`buf, this`bufbits, this`error, this`loaded
      ensures Valid() && bufbits >= old(bufbits) && bufbits - old(bufbits) == 8 * (loaded - old(loaded))
      ensures Unread() == word + BitsOfBytes(Unstuff(rest))
      ensures Clean(rest) ==> Clean(Rest()) && error == old(error)
    {
      if size == 0 {
        UnstuffLast(rest);
        error := SyntaxError;
        assert Unread() == BitsOf(buf, bufbits);
        return;
      }
      var marker := NextByte();
      assert rest[1..][0] == rest[1] && rest[1..][1..] == rest[2..];
      var restart := IsRestartMarker(marker);
      if marker == 0xD9 {
        UnstuffLast(rest);
        size := 0;
        assert Unread() == BitsOf(buf, bufbits);
      } else if restart {
        RestartMarker(rest, word, marker);
      } else {
        UnstuffDropped(rest);
        Associative(word, BitsOf(rest[0], 8), BitsOfBytes(Unstuff(rest[2..])));
        if marker != 0x00 && marker != 0xFF {
          error := SyntaxError;
        }
      }
    }

    method RestartMarker(ghost rest: seq<nat>, ghost word: seq<nat>, marker: nat)
      requires Valid() && bufbits <= 23 && |rest| > 1 && rest[0] == 0xFF && Rest() == rest[2..]
      requires marker == rest[1] < 256 && IsRestart(marker) && marker != 0xD9
      requires BitsOf(buf, bufbits) == word + BitsOf(rest[0], 8)
      modifies this`buf, this`bufbits, this`loaded
      ensures Valid() && bufbits == old(bufbits) + 8 && loaded == old(loaded) + 1 && Clean(rest) == Clean(Rest())
      ensures Unread() == word + BitsOfBytes(Unstuff(rest))
    {
      UnstuffRestart(rest);
      Append(marker);
      Associative(word, BitsOf(rest[0], 8), BitsOf(rest[1], 8));
      Associative(word, BitsOf(rest[0], 8) + BitsOf(rest[1], 8), BitsOfBytes(Unstuff(rest[2..])));
    }

    /** `njShowBits`: the next bits, without skipping them. */
    method ShowBits(bits: nat) returns (r: nat)
      requires Streaming() && bits <= 16
      modifies this`pos, this`size, this`buf, this`bufbits, this`error, this`loaded
      ensures Streaming() && bits <= bufbits && IsField(coded, skipped, bits, r)
      ensures old(Clean(Rest())) ==> Clean(Rest()) && error == old(error)
    {
      if bits == 0 {
        return 0;
      }
      while bufbits < bits
        invariant Streaming()
        invariant old(Clean(Rest())) ==> Clean(Rest()) && error == old(error)
        decreases bits - bufbits
      {
        Refill();
      }
      r := And(Shr(buf, bufbits - bits), Pow2(bits) - 1);
      WordField(buf, bufbits, bits, r);
      FieldAhead(coded, skipped, buf, bufbits, BitsOfBytes(Unstuff(Rest())), bits, r);
    }

    method SkipBits(bits: nat)
      requires Streaming() && bits <= 16
      modifies this`pos, this`size, this`buf, this`bufbits, this`error, this`loaded, this`skipped
      ensures Streaming() && skipped == old(skipped) + bits
      ensures old(Clean(Rest())) ==> Clean(Rest()) && error == old(error)
    {
      if bufbits < bits {
        var _ := ShowBits(bits);
      }
      Drop(bits);
    }

    /** `nj.bufbits -= bits` */
    method Drop(bits: nat)
      requires Streaming() && bits <= bufbits
      modifies this`bufbits, this`skipped
      ensures Streaming() && bufbits == old(bufbits) - bits && skipped == old(skipped) + bits
    {
      DropBits(coded, skipped, buf, bufbits, bits, BitsOfBytes(Unstuff(Rest())));
      bufbits := bufbits - bits;
      skipped := skipped + bits;
    }

    method GetBits(bits: nat) returns (r: nat)
      requires Streaming() && bits <= 16
      modifies this`pos, this`size, this`buf, this`bufbits, this`error, this`loaded, this`skipped
      ensures Streaming() && skipped == old(skipped) + bits && IsField(coded, old(skipped), bits, r)
      ensures old(Clean(Rest())) ==> Clean(Rest()) && error == old(error)
    {
      r := ShowBits(bits);
      SkipBits(bits);
    }

    /** `njByteAlign`: skip to the next byte boundary of the unstuffed data; less than a byte is skipped. */
    method ByteAlign()
      requires Streaming()
      modifies this`bufbits, this`skipped
      ensures Streaming() && skipped == 8 * (loaded - old(bufbits) / 8) && old(skipped) <= skipped < old(skipped) + 8
    {
      var m := WholeBytes(bufbits);
      Drop(bufbits - m);
    }
  }

  lemma FieldAhead(coded: seq<nat>, skipped: nat, buf: nat, bufbits: nat, rest: seq<nat>, bits: nat, r: nat)
    requires bits <= bufbits && Later(coded, BitsOf(buf, bufbits) + rest, skipped) && r < Pow2(bits)
    requires forall j :: 0 <= j < bits ==> Bit(r, j) == BitsOf(buf, bufbits)[bits - 1 - j]
    ensures IsField(coded, skipped, bits, r)
  {
    var u := BitsOf(buf, bufbits) + rest;
    forall j | 0 <= j < bits ensures Bit(r, j) == At(coded, skipped + bits - 1 - j) {
      assert At(u, bits - 1 - j) == BitsOf(buf, bufbits)[bits - 1 - j];
      LaterAt(coded, u, skipped, bits - 1 - j);
    }
  }

  lemma WordField(buf: nat, bufbits: nat, bits: nat, r: nat)
    requires bits <= bufbits && r == And(Shr(buf, bufbits - bits), Pow2(bits) - 1)
    ensures r < Pow2(bits) && forall j :: 0 <= j < bits ==> Bit(r, j) == BitsOf(buf, bufbits)[bits - 1 - j]
  {
    AndMask(Shr(buf, bufbits - bits), bits);
    forall j | 0 <= j < bits ensures Bit(r, j) == BitsOf(buf, bufbits)[bits - 1 - j] {
      BitLow(Shr(buf, bufbits - bits), bits, j);
      BitShr(buf, bufbits - bits, j);
    }
  }

  lemma MaskF8(x: nat)
    requires x < 256
    ensures And(x, 0xF8) == x - x % 8
  {
    AndShl(x, 31, 3);
    Thrice(x);
    Thrice(31);
    Thrice(x / 8);
    LowFive(x / 8, 31);
  }

  /** `(marker & 0xF8) == 0xD0` */
  method IsRestartMarker(marker: nat) returns (b: bool)
    requires marker < 256
    ensures b <==> IsRestart(marker)
  {
    MaskF8(marker);
    b := And(marker, 0xF8) == 0xD0;
  }

  /** `n & 0xF8` */
  method WholeBytes(n: nat) returns (m: nat)
    requires n < 256
    ensures m == n - n % 8
  {
    MaskF8(n);
    m := And(n, 0xF8);
  }

  lemma Thrice(x: nat)
    ensures Shr(x, 3) == x / 8 && Shl(x, 3) == 8 * x
  {
    assert Shr(x, 3) == Shr(x / 2, 2) == Shr(x / 2 / 2, 1) == x / 2 / 2 / 2;
    assert Shl(x, 3) == 2 * Shl(x, 2) && Shl(x, 2) == 2 * Shl(x, 1) && Shl(x, 1) == 2 * x;
  }

  lemma LowFive(x: nat, m: nat)
    requires x < 32 && m == 31
    ensures And(x, m) == x
  {
    Pow2Literals();
    AndMask(x, 5);
    LowOfSmall(x, 5);
  }
}

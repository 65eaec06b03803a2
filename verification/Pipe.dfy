/** The pipe of pipe.c over the ring of ringbuf.c.  What runs under the pipe's lock, from taking it to a return or a
    wait, is one step. */
module Pipe {
  import opened Common

  const PIPESZ := 512

  /** The place in the buffer does not see the counters wrap, because the size divides 2^32. */
  lemma WrapKeepsIndex(c: nat, i: nat)
    ensures (c % WORD + i) % PIPESZ == (c + i) % PIPESZ
  {
  }

  lemma WrapNext(c: nat)
    ensures (c % WORD + 1) % WORD == (c + 1) % WORD
  {
  }

  /** `ringbuf_available`, from the counters alone. */
  function Available(head: nat, tail: nat): nat
    requires head < WORD
  {
    if tail >= head then tail - head else (tail + PIPESZ + WORD - head) % WORD
  }

  /** It gives the count exactly while the tail is not behind the head, and says full exactly when it is also full. */
  lemma AvailableIsCount(head: nat, tail: nat, count: nat)
    requires head < WORD && count <= PIPESZ && tail == (head + count) % WORD
    ensures Available(head, tail) == count <==> head <= tail
    ensures Available(head, tail) == PIPESZ <==> count == PIPESZ && head <= tail
  {
  }

  /** With this head, the tail of a full ring has wrapped. */
  predicate WrapsFull(head: nat) {
    head + PIPESZ >= WORD
  }

  /** A full ring whose tail has wrapped is not seen as full. */
  lemma FullButUnseen()
    ensures var head, count := WORD - 1, PIPESZ;
      var tail := (head + count) % WORD;
      WrapsFull(head) && Available(head, tail) == 2 * PIPESZ
  {
  }

  /** The `count` bytes from `head` on, round the end of the buffer. */
  function Slice(bytes: seq<byte>, head: nat, count: nat): (c: seq<byte>)
    requires |bytes| == PIPESZ
    ensures |c| == count
  {
    seq(count, i requires 0 <= i => bytes[(head + i) % PIPESZ])
  }

  lemma SliceRest(bytes: seq<byte>, head: nat, count: nat)
    requires |bytes| == PIPESZ && count > 0
    ensures Slice(bytes, head, count) == [bytes[head % PIPESZ]] + Slice(bytes, (head + 1) % WORD, count - 1)
  {
    var rest := Slice(bytes, (head + 1) % WORD, count - 1);
    forall i: nat | i < |rest| ensures rest[i] == Slice(bytes, head, count)[i + 1] {
      WrapKeepsIndex(head + 1, i);
    }
  }

  lemma SliceMore(bytes: seq<byte>, head: nat, count: nat, b: byte)
    requires |bytes| == PIPESZ && count < PIPESZ
    ensures Slice(bytes[(head + count) % WORD % PIPESZ := b], head, count + 1) == Slice(bytes, head, count) + [b]
  {
  }

  class Ring {
    const buf: array<byte>
    var head: nat
    var tail: nat
    var count: nat

    constructor ()
      ensures Valid() && fresh(buf) && Contents() == []
    {
      buf := new byte[PIPESZ](_ => 0);
      head, tail, count := 0, 0, 0;
    }

    ghost predicate Valid()
      reads this
    {
      buf.Length == PIPESZ && head < WORD && count <= PIPESZ && tail == (head + count) % WORD
    }

    ghost function Contents(): (c: seq<byte>)
      requires Valid()
      reads this, buf
    {
      Slice(buf[..], head, count)
    }

    method Get() returns (b: byte)
      requires Valid() && count > 0
      modifies this
      ensures Valid() && [b] + Contents() == old(Contents())
    {
      b := buf[head % PIPESZ];
      SliceRest(buf[..], head, count);
      head := (head + 1) % WORD;
      count := count - 1;
    }

    method Put(b: byte)
      requires Valid() && count < PIPESZ
      modifies this, buf
      ensures Valid() && Contents() == old(Contents()) + [b] && head == old(head)
    {
      SliceMore(buf[..], head, count, b);
      WrapNext(head + count);
      buf[tail % PIPESZ] := b;
      assert buf[..] == old(buf[..])[tail % PIPESZ := b];
      tail := (tail + 1) % WORD;
      count := count + 1;
    }

    /** What the writer asks before it waits. */
    method SeemsFull() returns (full: bool)
      requires Valid()
      ensures full <==> count == PIPESZ && !WrapsFull(head)
    {
      AvailableIsCount(head, tail, count);
      full := Available(head, tail) == PIPESZ;
    }

    /** Takes bytes from the front, as many as wanted or there. */
    method Read(n: nat) returns (out: seq<byte>)
      requires Valid()
      modifies this
      ensures Valid() && |out| == Min(n, |old(Contents())|) && out + Contents() == old(Contents())
    {
      out := [];
      ghost var before := Contents();
      while |out| < n
        invariant Valid() && |out| <= n && out + Contents() == before
      {
        if count == 0 {
          break;
        }
        var b := Get();
        out := out + [b];
      }
    }

    /** Adds bytes at the back, as many as offered or fit. */
    method Write(src: seq<byte>) returns (n: nat)
      requires Valid()
      modifies this, buf
      ensures Valid() && n == Min(|src|, PIPESZ - old(count)) && Contents() == old(Contents()) + src[..n]
      ensures head == old(head)
    {
      n := 0;
      ghost var before := Contents();
      while n < |src|
        invariant Valid() && n <= |src| && Contents() == before + src[..n] && head == old(head)
      {
        if count == PIPESZ {
          break;
        }
        Put(src[n]);
        n := n + 1;
      }
    }
  }

  /** How a step of a call ends: with a result, waiting, or going round for ever with the lock held. */
  datatype Outcome = Returned(n: int) | Waits | Spins

  lemma SplitTwice(src: seq<byte>, done: nat, n: nat, more: nat)
    requires done + n + more <= |src|
    ensures src[done + n..][..more] == src[done + n..done + n + more]
    ensures src[done..done + n] + src[done + n..done + n + more] == src[done..done + n + more]
  {
  }

  /** How a writer's step ends with `at` of `total` bytes written: a full ring whose tail has wrapped is not seen. */
  function WriterEnds(at: nat, total: nat, wrapped: bool, ropen: bool): Outcome {
    if at == total then Returned(total)
    else if wrapped then Spins
    else if ropen then Waits
    else Returned(if at == 0 then -EPIPE else at)
  }

  class Channel {
    const ring: Ring
    var ropen: bool
    var wopen: bool
    /** All bytes taken from writers and given to readers so far. */
    ghost var accepted: seq<byte>
    ghost var delivered: seq<byte>

    constructor ()
      ensures Valid() && accepted == [] && fresh(ring) && fresh(ring.buf) && ropen && wopen
    {
      ring := new Ring();
      ropen, wopen, accepted, delivered := true, true, [], [];
    }

    ghost predicate Valid()
      reads this, ring, ring.buf
    {
      ring.Valid() && delivered + ring.Contents() == accepted
    }

    /** A reader's step: from the start of the call or, if woken, from behind its wait. */
    method ReadStep(size: nat, got: nat, woken: bool) returns (r: Outcome, out: seq<byte>)
      requires Valid() && got <= size
      modifies this`delivered, ring
      ensures Valid() && delivered == old(delivered) + out
      ensures |out| == Min(size - got, |old(ring.Contents())|)
      ensures r == if got + |out| == size then Returned(size)
                   else if wopen then Waits
                   else if got + |out| == 0 then Returned(-EPIPE)
                   else Returned(got + |out|)
    {
      out := [];
      if woken {
        out := Take(size - got);
      }
      while got + |out| < size
        invariant Valid() && delivered == old(delivered) + out && accepted == old(accepted)
        invariant out + ring.Contents() == old(ring.Contents()) && got + |out| <= size
      {
        if ring.count == 0 {
          if !wopen {
            return Returned(if got + |out| == 0 then -EPIPE else got + |out|), out;
          }
          return Waits, out;
        }
        var more := Take(size - got - |out|);
        out := out + more;
      }
      r := Returned(got + |out|);
    }

    method Take(n: nat) returns (out: seq<byte>)
      requires Valid()
      modifies this`delivered, ring
      ensures Valid() && delivered == old(delivered) + out
      ensures |out| == Min(n, |old(ring.Contents())|) && out + ring.Contents() == old(ring.Contents())
    {
      out := ring.Read(n);
      delivered := delivered + out;
    }

    method Give(src: seq<byte>) returns (n: nat)
      requires Valid()
      modifies this`accepted, ring, ring.buf
      ensures Valid() && n == Min(|src|, PIPESZ - old(ring.count)) && accepted == old(accepted) + src[..n]
      ensures ring.count == old(ring.count) + n && ring.head == old(ring.head)
    {
      n := ring.Write(src);
      accepted := accepted + src[..n];
    }

    /** Gives from a place on, after the bytes from `done` on have been given since `base`. */
    method GiveFrom(src: seq<byte>, at: nat, ghost done: nat, ghost base: seq<byte>) returns (n: nat)
      requires Valid() && done <= at <= |src| && accepted == base + src[done..at]
      modifies this`accepted, ring, ring.buf
      ensures Valid() && n == Min(|src| - at, PIPESZ - old(ring.count)) && accepted == base + src[done..at + n]
      ensures ring.count == old(ring.count) + n && ring.head == old(ring.head)
    {
      n := Give(src[at..]);
      SplitTwice(src, done, at - done, n);
    }

    /** The writer's loop: writes what fits, until all is written or the ring is full. */
    method WriteLoop(src: seq<byte>, start: nat, ghost done: nat, ghost base: seq<byte>) returns (r: Outcome, at: nat)
      requires Valid() && done <= start <= |src| && accepted == base + src[done..start]
      modifies this`accepted, ring, ring.buf
      ensures Valid() && start <= at <= |src| && accepted == base + src[done..at]
      ensures at == start + Min(|src| - start, PIPESZ - old(ring.count)) && ring.head == old(ring.head)
      ensures r == WriterEnds(at, |src|, WrapsFull(old(ring.head)), ropen)
    {
      at := start;
      while at < |src|
        invariant Valid() && start <= at <= |src| && accepted == base + src[done..at]
        invariant ring.count == old(ring.count) + at - start && ring.head == old(ring.head)
      {
        var full := ring.SeemsFull();
        if full {
          if !ropen {
            return Returned(if at == 0 then -EPIPE else at), at;
          }
          return Waits, at;
        }
        var more := GiveFrom(src, at, done, base);
        if more == 0 {
          return Spins, at;
        }
        at := at + more;
      }
      r := Returned(at);
    }

    /** A writer's step: from the start of the call or, if woken, from behind its wait. */
    method WriteStep(src: seq<byte>, done: nat, woken: bool) returns (r: Outcome, n: nat)
      requires Valid() && done <= |src|
      modifies this`accepted, ring, ring.buf
      ensures Valid() && done + n <= |src| && accepted == old(accepted) + src[done..done + n]
      ensures n == Min(|src| - done, PIPESZ - old(ring.count))
      ensures r == WriterEnds(done + n, |src|, WrapsFull(old(ring.head)), ropen)
      ensures r == Spins <==> |src| - done > PIPESZ - old(ring.count) && WrapsFull(old(ring.head))
    {
      n := 0;
      if woken {
        n := GiveFrom(src, done, done, accepted);
      }
      var at;
      r, at := WriteLoop(src, done + n, done, old(accepted));
      n := at - done;
    }

    method Close(writable: bool) returns (freed: bool)
      requires Valid()
      modifies this`ropen, this`wopen
      ensures Valid() && wopen == (old(wopen) && !writable) && ropen == (old(ropen) && writable)
      ensures freed <==> !ropen && !wopen
    {
      if writable {
        wopen := false;
      } else {
        ropen := false;
      }
      freed := !ropen && !wopen;
    }
  }

  lemma Conserved(start: seq<byte>, got: seq<byte>, now: seq<byte>, before: seq<byte>, added: seq<byte>)
    requires start + got + now == start + before + added
    ensures got + now == before + added
  {
    assert (start + got + now)[|start|..] == got + now;
    assert (start + before + added)[|start|..] == before + added;
  }

  datatype Event = ReaderRuns | WriterRuns | ReadEndCloses | WriteEndCloses

  /** A writer of `src` and a reader of `size` bytes, run in any order: at every moment the bytes read and then the
      bytes in the ring are what was in the ring and then the bytes written. */
  method Transfer(p: Channel, src: seq<byte>, size: nat, schedule: seq<Event>)
      returns (got: seq<byte>, done: nat, reader: Outcome, writer: Outcome)
    requires p.Valid()
    modifies p, p.ring, p.ring.buf
    ensures p.Valid() && done <= |src| && |got| <= size
    ensures got + p.ring.Contents() == old(p.ring.Contents()) + src[..done]
    ensures |p.ring.Contents()| <= PIPESZ
    ensures writer.Returned? ==> writer.n == done || (writer.n == -EPIPE && done == 0)
    ensures reader.Returned? ==> reader.n == |got| || (reader.n == -EPIPE && got == [])
  {
    got, done, reader, writer := [], 0, Waits, Waits;
    var readerWaited, writerWaited := false, false;
    for i := 0 to |schedule|
      invariant p.Valid() && done <= |src| && |got| <= size
      invariant p.delivered == old(p.delivered) + got && p.accepted == old(p.accepted) + src[..done]
      invariant writer.Returned? ==> writer.n == done || (writer.n == -EPIPE && done == 0)
      invariant reader.Returned? ==> reader.n == |got| || (reader.n == -EPIPE && got == [])
    {
      match schedule[i]
      case ReaderRuns =>
        if reader == Waits && writer != Spins {
          var out;
          reader, out := p.ReadStep(size, |got|, readerWaited);
          got, readerWaited := got + out, true;
        }
      case WriterRuns =>
        if writer == Waits {
          var n;
          writer, n := p.WriteStep(src, done, writerWaited);
          assert src[..done] + src[done..done + n] == src[..done + n];
          done, writerWaited := done + n, true;
        }
      case ReadEndCloses =>
        var freed := p.Close(false);
      case WriteEndCloses =>
        var freed := p.Close(true);
    }
    Conserved(old(p.delivered), got, p.ring.Contents(), old(p.ring.Contents()), src[..done]);
  }

  /** One step of some reader or writer, or a closing. */
  datatype Step =
    | ReadBy(size: nat, got: nat, again: bool)
    | WriteBy(src: seq<byte>, done: nat, again: bool)
    | CloseEnd(writable: bool)

  function Joined(parts: seq<seq<byte>>): seq<byte> {
    if parts == [] then [] else Joined(parts[..|parts| - 1]) + parts[|parts| - 1]
  }

  /** What was delivered and accepted since two moments. */
  ghost predicate Since(p: Channel, d: seq<byte>, outs: seq<seq<byte>>, a: seq<byte>, ins: seq<seq<byte>>)
    reads p, p.ring, p.ring.buf
  {
    p.Valid() && p.delivered == d + Joined(outs) && p.accepted == a + Joined(ins)
  }

  lemma JoinedMore(base: seq<byte>, parts: seq<seq<byte>>, part: seq<byte>)
    ensures base + Joined(parts + [part]) == base + Joined(parts) + part
  {
    assert (parts + [part])[..|parts|] == parts;
  }

  method RunReader(p: Channel, size: nat, got: nat, again: bool, outs: seq<seq<byte>>,
      ghost d: seq<byte>, ghost a: seq<byte>, ghost ins: seq<seq<byte>>)
      returns (outs': seq<seq<byte>>)
    requires Since(p, d, outs, a, ins) && got <= size
    modifies p`delivered, p.ring
    ensures Since(p, d, outs', a, ins)
  {
    var r, out := p.ReadStep(size, got, again);
    JoinedMore(d, outs, out);
    outs' := outs + [out];
  }

  method RunWriter(p: Channel, src: seq<byte>, done: nat, again: bool, ins: seq<seq<byte>>,
      ghost d: seq<byte>, ghost a: seq<byte>, ghost outs: seq<seq<byte>>)
      returns (ins': seq<seq<byte>>, stuck: bool)
    requires Since(p, d, outs, a, ins) && done <= |src|
    modifies p`accepted, p.ring, p.ring.buf
    ensures Since(p, d, outs, a, ins')
  {
    var r, n := p.WriteStep(src, done, again);
    JoinedMore(a, ins, src[done..done + n]);
    ins' := ins + [src[done..done + n]];
    stuck := r == Spins;
  }

  /** Any number of readers and writers, their steps in any order: what they read, in order, and then the ring is the
      ring before and then what they wrote, in order. */
  method Interleave(p: Channel, steps: seq<Step>) returns (outs: seq<seq<byte>>, ins: seq<seq<byte>>)
    requires p.Valid()
    modifies p, p.ring, p.ring.buf
    ensures p.Valid() && Joined(outs) + p.ring.Contents() == old(p.ring.Contents()) + Joined(ins)
  {
    outs, ins := [], [];
    ghost var d, a := p.delivered, p.accepted;
    for i := 0 to |steps|
      invariant Since(p, d, outs, a, ins)
    {
      match steps[i]
      case ReadBy(size, got, again) =>
        if got <= size {
          outs := RunReader(p, size, got, again, outs, d, a, ins);
        }
      case WriteBy(src, done, again) =>
        if done <= |src| {
          var stuck;
          ins, stuck := RunWriter(p, src, done, again, ins, d, a, outs);
          if stuck {
            break;
          }
        }
      case CloseEnd(writable) =>
        var freed := p.Close(writable);
    }
    Conserved(d, Joined(outs), p.ring.Contents(), old(p.ring.Contents()), Joined(ins));
  }
}

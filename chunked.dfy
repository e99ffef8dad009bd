/** The chunked transfers of src/buf.rs: `Buf::consume` pulls every remaining
    byte of an endpoint through a 4096-byte scratch region into a step
    function, and `BufMut::fill` pushes what a step function produces through
    the same kind of region into an endpoint. Each is stated first as a
    recursive function over the rounds of its loop. */
module Chunked {
  import opened IoTypes
  import opened SliceRead

  /** `IO_BUF_SIZE`, the size of the scratch region. */
  const IoBufSize: nat := 4096

  /** A pull step `f`: given how many bytes it has accepted so far and the
      chunk offered, it says how many of them it accepts, or fails. */
  type Accept = (nat, seq<byte>) -> Result<nat>

  /** A step that never claims more bytes than it was offered. */
  ghost predicate AcceptsAtMostOffered(f: Accept) {
    forall count, chunk :: f(count, chunk).Ok? ==> f(count, chunk).value <= |chunk|
  }

  function Concat(chunks: seq<seq<byte>>): seq<byte> {
    if chunks == [] then [] else chunks[0] + Concat(chunks[1..])
  }

  /** The outcome of a pull: the result, how many bytes were read from the
      endpoint, and the chunks offered to the step, in order. */
  datatype Pulled = Pulled(result: Result<nat>, taken: nat, offered: seq<seq<byte>>)

  /** The rounds of `Buf::consume` from the point where `count` bytes have
      been accepted; `data` is the endpoint's content at the start, so
      `|data|` is `remaining()`. While the loop runs, the bytes read equal the
      bytes accepted, so each round reads `data` from `count` on. */
  function Pull(data: seq<byte>, f: Accept, count: nat): (t: Pulled)
    requires AcceptsAtMostOffered(f) && count <= |data|
    ensures count <= t.taken <= |data|
    decreases |data| - count
  {
    var len := Min(IoBufSize, |data| - count);
    if len == 0 then
      Pulled(Ok(count), count, [])
    else
      var chunk := data[count..count + len];
      match f(count, chunk)
      case Err(e) => Pulled(Err(e), count + len, [chunk])
      case Ok(read) =>
        if read < len then
          Pulled(Ok(count + read), count + len, [chunk])
        else
          var rest := Pull(data, f, count + len);
          Pulled(rest.result, rest.taken, [chunk] + rest.offered)
  }

  /** What a pull promises about the endpoint: it never reads past
      `remaining()`, and the chunks the step saw are the bytes read, in order. */
  lemma {:induction false} PullOffersWhatItReads(data: seq<byte>, f: Accept, count: nat)
    requires AcceptsAtMostOffered(f) && count <= |data|
    ensures var t := Pull(data, f, count);
            Concat(t.offered) == data[count..t.taken]
    decreases |data| - count
  {
    var len := Min(IoBufSize, |data| - count);
    if len > 0 {
      var chunk := data[count..count + len];
      PullRound(data, f, count, len);
      var t := Pull(data, f, count);
      if f(count, chunk).Ok? && f(count, chunk).value >= len {
        PullOffersWhatItReads(data, f, count + len);
        var rest := Pull(data, f, count + len);
        assert t.offered[1..] == rest.offered;
        assert data[count..rest.taken] == chunk + data[count + len..rest.taken];
      } else {
        assert Concat([chunk]) == chunk + Concat([]);
      }
    }
  }

  /** What a pull promises about the step: no chunk it sees is empty or
      longer than the scratch region, and the count returned is at most the
      bytes read. */
  lemma {:induction false} PullBounds(data: seq<byte>, f: Accept, count: nat)
    requires AcceptsAtMostOffered(f) && count <= |data|
    ensures var t := Pull(data, f, count);
            && (forall i :: 0 <= i < |t.offered| ==> 0 < |t.offered[i]| <= IoBufSize)
            && (t.result.Ok? ==> count <= t.result.value <= t.taken)
    decreases |data| - count
  {
    var len := Min(IoBufSize, |data| - count);
    if len > 0 {
      PullRound(data, f, count, len);
      var a := f(count, data[count..count + len]);
      if a.Ok? && a.value >= len {
        PullBounds(data, f, count + len);
      }
    }
  }

  /** A step that takes everything it is offered makes the pull move all of
      `data`, in chunks of at most 4096 bytes. */
  lemma {:induction false} PullAcceptingAll(data: seq<byte>, f: Accept, count: nat)
    requires AcceptsAtMostOffered(f) && count <= |data|
    requires forall c, chunk :: f(c, chunk) == Ok(|chunk|)
    ensures Pull(data, f, count).result == Ok(|data|)
    ensures Pull(data, f, count).taken == |data|
    decreases |data| - count
  {
    if count < |data| {
      PullAcceptingAll(data, f, count + Min(IoBufSize, |data| - count));
    }
  }

  /** One round of `Pull`, by what the step answered. */
  lemma PullRound(data: seq<byte>, f: Accept, count: nat, len: nat)
    requires AcceptsAtMostOffered(f) && count < |data|
    requires len == Min(IoBufSize, |data| - count)
    ensures var a := f(count, data[count..count + len]);
            var t := Pull(data, f, count);
            && (a.Err? ==> t.result == Err(a.error) && t.taken == count + len)
            && (a.Ok? && a.value < len ==> t.result == Ok(count + a.value) && t.taken == count + len)
            && (a.Err? || a.value < len ==> t.offered == [data[count..count + len]])
            && (a.Ok? && a.value >= len ==>
                  a.value == len && t.result == Pull(data, f, count + len).result
                  && t.taken == Pull(data, f, count + len).taken
                  && t.offered == [data[count..count + len]] + Pull(data, f, count + len).offered)
  {
  }

  /** `Buf::consume` over a byte-slice endpoint. */
  method Consume(src: SliceReader, f: Accept) returns (r: Result<nat>)
    requires AcceptsAtMostOffered(f)
    modifies src
    ensures r == Pull(old(src.data), f, 0).result
    ensures src.data == old(src.data)[Pull(old(src.data), f, 0).taken..]
  {
    var size := |src.data|;
    var buf := new byte[IoBufSize];
    var count := 0;
    ghost var data := src.data;
    while true
      invariant count <= size == |data| && src.data == data[count..]
      invariant Pull(data, f, count).result == Pull(data, f, 0).result
      invariant Pull(data, f, count).taken == Pull(data, f, 0).taken
      decreases size - count
    {
      var stop, next;
      stop, r, next := ConsumeRound(src, buf, f, data, size, count);
      if stop {
        return;
      }
      count := next;
    }
  }

  /** One round of the `consume` loop from `count`: either the loop ends
      with `r` after reading what `Pull` says it reads, or it moves on to
      `next` with the same outcome ahead. */
  method ConsumeRound(src: SliceReader, buf: array<byte>, f: Accept, ghost data: seq<byte>, size: nat, count: nat)
    returns (stop: bool, r: Result<nat>, next: nat)
    requires AcceptsAtMostOffered(f) && buf.Length == IoBufSize
    requires count <= size == |data| && src.data == data[count..]
    modifies src, buf
    ensures stop ==> r == Pull(data, f, count).result && src.data == data[Pull(data, f, count).taken..]
    ensures !stop ==> count < next <= size && src.data == data[next..]
                      && Pull(data, f, next).result == Pull(data, f, count).result
                      && Pull(data, f, next).taken == Pull(data, f, count).taken
  {
    next := count;
    var len := Min(buf.Length, size - count);
    if len == 0 {
      return true, Ok(count), next;
    }
    var _ := src.Read(buf, len);
    assert buf[..len] == data[count..count + len] && src.data == data[count + len..];
    var read := f(count, buf[..len]);
    PullRound(data, f, count, len);
    if read.Err? {
      return true, Err(read.error), next;
    }
    next := count + read.value;
    stop := read.value < len;
    r := Ok(next);
  }

  /** A push step `f`: given how many bytes it has produced so far and how
      many it may produce now, it returns the bytes it wrote into the
      scratch region, or fails. */
  type Produce = (nat, nat) -> Result<seq<byte>>

  /** A step that never produces more bytes than it was allowed. */
  ghost predicate ProducesAtMostAllowed(f: Produce) {
    forall count, len :: f(count, len).Ok? ==> |f(count, len).value| <= len
  }

  /** The outcome of a push: the result and the bytes written to the
      endpoint, chunk by chunk. */
  datatype Pushed = Pushed(result: Result<nat>, written: seq<seq<byte>>)

  /** The rounds of `BufMut::fill` from the point where `count` bytes have
      been produced, towards an endpoint that could take `size` bytes. */
  function Push(size: nat, f: Produce, count: nat): (t: Pushed)
    requires ProducesAtMostAllowed(f) && count <= size
    decreases size - count
  {
    var len := Min(IoBufSize, size - count);
    if len == 0 then
      Pushed(Ok(count), [])
    else
      match f(count, len)
      case Err(e) => Pushed(Err(e), [])
      case Ok(produced) =>
        if |produced| < len then
          Pushed(Ok(count + |produced|), [produced])
        else
          var rest := Push(size, f, count + len);
          Pushed(rest.result, [produced] + rest.written)
  }

  /** What a push promises: it never writes more than the endpoint had room
      for at the start, no chunk is longer than the scratch region, and the
      count it returns is exactly the bytes written. */
  lemma {:induction false} PushBounds(size: nat, f: Produce, count: nat)
    requires ProducesAtMostAllowed(f) && count <= size
    ensures var t := Push(size, f, count);
            && |Concat(t.written)| <= size - count
            && (forall i :: 0 <= i < |t.written| ==> |t.written[i]| <= IoBufSize)
            && (t.result.Ok? ==> t.result.value == count + |Concat(t.written)|)
    decreases size - count
  {
    var len := Min(IoBufSize, size - count);
    if len > 0 && f(count, len).Ok? {
      var p := f(count, len).value;
      if |p| >= len {
        PushBounds(size, f, count + len);
        var rest := Push(size, f, count + len);
        assert Push(size, f, count).written == [p] + rest.written;
        assert ([p] + rest.written)[1..] == rest.written;
      } else {
        assert Concat([p]) == p + Concat([p][1..]);
      }
    }
  }

  /** An endpoint for `BufMut::fill`: a writer with `room` bytes left that
      takes as much of each write as fits. */
  class Sink {
    var out: seq<byte>
    var room: nat

    constructor (room: nat)
      ensures out == [] && this.room == room
    {
      out := [];
      this.room := room;
    }

    method Write(src: seq<byte>) returns (n: nat)
      modifies this
      ensures n == Min(|src|, old(room)) && room == old(room) - n
      ensures out == old(out) + src[..n]
    {
      n := Min(|src|, room);
      out := out + src[..n];
      room := room - n;
    }
  }

  /** `BufMut::fill` towards a sink. */
  method Fill(dst: Sink, f: Produce) returns (r: Result<nat>)
    requires ProducesAtMostAllowed(f)
    modifies dst
    ensures r == Push(old(dst.room), f, 0).result
    ensures dst.out == old(dst.out) + Concat(Push(old(dst.room), f, 0).written)
  {
    var size := dst.room;
    var buf := new byte[IoBufSize];
    var count := 0;
    ghost var out0 := dst.out;
    ghost var total := Push(size, f, 0);
    while true
      invariant count <= size && dst.room == size - count
      invariant total.result == Push(size, f, count).result
      invariant dst.out + Concat(Push(size, f, count).written) == out0 + Concat(total.written)
      decreases size - count
    {
      var stop, next;
      stop, r, next := FillRound(dst, buf, f, size, count);
      if stop {
        return;
      }
      count := next;
    }
  }

  /** One round of the `fill` loop from `count`: either the loop ends with
      `r`, having written what `Push` still owed, or it moves on to `next`
      with the rest of what is owed unchanged. */
  method FillRound(dst: Sink, buf: array<byte>, f: Produce, size: nat, count: nat)
    returns (stop: bool, r: Result<nat>, next: nat)
    requires ProducesAtMostAllowed(f) && buf.Length == IoBufSize
    requires count <= size && dst.room == size - count
    modifies dst, buf
    ensures count <= next <= size && dst.room == size - next
    ensures stop ==> r == Push(size, f, count).result
                     && dst.out == old(dst.out) + Concat(Push(size, f, count).written)
    ensures !stop ==> count < next && Push(size, f, next).result == Push(size, f, count).result
                      && old(dst.out) + Concat(Push(size, f, count).written)
                         == dst.out + Concat(Push(size, f, next).written)
  {
    next := count;
    var len := Min(buf.Length, size - count);
    if len == 0 {
      PushEnds(size, f, count);
      return true, Ok(count), next;
    }
    var produced := f(count, len);
    if produced.Err? {
      PushEnds(size, f, count);
      return true, Err(produced.error), next;
    }
    PushRound(size, f, count, len, produced.value);
    Emit(dst, buf, produced.value);
    next := count + |produced.value|;
    stop := |produced.value| < len;
    r := Ok(next);
  }

  /** The body of one `fill` round after the step: the produced bytes are
      in the scratch region and are written to the sink, which has room. */
  method Emit(dst: Sink, buf: array<byte>, p: seq<byte>)
    requires |p| <= buf.Length && |p| <= dst.room
    modifies dst, buf
    ensures dst.out == old(dst.out) + p && dst.room == old(dst.room) - |p|
  {
    forall i | 0 <= i < |p| {
      buf[i] := p[i];
    }
    assert buf[..|p|] == p;
    var _ := dst.Write(buf[..|p|]);
  }

  /** A push that stops without producing writes nothing more. */
  lemma PushEnds(size: nat, f: Produce, count: nat)
    requires ProducesAtMostAllowed(f) && count <= size
    requires count == size || f(count, Min(IoBufSize, size - count)).Err?
    ensures Concat(Push(size, f, count).written) == []
    ensures Push(size, f, count).result ==
              if count == size then Ok(count) else Err(f(count, Min(IoBufSize, size - count)).error)
  {
  }

  /** One round of `Push` that produced `p`. */
  lemma PushRound(size: nat, f: Produce, count: nat, len: nat, p: seq<byte>)
    requires ProducesAtMostAllowed(f) && count < size
    requires len == Min(IoBufSize, size - count) && f(count, len) == Ok(p)
    ensures |p| <= len
    ensures |p| < len ==> Push(size, f, count) == Pushed(Ok(count + |p|), [p])
    ensures |p| < len ==> Concat(Push(size, f, count).written) == p
    ensures |p| == len ==> Push(size, f, count).result == Push(size, f, count + len).result
    ensures |p| == len ==> Concat(Push(size, f, count).written) == p + Concat(Push(size, f, count + len).written)
  {
    if |p| < len {
      assert Concat([p]) == p + Concat([]);
    } else {
      var rest := Push(size, f, count + len);
      assert Push(size, f, count).written == [p] + rest.written;
      assert ([p] + rest.written)[1..] == rest.written;
    }
  }
}

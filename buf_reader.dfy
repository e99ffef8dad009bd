/** `BufReader` (src/buffered/bufreader.rs): a reader with its own fixed
    1024-byte window `buf[pos..filled]` in front of an inner reader. The inner
    reader modelled here is the byte-slice reader, which is what the source's
    own tests read from.

    The stream the caller sees is `Unread()`: the window followed by what the
    inner reader still holds. Each operation states what it delivers in terms
    of that stream. */
module BufReading {
  import opened IoTypes
  import opened SliceRead

  /** `DEFAULT_BUF_SIZE` of bufreader.rs. */
  const Capacity: nat := 1024

  /** The stream seen through a reader: the window, then the inner reader's
      bytes. `ReadExact` is first stated on this pair. */
  datatype Exact = Exact(dst: seq<byte>, window: seq<byte>, rest: seq<byte>, result: Result<()>)

  /** `read_exact` as the source writes it: when the window is too short, the
      request goes straight to the inner reader and the window is left alone. */
  function ExactAsWritten(window: seq<byte>, rest: seq<byte>, dst: seq<byte>): (r: Exact)
    ensures |r.dst| == |dst|
    ensures r.result.Ok? <==> |dst| <= |window| || |dst| <= |rest|
    ensures |dst| <= |window| ==> r.dst + r.window + r.rest == window + rest
    ensures |dst| <= |window| ==> r.rest == rest
    ensures |window| < |dst| <= |rest| ==> r.dst == rest[..|dst|] && r.window == window && r.rest == rest[|dst|..]
    ensures !r.result.Ok? ==> r.dst == dst && r.window == window && r.rest == rest
  {
    if |dst| <= |window| then
      Exact(window[..|dst|], window[|dst|..], rest, Ok(()))
    else if |dst| <= |rest| then
      Exact(rest[..|dst|], window, rest[|dst|..], Ok(()))
    else
      Exact(dst, window, rest, Err(UnexpectedEof))
  }

  /** A one-byte window in front of two more bytes: asking for two bytes
      returns the two inner bytes and leaves the buffered byte to be read
      after them, so the stream comes out as 2, 3, 1. */
  lemma ReadExactAsWrittenReorders()
    ensures var r := ExactAsWritten([1], [2, 3], [0, 0]);
            r.result.Ok? && r.dst + r.window + r.rest == [2, 3, 1] != [1] + [2, 3]
  {
    var r := ExactAsWritten([1], [2, 3], [0, 0]);
    assert r.dst == [2, 3] && r.window == [1] && r.rest == [];
    assert (r.dst + r.window + r.rest)[0] != ([1] + [2, 3])[0];
  }

  /** `read_exact` serving the window first and asking the inner reader only
      for what the window lacks. On end of stream the window has been handed
      out and the inner reader keeps its bytes. */
  function ExactInOrder(window: seq<byte>, rest: seq<byte>, dst: seq<byte>): (r: Exact)
    ensures |r.dst| == |dst|
    ensures r.result.Ok? <==> |dst| <= |window| + |rest|
    ensures r.result.Ok? ==> r.dst + r.window + r.rest == window + rest
    ensures r.result.Err? ==> r.dst[..|window|] == window && r.window == [] && r.rest == rest
    ensures |dst| <= |window| ==> r.rest == rest
  {
    if |dst| <= |window| then
      Exact(window[..|dst|], window[|dst|..], rest, Ok(()))
    else
      var need := |dst| - |window|;
      if need <= |rest| then
        assert (window + rest)[..|dst|] == window + rest[..need];
        Exact(window + rest[..need], [], rest[need..], Ok(()))
      else
        Exact(window + dst[|window|..], [], rest, Err(UnexpectedEof))
  }

  class BufReader {
    const inner: SliceReader
    const buf: array<byte>
    var pos: nat
    var filled: nat

    ghost predicate Valid()
      reads this
    {
      buf.Length == Capacity && pos <= filled <= buf.Length
    }

    /** The bytes a caller has yet to receive, in order. */
    ghost function Unread(): seq<byte>
      reads this, buf, inner
      requires Valid()
    {
      buf[pos..filled] + inner.data
    }

    /** `new`: an empty window over `inner`. */
    constructor (inner: SliceReader)
      ensures Valid() && fresh(buf) && this.inner == inner
      ensures pos == 0 && filled == 0 && Unread() == inner.data
    {
      this.inner := inner;
      buf := new byte[Capacity];
      pos, filled := 0, 0;
    }

    /** `buffer()`: the window, which is the front of the stream. */
    function Buffered(): (s: seq<byte>)
      reads this, buf, inner
      requires Valid()
      ensures |s| == filled - pos <= Capacity
      ensures Unread() == s + inner.data
    {
      buf[pos..filled]
    }

    /** `is_empty`. */
    function IsEmpty(): (b: bool)
      reads this, buf, inner
      requires Valid()
      ensures b <==> Buffered() == []
    {
      pos >= filled
    }

    method DiscardBuffer()
      requires Valid()
      modifies this
      ensures Valid() && pos == 0 && filled == 0 && Buffered() == []
    {
      pos := 0;
      filled := 0;
    }

    /** `fill_buf`: reads from the inner reader only when the window is empty,
        and never changes the stream. */
    method FillBuf() returns (w: seq<byte>)
      requires Valid()
      modifies this, buf, inner
      ensures Valid() && w == Buffered()
      ensures Unread() == old(Unread())
      ensures w == [] <==> old(Unread()) == []
      ensures old(pos < filled) ==>
                w == old(Buffered()) && pos == old(pos) && filled == old(filled) && inner.data == old(inner.data)
      ensures old(pos >= filled) ==>
                var got := Min(Capacity, |old(inner.data)|);
                w == old(inner.data)[..got] && pos == 0 && filled == got && inner.data == old(inner.data)[got..]
    {
      if IsEmpty() {
        var readLen := inner.Read(buf, buf.Length);
        pos := 0;
        filled := readLen;
      }
      w := buf[pos..filled];
    }

    /** `consume`: drops up to `amt` bytes of the window, never more. */
    method Consume(amt: nat)
      requires Valid()
      modifies this
      ensures Valid() && pos == Min(old(pos) + amt, filled) && filled == old(filled)
      ensures Buffered() == if amt <= |old(Buffered())| then old(Buffered())[amt..] else []
      ensures Unread() == old(Unread())[Min(amt, |old(Buffered())|)..]
    {
      pos := Min(pos + amt, filled);
      assert old(Unread()) == old(Buffered()) + inner.data;
    }

    /** `read`: large reads into an empty window bypass it; otherwise the
        window is filled if empty and copied out. Either way the bytes
        delivered are the front of the stream. */
    method Read(dst: array<byte>) returns (n: nat)
      requires Valid() && dst != buf
      modifies this, buf, inner, dst
      ensures Valid()
      ensures n <= dst.Length && dst[n..] == old(dst[n..])
      ensures old(Unread()) == dst[..n] + Unread()
      ensures n == 0 <==> dst.Length == 0 || old(Unread()) == []
      ensures old(pos >= filled) && dst.Length >= Capacity ==>
                n == Min(dst.Length, |old(inner.data)|) && pos == 0 && filled == 0
      ensures old(pos < filled) ==>
                n == Min(dst.Length, |old(Buffered())|) && Buffered() == old(Buffered())[n..]
                && inner.data == old(inner.data)
      ensures old(pos >= filled) && dst.Length < Capacity ==>
                var got := Min(Capacity, |old(inner.data)|);
                n == Min(dst.Length, got) && Buffered() == old(inner.data)[n..got]
                && inner.data == old(inner.data)[got..]
    {
      if IsEmpty() && dst.Length >= Capacity {
        n := ReadBypassing(dst);
      } else {
        n := ReadThroughWindow(dst);
      }
    }

    /** The bypass branch of `read`: an empty window and a destination at
        least as large as the window send the request to the inner reader. */
    method ReadBypassing(dst: array<byte>) returns (n: nat)
      requires Valid() && dst != buf && pos >= filled && dst.Length >= Capacity
      modifies this, inner, dst
      ensures Valid() && pos == 0 && filled == 0
      ensures n == Min(dst.Length, |old(inner.data)|) && dst[n..] == old(dst[n..])
      ensures old(inner.data) == dst[..n] + inner.data
    {
      DiscardBuffer();
      n := inner.Read(dst, dst.Length);
    }

    /** The other branch of `read`: fill the window if it is empty, copy
        from it, and consume what was copied. */
    method ReadThroughWindow(dst: array<byte>) returns (n: nat)
      requires Valid() && dst != buf
      modifies this, buf, inner, dst
      ensures Valid()
      ensures n <= dst.Length && dst[n..] == old(dst[n..])
      ensures old(Unread()) == dst[..n] + Unread()
      ensures n == 0 <==> dst.Length == 0 || old(Unread()) == []
      ensures old(pos < filled) ==>
                n == Min(dst.Length, |old(Buffered())|) && Buffered() == old(Buffered())[n..]
                && inner.data == old(inner.data)
      ensures old(pos >= filled) ==>
                var got := Min(Capacity, |old(inner.data)|);
                n == Min(dst.Length, got) && Buffered() == old(inner.data)[n..got]
                && inner.data == old(inner.data)[got..]
    {
      var rem := FillBuf();
      ghost var rest := inner.data;
      assert old(Unread()) == rem + rest;
      n := CopyOut(dst, rem);
      assert Unread() == rem[n..] + rest;
      assert rem == dst[..n] + rem[n..];
    }

    /** Reads the window `rem` as a byte slice into `dst` and consumes what
        was copied. */
    method CopyOut(dst: array<byte>, rem: seq<byte>) returns (n: nat)
      requires Valid() && dst != buf && rem == Buffered()
      modifies this, dst
      ensures Valid() && filled == old(filled)
      ensures n == Min(dst.Length, |rem|) && dst[..n] == rem[..n] && dst[n..] == old(dst[n..])
      ensures Buffered() == rem[n..]
    {
      var window := new SliceReader(rem);
      n := window.Read(dst, dst.Length);
      Consume(n);
    }

    /** `read_exact` as written: a window holding enough bytes serves the
        request; otherwise it goes to the inner reader, skipping the window. */
    method ReadExact(dst: array<byte>) returns (r: Result<()>)
      requires Valid() && dst != buf
      modifies this, inner, dst
      ensures Valid()
      ensures Exact(dst[..], Buffered(), inner.data, r)
              == ExactAsWritten(old(Buffered()), old(inner.data), old(dst[..]))
    {
      var amt := dst.Length;
      if amt <= filled - pos {
        ghost var window := buf[pos..filled];
        forall i | 0 <= i < amt {
          dst[i] := buf[pos + i];
        }
        assert dst[..] == window[..amt];
        pos := pos + amt;
        assert buf[pos..filled] == window[amt..];
        return Ok(());
      }
      r := inner.ReadExact(dst, amt);
      assert dst[..] == dst[..amt];
    }

    /** `read_exact` serving the window first: the bytes delivered are always
        the front of the stream. */
    method ReadExactInOrder(dst: array<byte>) returns (r: Result<()>)
      requires Valid() && dst != buf
      modifies this, inner, dst
      ensures Valid()
      ensures Exact(dst[..], Buffered(), inner.data, r)
              == ExactInOrder(old(Buffered()), old(inner.data), old(dst[..]))
    {
      var amt := dst.Length;
      var k := filled - pos;
      if amt <= k {
        forall i | 0 <= i < amt {
          dst[i] := buf[pos + i];
        }
        pos := pos + amt;
        return Ok(());
      }
      forall i | 0 <= i < k {
        dst[i] := buf[pos + i];
      }
      DiscardBuffer();
      var tail := new byte[amt - k];
      r := inner.ReadExact(tail, amt - k);
      if r.Ok? {
        forall i | k <= i < amt {
          dst[i] := tail[i - k];
        }
      }
    }

    /** `read_to_end`: the window, then everything the inner reader holds. */
    method ReadToEnd(out: seq<byte>) returns (out': seq<byte>, n: nat)
      requires Valid()
      modifies this, inner
      ensures Valid() && pos == 0 && filled == 0 && inner.data == []
      ensures out' == out + old(Unread())
      ensures n == |old(Unread())|
    {
      var innerBuf := buf[pos..filled];
      out' := out + innerBuf;
      var nread := |innerBuf|;
      DiscardBuffer();
      var more;
      out', more := inner.ReadToEnd(out');
      n := nread + more;
    }
  }

  /** The byte values of "hello world". */
  const HelloWorld: seq<byte> := [104, 101, 108, 108, 111, 32, 119, 111, 114, 108, 100]

  /** Reading "hello world" five bytes at a time yields "hello", " worl",
      "d" and then end of stream. */
  method ReadSmallScenario() returns (n1: nat, n2: nat, n3: nat, n4: nat, got: seq<byte>)
    ensures n1 == 5 && n2 == 5 && n3 == 1 && n4 == 0
    ensures got == HelloWorld
  {
    var source := new SliceReader(HelloWorld);
    var reader := new BufReader(source);
    var dst := new byte[5];
    n1 := reader.Read(dst);
    got := dst[..n1];
    assert n1 == 5 && got == HelloWorld[..5];
    assert reader.Buffered() == HelloWorld[5..] && source.data == [];
    n2 := reader.Read(dst);
    got := got + dst[..n2];
    assert n2 == 5 && got == HelloWorld[..10];
    assert reader.Buffered() == HelloWorld[10..] && source.data == [];
    n3 := reader.Read(dst);
    got := got + dst[..n3];
    assert reader.Buffered() == [] && source.data == [];
    n4 := reader.Read(dst);
  }

  /** `read_exact` of `len` bytes with an empty window is the inner reader's
      `read_exact`; `got` is what the destination holds afterwards. */
  method ReadExactUnbuffered(reader: BufReader, len: nat) returns (r: Result<()>, got: seq<byte>)
    requires reader.Valid() && reader.pos == reader.filled
    modifies reader, reader.inner
    ensures reader.Valid() && reader.pos == reader.filled
    ensures r == if len > |old(reader.inner.data)| then Err(UnexpectedEof) else Ok(())
    ensures r.Ok? ==> got == old(reader.inner.data)[..len]
                      && reader.inner.data == old(reader.inner.data)[len..]
    ensures r.Err? ==> reader.inner.data == old(reader.inner.data)
  {
    var dst := new byte[len];
    r := reader.ReadExact(dst);
    got := dst[..];
  }

  /** Reading "hello world" exactly five, five, one and one more byte at a
      time: the first three succeed with "hello", " worl" and "d", the last
      reaches end of stream. The window is never filled on this path. */
  method ReadExactScenario() returns (r1: Result<()>, r2: Result<()>, r3: Result<()>, r4: Result<()>, got: seq<byte>)
    ensures r1.Ok? && r2.Ok? && r3.Ok? && r4 == Err(UnexpectedEof)
    ensures got == HelloWorld
  {
    var source := new SliceReader(HelloWorld);
    var reader := new BufReader(source);
    var part;
    r1, got := ReadExactUnbuffered(reader, 5);
    r2, part := ReadExactUnbuffered(reader, 5);
    got := got + part;
    r3, part := ReadExactUnbuffered(reader, 1);
    got := got + part;
    r4, part := ReadExactUnbuffered(reader, 1);
  }
}

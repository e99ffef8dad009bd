/** The read-side window of src/buffered/bufreader/buffer.rs: one byte region
    and three watermarks. Bytes `[pos, filled)` are the unread window; bytes
    `[0, initialized)` have all been written at least once.

    The operations are first stated as functions on a `Window` value, and the
    class `Buffer` at the end is proved to follow them. */
module ReadBuffer {
  import opened IoTypes

  /** A snapshot of the buffer. `written[i]` says whether byte `i` of the region
      has ever been written; it exists only to state what `initialized` means. */
  datatype Window = Window(bytes: seq<byte>, written: seq<bool>, pos: nat, filled: nat, initialized: nat)

  /** The intended invariant of the field comments: `pos <= filled <=
      initialized <= capacity`, and every byte below `initialized` written. */
  predicate WellFormed(w: Window) {
    && |w.written| == |w.bytes|
    && w.pos <= w.filled <= w.initialized <= |w.bytes|
    && forall i :: 0 <= i < w.initialized ==> w.written[i]
  }

  /** `buffer()`: the unread window. */
  function Available(w: Window): seq<byte>
    requires w.pos <= w.filled <= |w.bytes|
  {
    w.bytes[w.pos..w.filled]
  }

  /** What a `read_buf` call on a region of `room` bytes did. The reader
      produced `n` bytes at the front of the region, and `region` is the new
      content of the region's initialized prefix (so `init_len` is
      `|region|`). `failed` is the error the call returned, if any. */
  datatype ReadBufOutcome = ReadBufOutcome(region: seq<byte>, n: nat, failed: Option<IoError>)

  /** The guarantees of a `BorrowedBuf` cursor: the bytes produced and the
      initialized prefix fit in the region, and the initialized prefix never
      shrinks below what the caller declared (`oldInit`). */
  predicate ObeysReadBuf(o: ReadBufOutcome, room: nat, oldInit: nat) {
    o.n <= |o.region| <= room && oldInit <= |o.region|
  }

  /** `s` with `part` written over it from offset `at`. */
  function Overwrite<T>(s: seq<T>, at: nat, part: seq<T>): (r: seq<T>)
    requires at + |part| <= |s|
    ensures |r| == |s|
    ensures forall i :: 0 <= i < |s| ==> r[i] == if at <= i < at + |part| then part[i - at] else s[i]
  {
    s[..at] + part + s[at + |part|..]
  }

  /** `discard_buffer`. */
  function Discarded(w: Window): (r: Window)
    requires WellFormed(w)
    ensures WellFormed(r) && Available(r) == []
    ensures r.pos == 0 && r.filled == 0
    ensures r.bytes == w.bytes && r.written == w.written && r.initialized == w.initialized
  {
    w.(pos := 0, filled := 0)
  }

  /** `consume`: advance `pos`, clamped at `filled`. */
  function Consumed(w: Window, amt: nat): (r: Window)
    requires WellFormed(w)
    ensures WellFormed(r)
    ensures Available(r) == if amt <= |Available(w)| then Available(w)[amt..] else []
    ensures r.bytes == w.bytes && r.written == w.written && r.filled == w.filled && r.initialized == w.initialized
  {
    w.(pos := Min(w.pos + amt, w.filled))
  }

  /** The result of `consume_with`: whether it succeeded, the slice the
      visitor saw, and the new state. */
  datatype Claim = Claim(ok: bool, claimed: seq<byte>, after: Window)

  /** `consume_with`: all or nothing. */
  function ClaimOf(w: Window, amt: nat): (r: Claim)
    requires WellFormed(w)
    ensures WellFormed(r.after)
    ensures r.ok <==> amt <= |Available(w)|
    ensures r.ok ==> r.claimed == Available(w)[..amt] && Available(r.after) == Available(w)[amt..]
    ensures r.ok ==> r.after == w.(pos := w.pos + amt)
    ensures !r.ok ==> r.after == w
  {
    if amt <= w.filled - w.pos then
      Claim(true, w.bytes[w.pos..w.pos + amt], w.(pos := w.pos + amt))
    else
      Claim(false, [], w)
  }

  /** `unconsume`: move `pos` back, saturating at 0. */
  function Unconsumed(w: Window, amt: nat): (r: Window)
    requires WellFormed(w)
    ensures WellFormed(r)
    ensures r.pos + Min(amt, w.pos) == w.pos
    ensures r.bytes == w.bytes && r.written == w.written && r.filled == w.filled && r.initialized == w.initialized
    ensures w.bytes[r.pos..w.pos] + Available(w) == Available(r)
  {
    w.(pos := if amt <= w.pos then w.pos - amt else 0)
  }

  /** The result of a call that reads into the buffer. */
  datatype Filled<T> = Filled(after: Window, result: Result<T>)

  /** `read_more`: the reader writes into the tail `[filled, capacity)`,
      being told that `initialized - filled` bytes of it are initialized. */
  function ReadMoreResult(w: Window, o: ReadBufOutcome): (r: Filled<nat>)
    requires WellFormed(w)
    requires ObeysReadBuf(o, |w.bytes| - w.filled, w.initialized - w.filled)
    ensures WellFormed(r.after)
    ensures r.after.pos == w.pos && r.after.initialized >= w.initialized
    ensures o.failed.None? ==> r.result == Ok(o.n) && Available(r.after) == Available(w) + o.region[..o.n]
    ensures o.failed.Some? ==> r.result.Err? && Available(r.after) == Available(w)
  {
    var bytes := Overwrite(w.bytes, w.filled, o.region);
    var written := Overwrite(w.written, w.filled, seq(|o.region|, _ => true));
    if o.failed.Some? then
      Filled(w.(bytes := bytes, written := written), Err(o.failed.value))
    else
      var old_init := w.initialized - w.filled;
      Filled(w.(bytes := bytes, written := written, filled := w.filled + o.n,
                initialized := w.initialized + |o.region| - old_init),
             Ok(o.n))
  }

  /** `fill_buf`: read only when the window is empty; then the whole region is
      handed to the reader and the watermarks are committed before any error
      is returned. */
  function FillResult(w: Window, o: ReadBufOutcome): (r: Filled<seq<byte>>)
    requires WellFormed(w)
    requires w.pos >= w.filled ==> ObeysReadBuf(o, |w.bytes|, w.initialized)
    ensures WellFormed(r.after)
    ensures w.pos < w.filled ==> r.after == w && r.result == Ok(Available(w))
    ensures w.pos >= w.filled ==>
              && r.after.pos == 0 && r.after.filled == o.n
              && r.after.initialized == |o.region| >= w.initialized
              && Available(r.after) == o.region[..o.n]
              && (o.failed.None? ==> r.result == Ok(o.region[..o.n]))
              && (o.failed.Some? ==> r.result.Err?)
  {
    if w.pos >= w.filled then
      var after := Window(Overwrite(w.bytes, 0, o.region),
                          Overwrite(w.written, 0, seq(|o.region|, _ => true)),
                          0, o.n, |o.region|);
      if o.failed.Some? then Filled(after, Err(o.failed.value))
      else Filled(after, Ok(Available(after)))
    else
      Filled(w, Ok(Available(w)))
  }

  /** The overlapping move `copy_within(pos.., 0)`: the bytes (and whether they
      were ever written) from `pos` on move down to offset 0; the last `pos`
      positions keep what they held. */
  function ShiftDown<T>(s: seq<T>, offset: nat): (r: seq<T>)
    requires offset <= |s|
    ensures |r| == |s|
    ensures forall i :: 0 <= i < |s| ==> r[i] == if i < |s| - offset then s[i + offset] else s[i]
  {
    s[offset..] + s[|s| - offset..]
  }

  /** `backshift` as the source writes it: `initialized` is left as it was. */
  function BackshiftedAsWritten(w: Window): (r: Window)
    requires WellFormed(w)
    ensures r.pos == 0 && r.filled == w.filled - w.pos && r.initialized == w.initialized
    ensures r.filled <= |r.bytes| && Available(r) == Available(w)
  {
    Window(ShiftDown(w.bytes, w.pos), ShiftDown(w.written, w.pos), 0, w.filled - w.pos, w.initialized)
  }

  /** After the move, the first byte below `initialized` may come from beyond
      the old `initialized`: a two-byte region whose byte 0 was filled and
      consumed ends up claiming a never-written byte as initialized. */
  lemma BackshiftAsWrittenBreaksInvariant()
    ensures var w := Window([7, 0], [true, false], 1, 1, 1);
            WellFormed(w) && !WellFormed(BackshiftedAsWritten(w))
  {
    var w := Window([7, 0], [true, false], 1, 1, 1);
    assert BackshiftedAsWritten(w).written[0] == false;
  }

  /** `backshift` with `initialized` lowered by `pos`, as the move requires. */
  function Backshifted(w: Window): (r: Window)
    requires WellFormed(w)
    ensures WellFormed(r)
    ensures r.pos == 0 && Available(r) == Available(w)
    ensures r.initialized + w.pos == w.initialized
  {
    Window(ShiftDown(w.bytes, w.pos), ShiftDown(w.written, w.pos), 0, w.filled - w.pos, w.initialized - w.pos)
  }

  /** A second `fill_buf` after one that returned data, with no `consume`
      between, reads nothing and returns the same bytes, whatever the reader
      would have done. */
  lemma FillBufIdempotent(w: Window, o1: ReadBufOutcome, o2: ReadBufOutcome)
    requires WellFormed(w)
    requires w.pos >= w.filled ==> ObeysReadBuf(o1, |w.bytes|, w.initialized)
    requires FillResult(w, o1).result.Ok? && FillResult(w, o1).result.value != []
    ensures FillResult(FillResult(w, o1).after, o2) == Filled(FillResult(w, o1).after, FillResult(w, o1).result)
  {
    var f := FillResult(w, o1);
    assert f.after.pos < f.after.filled;
  }

  /** The buffer itself. `buf` is the backing region (`Box<[MaybeUninit<u8>]>`
      or the fixed array), whose capacity never changes. */
  class Buffer {
    const buf: array<byte>
    ghost var written: seq<bool>
    var pos: nat
    var filled: nat
    var initialized: nat

    ghost function State(): Window
      reads this, buf
    {
      Window(buf[..], written, pos, filled, initialized)
    }

    ghost predicate Valid()
      reads this, buf
    {
      WellFormed(State())
    }

    /** `with_capacity`; `new` is `with_capacity(DEFAULT_BUF_SIZE)`. */
    constructor WithCapacity(capacity: nat)
      ensures Valid() && fresh(buf) && buf.Length == capacity
      ensures pos == 0 && filled == 0 && initialized == 0
      ensures written == seq(capacity, _ => false)
    {
      buf := new byte[capacity];
      written := seq(capacity, _ => false);
      pos, filled, initialized := 0, 0, 0;
    }

    /** `buffer()`: the unread window. */
    function Buffered(): (s: seq<byte>)
      reads this, buf
      requires Valid()
      ensures s == Available(State())
      ensures |s| == filled - pos
    {
      buf[pos..filled]
    }

    method DiscardBuffer()
      requires Valid()
      modifies this
      ensures Valid() && State() == Discarded(old(State()))
    {
      pos := 0;
      filled := 0;
    }

    method Consume(amt: nat)
      requires Valid()
      modifies this
      ensures Valid() && State() == Consumed(old(State()), amt)
    {
      pos := Min(pos + amt, filled);
    }

    /** `consume_with`: `claimed` is the slice passed to the visitor. */
    method ConsumeWith(amt: nat) returns (ok: bool, claimed: seq<byte>)
      requires Valid()
      modifies this
      ensures Valid() && Claim(ok, claimed, State()) == ClaimOf(old(State()), amt)
    {
      if amt <= filled - pos {
        claimed := buf[pos..pos + amt];
        pos := pos + amt;
        ok := true;
      } else {
        ok, claimed := false, [];
      }
    }

    method Unconsume(amt: nat)
      requires Valid()
      modifies this
      ensures Valid() && State() == Unconsumed(old(State()), amt)
    {
      pos := if amt <= pos then pos - amt else 0;
    }

    /** `read_more`: the reader's effect on the tail is the parameter `o`. */
    method ReadMore(o: ReadBufOutcome) returns (r: Result<nat>)
      requires Valid()
      requires ObeysReadBuf(o, buf.Length - filled, initialized - filled)
      modifies this, buf
      ensures Valid() && Filled(State(), r) == ReadMoreResult(old(State()), o)
    {
      var oldInit := initialized - filled;
      forall i | 0 <= i < |o.region| {
        buf[filled + i] := o.region[i];
      }
      written := Overwrite(written, filled, seq(|o.region|, _ => true));
      assert buf[..] == Overwrite(old(buf[..]), filled, o.region);
      if o.failed.Some? {
        return Err(o.failed.value);
      }
      filled := filled + o.n;
      initialized := initialized + |o.region| - oldInit;
      r := Ok(o.n);
    }

    /** `backshift`, with `initialized` lowered by the distance moved (see
        `BackshiftedAsWritten` for the form that leaves it unchanged). */
    method Backshift()
      requires Valid()
      modifies this, buf
      ensures Valid() && State() == Backshifted(old(State()))
    {
      var n := buf.Length;
      forall i | 0 <= i < n - pos {
        buf[i] := buf[i + pos];
      }
      assert buf[..] == ShiftDown(old(buf[..]), pos);
      written := ShiftDown(written, pos);
      initialized := initialized - pos;
      filled := filled - pos;
      pos := 0;
    }

    /** `fill_buf`: the reader's effect on the region is the parameter `o`,
        and is only used when the window is empty. */
    method FillBuf(o: ReadBufOutcome) returns (r: Result<seq<byte>>)
      requires Valid()
      requires pos >= filled ==> ObeysReadBuf(o, buf.Length, initialized)
      modifies this, buf
      ensures Valid() && Filled(State(), r) == FillResult(old(State()), o)
    {
      if pos >= filled {
        forall i | 0 <= i < |o.region| {
          buf[i] := o.region[i];
        }
        written := Overwrite(written, 0, seq(|o.region|, _ => true));
        assert buf[..] == Overwrite(old(buf[..]), 0, o.region);
        pos := 0;
        filled := o.n;
        initialized := |o.region|;
        if o.failed.Some? {
          return Err(o.failed.value);
        }
      }
      r := Ok(buf[pos..filled]);
    }
  }
}

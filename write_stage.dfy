/** The staging buffers behind `BufWriter` (src/buffered/bufwriter/): bytes
    written by the caller wait at the front of the buffer, `len()` marks how
    many, and `consume(amt)` removes the first `amt` of them once the inner
    writer has taken them. `FixedBuffer` is the array version
    (buffer_array.rs), `GrowBuffer` the `Vec` version (buffer_vec.rs). Both
    panic, before changing anything, when asked to remove more than they
    hold; the model returns that panic as a flag. */
module WriteStage {
  import opened IoTypes

  /** Removing the first `amt` pending bytes: what is left, or `None` when
      fewer than `amt` are pending. */
  function Drain(pending: seq<byte>, amt: nat): (r: Option<seq<byte>>)
    ensures r.None? <==> amt > |pending|
    ensures r.Some? ==> pending == pending[..amt] + r.value && |r.value| == |pending| - amt
  {
    if amt > |pending| then None else Some(pending[amt..])
  }

  /** Removing `a` bytes and then `b` bytes is removing `a + b` bytes, and
      the first removal fails exactly when both together would overrun. */
  lemma DrainTwice(pending: seq<byte>, a: nat, b: nat)
    ensures Drain(pending, a).Some? ==> Drain(Drain(pending, a).value, b) == Drain(pending, a + b)
    ensures Drain(pending, a + b).Some? ==> Drain(pending, a).Some?
  {
  }

  /** `Buffer` of buffer_array.rs: a fixed array whose first `pos` bytes
      are pending. */
  class FixedBuffer {
    const buf: array<byte>
    var pos: nat

    ghost predicate Valid()
      reads this
    {
      pos <= buf.Length
    }

    /** `new`: an empty buffer of `DEFAULT_BUF_SIZE` bytes, passed in. */
    constructor New(defaultBufSize: nat)
      ensures Valid() && fresh(buf)
      ensures Capacity() == defaultBufSize && Len() == 0 && AsSlice() == []
    {
      buf := new byte[defaultBufSize];
      pos := 0;
    }

    /** `as_slice`: the pending bytes. */
    function AsSlice(): (s: seq<byte>)
      reads this, buf
      requires Valid()
      ensures |s| <= buf.Length && s == buf[..|s|]
    {
      buf[..pos]
    }

    /** `len`: the number of pending bytes. */
    function Len(): (n: nat)
      reads this, buf
      requires Valid()
      ensures n == |AsSlice()| && n <= buf.Length
    {
      pos
    }

    /** `capacity`: the size of the array, never below `len`. */
    function Capacity(): (c: nat)
      reads this, buf
      requires Valid()
      ensures Len() <= c
    {
      buf.Length
    }

    /** `spare_capacity`: the room after the pending bytes; the subtraction
        cannot wrap because `len <= capacity`. */
    function SpareCapacity(): (s: nat)
      reads this, buf
      requires Valid()
      ensures Len() + s == Capacity()
    {
      Capacity() - Len()
    }

    /** `set_len`: the caller has written the bytes up to `n` and promises
        `n <= capacity`. */
    method SetLen(n: nat)
      requires Valid() && n <= buf.Length
      modifies this
      ensures Valid() && pos == n && AsSlice() == buf[..n]
    {
      pos := n;
    }

    /** `consume`: shifts the pending bytes after `amt` down to the front. */
    method Consume(amt: nat) returns (panicked: bool)
      requires Valid()
      modifies this, buf
      ensures Valid()
      ensures panicked <==> amt > old(pos)
      ensures Drain(old(AsSlice()), amt) == if panicked then None else Some(AsSlice())
      ensures panicked ==> pos == old(pos) && buf[..] == old(buf[..])
      ensures buf[pos..] == old(buf[..])[pos..]
    {
      if amt > pos {
        return true;
      }
      ghost var pending := buf[..pos];
      MoveDown(amt, pos - amt);
      pos := pos - amt;
      assert buf[..pos] == pending[amt..];
      panicked := false;
    }

    /** The copy loop of `consume`: moves `count` bytes from offset `amt` down
        to offset 0, one at a time from the lowest index, which never
        overwrites a byte still to be moved. */
    method MoveDown(amt: nat, count: nat)
      requires amt + count <= buf.Length
      modifies buf
      ensures buf[..count] == old(buf[amt..amt + count])
      ensures buf[count..] == old(buf[..])[count..]
    {
      for i := 0 to count
        invariant forall k :: 0 <= k < i ==> buf[k] == old(buf[k + amt])
        invariant forall k :: i <= k < buf.Length ==> buf[k] == old(buf[k])
      {
        buf[i] := buf[i + amt];
      }
      assert buf[..count] == old(buf[amt..amt + count]);
      assert buf[count..] == old(buf[..])[count..];
    }
  }

  /** `Buffer` of buffer_vec.rs: a `Vec` whose allocation is `mem` and whose
      first `len` bytes are pending. */
  class GrowBuffer {
    var mem: seq<byte>
    var len: nat

    ghost predicate Valid()
      reads this
    {
      len <= |mem|
    }

    /** `with_capacity`: empty, with room for `capacity` bytes. */
    constructor WithCapacity(capacity: nat)
      ensures Valid() && Capacity() == capacity && Len() == 0 && AsSlice() == []
    {
      mem := seq(capacity, _ => 0);
      len := 0;
    }

    /** `new`: `with_capacity(DEFAULT_BUF_SIZE)`, the size passed in. */
    constructor New(defaultBufSize: nat)
      ensures Valid() && Capacity() == defaultBufSize && Len() == 0 && AsSlice() == []
    {
      mem := seq(defaultBufSize, _ => 0);
      len := 0;
    }

    /** `as_slice`: the pending bytes. */
    function AsSlice(): (s: seq<byte>)
      reads this
      requires Valid()
      ensures s <= mem
    {
      mem[..len]
    }

    /** `len`: the number of pending bytes. */
    function Len(): (n: nat)
      reads this
      requires Valid()
      ensures n == |AsSlice()| && n <= |mem|
    {
      len
    }

    /** `capacity`: the size of the allocation, never below `len`. */
    function Capacity(): (c: nat)
      reads this
      requires Valid()
      ensures Len() <= c
    {
      |mem|
    }

    /** `spare_capacity`: the room after the pending bytes. */
    function SpareCapacity(): (s: nat)
      reads this
      requires Valid()
      ensures Len() + s == Capacity()
    {
      Capacity() - Len()
    }

    /** `set_len`: the caller has written the bytes up to `n` into the
        allocation and promises `n <= capacity`. */
    method SetLen(n: nat)
      requires Valid() && n <= |mem|
      modifies this
      ensures Valid() && len == n && mem == old(mem) && AsSlice() == mem[..n]
    {
      len := n;
    }

    /** `consume`: `drain(..amt)`, which moves the bytes after `amt` down to
        the front of the allocation; the slots they leave keep their old
        bytes. */
    method Consume(amt: nat) returns (panicked: bool)
      requires Valid()
      modifies this
      ensures Valid() && Capacity() == old(Capacity())
      ensures panicked <==> amt > old(len)
      ensures Drain(old(AsSlice()), amt) == if panicked then None else Some(AsSlice())
      ensures panicked ==> len == old(len) && mem == old(mem)
      ensures mem[len..] == old(mem)[len..]
    {
      if amt > len {
        return true;
      }
      mem := mem[amt..len] + mem[len - amt..];
      len := len - amt;
      panicked := false;
    }
  }
}

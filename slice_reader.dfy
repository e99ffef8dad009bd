/** `Read for &[u8]` (src/impls.rs): a byte slice read from the front. Reading
    copies bytes out and re-points the slice past them (`*self = b`). */
module SliceRead {
  import opened IoTypes

  class SliceReader {
    /** What is left of the slice. */
    var data: seq<byte>

    constructor (data: seq<byte>)
      ensures this.data == data
    {
      this.data := data;
    }

    /** `read`: the destination is `dst[..len]`. Copies as many bytes as both
        the slice and the destination allow, leaves the rest of `dst` alone and
        drops the copied bytes from the slice. */
    method Read(dst: array<byte>, len: nat) returns (n: nat)
      requires len <= dst.Length
      modifies this, dst
      ensures n == Min(len, |old(data)|)
      ensures n == 0 <==> len == 0 || old(data) == []
      ensures dst[..n] == old(data)[..n]
      ensures dst[n..] == old(dst[n..])
      ensures old(data) == dst[..n] + data
    {
      n := Min(len, |data|);
      var a, b := data[..n], data[n..];
      if n == 1 {
        dst[0] := a[0];
      } else {
        forall i | 0 <= i < n {
          dst[i] := a[i];
        }
      }
      data := b;
    }

    /** `read_exact`: fills all of `dst[..len]` or, when the slice is too
        short, fails with UnexpectedEof and changes nothing. */
    method ReadExact(dst: array<byte>, len: nat) returns (r: Result<()>)
      requires len <= dst.Length
      modifies this, dst
      ensures r == if len > |old(data)| then Err(UnexpectedEof) else Ok(())
      ensures r.Err? ==> data == old(data) && dst[..] == old(dst[..])
      ensures r.Ok? ==> dst[..len] == old(data)[..len] && dst[len..] == old(dst[len..])
      ensures r.Ok? ==> data == old(data)[len..]
    {
      if len > |data| {
        return Err(UnexpectedEof);
      }
      var a, b := data[..len], data[len..];
      if len == 1 {
        dst[0] := a[0];
      } else {
        forall i | 0 <= i < len {
          dst[i] := a[i];
        }
      }
      data := b;
      r := Ok(());
    }

    /** `read_to_end`: appends the whole slice to `out` and empties it. */
    method ReadToEnd(out: seq<byte>) returns (out': seq<byte>, n: nat)
      modifies this
      ensures out' == out + old(data)
      ensures n == |old(data)|
      ensures data == []
    {
      out' := out + data;
      n := |data|;
      data := data[n..];
    }
  }
}

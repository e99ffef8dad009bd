/** Types shared by the whole model: bytes, the error kinds the core reports,
    and the first-occurrence search that the delimiter scans use in place of
    `memchr::memchr`. */
module IoTypes {

  /** An unsigned 8-bit value, the element type of every buffer. */
  newtype byte = x: int | 0 <= x < 256

  /** End of stream before a request could be met, or an error passed up
      from a collaborator (a reader, a writer or a step function). */
  datatype IoError = UnexpectedEof | Io(code: int)

  datatype Result<T> = Ok(value: T) | Err(error: IoError)

  datatype Option<T> = None | Some(value: T)

  function Min(a: nat, b: nat): (m: nat)
    ensures m <= a && m <= b && (m == a || m == b)
  {
    if a <= b then a else b
  }

  /** The index of the first `b` in `s`, or None when `s` has no `b`. */
  function IndexOf(s: seq<byte>, b: byte): (r: Option<nat>)
    ensures r.None? <==> b !in s
    ensures r.Some? ==> r.value < |s| && s[r.value] == b && b !in s[..r.value]
  {
    if |s| == 0 then None
    else if s[0] == b then Some(0)
    else
      match IndexOf(s[1..], b)
      case None => None
      case Some(i) =>
        assert s[..i + 1] == [s[0]] + s[1..][..i];
        Some(i + 1)
  }
}

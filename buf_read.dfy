/** The scanning operations of `BufRead` (src/read/bufread.rs), run on the
    model's `BufRead` implementation, `BufReader`. They only use `fill_buf`
    and `consume`. */
module BufReadScans {
  import opened IoTypes
  import opened BufReading

  /** The newline byte `\n`. */
  const Newline: byte := 10
  /** The carriage-return byte `\r`. */
  const CarriageReturn: byte := 13

  /** The bytes up to and including the first `d` in `s`, or all of `s` when
      it has no `d`: what one delimiter scan takes from the stream. */
  function UntilDelim(s: seq<byte>, d: byte): (r: seq<byte>)
    ensures r <= s && (r == [] <==> s == [])
    ensures d in s ==> |r| > 0 && r[|r| - 1] == d && d !in r[..|r| - 1]
    ensures d !in s ==> r == s
  {
    match IndexOf(s, d)
    case None => s
    case Some(i) =>
      assert s[..i + 1][..i] == s[..i];
      s[..i + 1]
  }

  /** Stopping at position `k` is the same as stopping at the first `d`. */
  lemma UntilDelimAt(s: seq<byte>, k: nat, d: byte)
    requires k < |s| && s[k] == d && d !in s[..k]
    ensures UntilDelim(s, d) == s[..k + 1]
  {
    var r := UntilDelim(s, d);
    assert s[k] in s;
    var j := |r| - 1;
    assert r == s[..j + 1];
  }

  /** `has_data_left`: whether `fill_buf` returns a non-empty window, that is,
      whether the stream has anything left. */
  method HasDataLeft(r: BufReader) returns (b: bool)
    requires r.Valid()
    modifies r, r.buf, r.inner
    ensures r.Valid() && r.Unread() == old(r.Unread())
    ensures b <==> old(r.Unread()) != []
  {
    var available := r.FillBuf();
    b := available != [];
  }

  /** The body shared by the scan loops: fill the window, look for `d` in
      it, and consume through the `d` or the whole window. `s` is the stream
      at the start of the scan and `n` what the scan has consumed so far.
      `taken` is the slice consumed, which `read_until` appends. */
  method ScanRound(r: BufReader, d: byte, ghost s: seq<byte>, ghost n: nat)
      returns (done: bool, used: nat, taken: seq<byte>)
    requires r.Valid() && n <= |s| && r.Unread() == s[n..] && d !in s[..n]
    modifies r, r.buf, r.inner
    ensures r.Valid()
    ensures n + used <= |s| && r.Unread() == s[n + used..]
    ensures taken == s[n..n + used] && s[..n + used] == s[..n] + taken
    ensures done || used == 0 ==> s[..n + used] == UntilDelim(s, d)
    ensures !(done || used == 0) ==> d !in s[..n + used] && used > 0
  {
    var available := r.FillBuf();
    assert available == s[n..][..|available|];
    done, used, taken := ScanWindow(r, d, s, n, available);
  }

  /** The second half of a scan round: `available` is the window just
      filled. Look for `d` in it and consume through the `d` or the whole
      window. */
  method ScanWindow(r: BufReader, d: byte, ghost s: seq<byte>, ghost n: nat, available: seq<byte>)
      returns (done: bool, used: nat, taken: seq<byte>)
    requires r.Valid() && n <= |s| && r.Unread() == s[n..] && d !in s[..n]
    requires available == r.Buffered() && available == s[n..][..|available|]
    requires available == [] <==> s[n..] == []
    modifies r
    ensures r.Valid()
    ensures n + used <= |s| && r.Unread() == s[n + used..]
    ensures taken == s[n..n + used] && s[..n + used] == s[..n] + taken
    ensures done || used == 0 ==> s[..n + used] == UntilDelim(s, d)
    ensures !(done || used == 0) ==> d !in s[..n + used] && used > 0
  {
    var found := IndexOf(available, d);
    done := found.Some?;
    used := if found.Some? then found.value + 1 else |available|;
    taken := available[..used];
    ScanStep(s, n, available, d, done, used);
    r.Consume(used);
    assert s[n..][used..] == s[n + used..];
  }

  /** `skip_until`: consumes up to and including the first `d`, or to the end
      of the stream, and returns how many bytes that was. */
  method SkipUntil(r: BufReader, d: byte) returns (n: nat)
    requires r.Valid()
    modifies r, r.buf, r.inner
    ensures r.Valid()
    ensures n == |UntilDelim(old(r.Unread()), d)|
    ensures r.Unread() == old(r.Unread())[n..]
  {
    ghost var s := r.Unread();
    n := 0;
    while true
      invariant r.Valid() && s == old(r.Unread())
      invariant n <= |s| && r.Unread() == s[n..]
      invariant d !in s[..n]
      decreases |r.Unread()|
    {
      var done, used, _ := ScanRound(r, d, s, n);
      n := n + used;
      if done || used == 0 {
        return;
      }
    }
  }

  /** `read_until`: appends to `out` exactly the bytes it consumes, which run
      up to and including the first `d`, or to the end of the stream. */
  method ReadUntil(r: BufReader, d: byte, out: seq<byte>) returns (out': seq<byte>, n: nat)
    requires r.Valid()
    modifies r, r.buf, r.inner
    ensures r.Valid()
    ensures out' == out + UntilDelim(old(r.Unread()), d)
    ensures n == |out'| - |out|
    ensures r.Unread() == old(r.Unread())[n..]
  {
    ghost var s := r.Unread();
    out', n := out, 0;
    while true
      invariant r.Valid() && s == old(r.Unread())
      invariant n <= |s| && r.Unread() == s[n..]
      invariant d !in s[..n]
      invariant out' == out + s[..n]
      decreases |r.Unread()|
    {
      var done, used, taken := ScanRound(r, d, s, n);
      out' := out' + taken;
      n := n + used;
      assert out' == out + s[..n];
      if done || used == 0 {
        assert s[..n] == UntilDelim(s, d);
        return;
      }
    }
  }

  /** One round of a scan: the window `available` is the stream `s` from
      offset `n` on. Taking `used` bytes either ends the scan at the first
      `d` (or at the end of the stream), or leaves no `d` in what was taken. */
  lemma ScanStep(s: seq<byte>, n: nat, available: seq<byte>, d: byte, done: bool, used: nat)
    requires n <= |s| && d !in s[..n]
    requires |available| <= |s| - n && available == s[n..][..|available|]
    requires available == [] <==> s[n..] == []
    requires IndexOf(available, d).Some? ==> done && used == IndexOf(available, d).value + 1
    requires IndexOf(available, d).None? ==> !done && used == |available|
    ensures n + used <= |s| && s[..n + used] == s[..n] + available[..used]
    ensures done || used == 0 ==> n + used == |UntilDelim(s, d)|
    ensures !(done || used == 0) ==> d !in s[..n + used] && used > 0
  {
    match IndexOf(available, d)
    case Some(i) =>
      ScanFound(s, n, available, d, i);
    case None =>
      assert s[..n + used] == s[..n] + available;
      if used == 0 {
        assert |s| == n && s[..n] == s;
        assert UntilDelim(s, d) == s;
      }
  }

  /** The window holds a `d` at `i`: the scan has reached the first `d` of
      the stream. */
  lemma ScanFound(s: seq<byte>, n: nat, available: seq<byte>, d: byte, i: nat)
    requires n <= |s| && d !in s[..n]
    requires |available| <= |s| - n && available == s[n..][..|available|]
    requires i < |available| && available[i] == d && d !in available[..i]
    ensures s[..n + i + 1] == s[..n] + available[..i + 1]
    ensures n + i + 1 == |UntilDelim(s, d)|
  {
    assert s[n + i] == available[i] == d;
    assert s[..n + i] == s[..n] + available[..i];
    UntilDelimAt(s, n + i, d);
  }

  /** What `Split::next` makes of a non-empty record: one trailing `d`, if
      present, is removed. */
  function StripDelim(rec: seq<byte>, d: byte): (r: seq<byte>)
    requires rec != []
    ensures rec == r + [d] || (rec == r && rec[|rec| - 1] != d)
  {
    if rec[|rec| - 1] == d then rec[..|rec| - 1] else rec
  }

  /** A record of `split` never holds the delimiter, and putting the
      delimiter back (when the stream had one) gives what was consumed. */
  lemma SplitRecord(s: seq<byte>, d: byte)
    requires s != []
    ensures var rec := UntilDelim(s, d);
            rec != [] && d !in StripDelim(rec, d)
            && StripDelim(rec, d) + (if d in s then [d] else []) == rec
  {
    var rec := UntilDelim(s, d);
    if d in s {
      assert StripDelim(rec, d) == rec[..|rec| - 1];
    } else {
      assert rec == s && rec[|rec| - 1] in s;
    }
  }

  /** What `Lines::next` makes of a line: a trailing `\n` is removed, and then
      a `\r` just before it; a `\r` not followed by `\n` stays. */
  function StripLineEnding(line: seq<byte>): (r: seq<byte>)
    ensures line == r || line == r + [Newline] || line == r + [CarriageReturn, Newline]
    ensures line == r <==> line == [] || line[|line| - 1] != Newline
    ensures line == r + [Newline] ==> r == [] || r[|r| - 1] != CarriageReturn
  {
    if line != [] && line[|line| - 1] == Newline then
      var l := line[..|line| - 1];
      if l != [] && l[|l| - 1] == CarriageReturn then l[..|l| - 1] else l
    else
      line
  }

  /** A line of `lines` holds no `\n`: the one `read_line` stops at is the
      one `StripLineEnding` removes. */
  lemma LineHasNoNewline(s: seq<byte>)
    requires s != []
    ensures var line := UntilDelim(s, Newline);
            Newline !in StripLineEnding(line)
            && (Newline in s <==> line != StripLineEnding(line))
  {
    var line := UntilDelim(s, Newline);
    var r := StripLineEnding(line);
    if Newline in s {
      assert r <= line[..|line| - 1];
    } else {
      assert line == s && line[|line| - 1] in s;
    }
  }

  /** `Split::next`: None exactly when the stream is exhausted; otherwise the
      next record without its delimiter. */
  method SplitNext(r: BufReader, d: byte) returns (item: Option<seq<byte>>)
    requires r.Valid()
    modifies r, r.buf, r.inner
    ensures r.Valid()
    ensures item.None? <==> old(r.Unread()) == []
    ensures item.Some? ==> item.value == StripDelim(UntilDelim(old(r.Unread()), d), d)
    ensures r.Unread() == old(r.Unread())[|UntilDelim(old(r.Unread()), d)|..]
  {
    ghost var s := r.Unread();
    var buf, n := ReadUntil(r, d, []);
    assert buf == UntilDelim(s, d) && |buf| == n;
    if n == 0 {
      assert s == [];
      return None;
    }
    if buf[|buf| - 1] == d {
      buf := buf[..|buf| - 1];
    }
    item := Some(buf);
  }

  /** `Lines::next` on bytes: None exactly when the stream is exhausted;
      otherwise the next line without its line ending. */
  method LinesNext(r: BufReader) returns (item: Option<seq<byte>>)
    requires r.Valid()
    modifies r, r.buf, r.inner
    ensures r.Valid()
    ensures item.None? <==> old(r.Unread()) == []
    ensures item.Some? ==> item.value == StripLineEnding(UntilDelim(old(r.Unread()), Newline))
    ensures r.Unread() == old(r.Unread())[|UntilDelim(old(r.Unread()), Newline)|..]
  {
    ghost var s := r.Unread();
    var buf, n := ReadUntil(r, Newline, []);
    assert buf == UntilDelim(s, Newline) && |buf| == n;
    if n == 0 {
      assert s == [];
      return None;
    }
    if buf[|buf| - 1] == Newline {
      buf := buf[..|buf| - 1];
      if buf != [] && buf[|buf| - 1] == CarriageReturn {
        buf := buf[..|buf| - 1];
      }
    }
    item := Some(buf);
  }
}

/** The buffered socket stream, its line reader, and the chunked reader on top of them. */
module Streams {
  import opened Bytes
  import opened Text
  import opened Chunked

  /** A connected socket: the bytes the peer sends before it closes, in pieces no one controls. */
  class Socket {
    var wire: string
    const faulty: bool

    constructor (wire: string, faulty: bool)
      ensures this.wire == wire && this.faulty == faulty
    {
      this.wire := wire;
      this.faulty := faulty;
    }

    /** `recv`: any non-empty part of what is left, nothing at the end, an error only on a faulty socket. */
    method Recv(size: nat) returns (n: int, data: string)
      modifies this
      ensures n < 0 ==> faulty && wire == old(wire) && data == ""
      ensures n >= 0 ==> n == |data| <= size && old(wire) == data + wire
      ensures n == 0 ==> size == 0 || old(wire) == ""
    {
      var fails: bool := *;
      if faulty && fails {
        return -1, "";
      }
      if size == 0 || wire == "" {
        return 0, "";
      }
      var k: nat :| 1 <= k <= size && k <= |wire|;
      n, data := k, wire[..k];
      wire := wire[k..];
    }

    /** `select` before a read: can time out only on a faulty socket. */
    method IsReadable() returns (r: bool)
      ensures r || faulty
    {
      var late: bool := *;
      r := !(faulty && late);
    }
  }

  const READ_BUFF_SIZE := 4096
  const RECV_BUFSIZ := 4096

  class SocketStream {
    const sock: Socket
    const buff: array<char>
    var off: nat
    var contentSize: nat

    ghost predicate Valid()
      reads this, buff
    {
      buff.Length == READ_BUFF_SIZE && (off < contentSize ==> contentSize <= buff.Length)
    }

    /** The bytes a reader has still to get: the buffered ones, then the socket's. */
    ghost function Pending(): string
      reads this, buff, sock
      requires Valid()
    {
      (if off < contentSize then buff[off..contentSize] else "") + sock.wire
    }

    ghost function Frame(): set<object>
    {
      {this, buff, sock}
    }

    constructor (sock: Socket)
      ensures Valid() && this.sock == sock && Pending() == sock.wire && fresh(Frame() - {sock})
    {
      this.sock := sock;
      buff := new char[READ_BUFF_SIZE];
      off, contentSize := 0, 0;
    }

    /** Gets the next bytes in order, losing and repeating none. */
    method Read(size: nat) returns (n: int, data: string)
      requires Valid()
      modifies Frame()
      ensures Valid()
      ensures n < 0 ==> sock.faulty && Pending() == old(Pending()) && data == ""
      ensures n >= 0 ==> n == |data| <= size && old(Pending()) == data + Pending()
      ensures n == 0 ==> size == 0 || old(Pending()) == ""
    {
      if off < contentSize {
        data := ReadBuffered(size);
        return |data|, data;
      }
      assert Pending() == sock.wire;
      var readable := sock.IsReadable();
      if !readable {
        return -1, "";
      }
      off, contentSize := 0, 0;
      if size < READ_BUFF_SIZE {
        n, data := ReadThrough(size);
      } else {
        n, data := sock.Recv(size);
      }
    }

    method ReadBuffered(size: nat) returns (data: string)
      requires Valid() && off < contentSize
      modifies this`off
      ensures Valid() && |data| <= size && (data == "" ==> size == 0) && old(Pending()) == data + Pending()
    {
      var remaining := contentSize - off;
      var n := if size <= remaining then size else remaining;
      data := buff[off..off + n];
      assert buff[off..contentSize] == data + buff[off + n..contentSize];
      Assoc(data, buff[off + n..contentSize], sock.wire);
      off := off + n;
    }

    /** Fills the empty buffer and takes from it. */
    method ReadThrough(size: nat) returns (n: int, data: string)
      requires Valid() && off == contentSize == 0 && size < READ_BUFF_SIZE
      modifies Frame()
      ensures Valid()
      ensures n < 0 ==> sock.faulty && Pending() == old(Pending()) && data == ""
      ensures n >= 0 ==> n == |data| <= size && old(Pending()) == data + Pending()
      ensures n == 0 ==> size == 0 || old(Pending()) == ""
    {
      var got;
      n, got := sock.Recv(READ_BUFF_SIZE);
      if n <= 0 {
        return n, "";
      }
      Fill(got);
      if n <= size {
        return n, got;
      }
      off, contentSize := size, n;
      assert buff[size..n] == got[size..];
      assert got[..size] + got[size..] == got;
      Assoc(got[..size], got[size..], sock.wire);
      return size, got[..size];
    }

    method Fill(data: string)
      requires |data| <= buff.Length
      modifies buff
      ensures buff[..|data|] == data
    {
      for i := 0 to |data|
        invariant buff[..i] == data[..i]
      {
        buff[i] := data[i];
      }
    }
  }

  lemma LineStep(s: string, i: nat, c: char, rest: string)
    requires i <= |s| && s[i..] == [c] + rest
    ensures i < |s| && rest == s[i + 1..] && s[..i + 1] == s[..i] + [c]
    ensures LineEnd(s[i..]) == if c == '\n' then 1 else 1 + LineEnd(s[i + 1..])
  {
    assert s[i..][1..] == rest && s[i..][0] == c;
  }

  lemma NoLine(s: string)
    ensures s[0..] == s && s[..0] == "" && (s == "" ==> LineEnd(s) == 0)
  {
  }

  /** A line reader: a caller's fixed buffer that spills into a growing one. */
  class LineReader {
    const strm: SocketStream
    const fixed: array<char>
    var used: nat
    var growing: string

    ghost predicate Valid()
      reads this, fixed, strm, strm.buff
    {
      && strm.Valid() && fixed !in strm.Frame()
      && 1 < fixed.Length && used < fixed.Length
      && (growing != "" ==> used == fixed.Length - 1 && fixed[..used] <= growing)
    }

    /** `ptr()` and `size()`: the bytes held. */
    function Held(): string
      reads this, fixed
      requires used <= fixed.Length
    {
      if growing == "" then fixed[..used] else growing
    }

    constructor (strm: SocketStream, size: nat)
      requires strm.Valid() && size > 1
      ensures Valid() && this.strm == strm && fresh(this) && fresh(fixed)
    {
      this.strm := strm;
      fixed := new char[size];
      used, growing := 0, "";
    }

    method Append(c: char)
      requires Valid()
      modifies this, fixed
      ensures Valid() && Held() == old(Held()) + [c]
      ensures strm.Pending() == old(strm.Pending())
    {
      if used < fixed.Length - 1 {
        fixed[used] := c;
        used := used + 1;
        assert fixed[..used] == fixed[..used - 1] + [c];
      } else {
        if growing == "" {
          growing := fixed[..used];
        }
        growing := growing + [c];
      }
    }

    /** Takes one line, byte by byte: up to its line feed, or to the end of the stream. */
    method GetLine() returns (ok: bool)
      requires Valid()
      modifies this, fixed, strm.Frame()
      ensures Valid()
      ensures ok ==> old(strm.Pending()) != "" && Held() == Line(old(strm.Pending())) && strm.Pending() == AfterLine(old(strm.Pending()))
      ensures !ok ==> old(strm.Pending()) == "" || strm.sock.faulty
    {
      hide LineEnd;
      ghost var s := strm.Pending();
      used, growing := 0, "";
      NoLine(s);
      var i := 0;
      while true
        invariant 0 <= i <= |s| && Valid() && strm.Pending() == s[i..] && Held() == s[..i]
        invariant LineEnd(s) == i + LineEnd(s[i..])
        invariant i == 0 || s != ""
        decreases |s| - i, 1
      {
        ghost var rest := strm.Pending();
        var n, data := strm.Read(1);
        if n < 0 {
          return false;
        }
        if n == 0 {
          NoLine(rest);
          return i != 0;
        }
        var byte := data[0];
        LineStep(s, i, byte, strm.Pending());
        Append(byte);
        i := i + 1;
        if byte == '\n' {
          return true;
        }
      }
    }
  }

  /** The receiver of body data: what it got, call by call, and its answers. */
  class PieceSink {
    var pieces: seq<string>
    const accept: seq<string> -> bool

    /** The last of the pieces `got` was taken; the readers stop at the first that is not. */
    ghost predicate Agreed(got: seq<string>)
      reads this
    {
      got == [] || accept(pieces)
    }

    constructor (accept: seq<string> -> bool)
      ensures pieces == [] && this.accept == accept
    {
      pieces := [];
      this.accept := accept;
    }

    method Take(d: string) returns (ok: bool)
      modifies this
      ensures pieces == old(pieces) + [d] && ok == accept(pieces)
    {
      pieces := pieces + [d];
      ok := accept(pieces);
    }
  }

  lemma ConcatSnoc(xs: seq<string>, x: string)
    ensures Concat(xs + [x]) == Concat(xs) + x
  {
    ConcatAppend(xs, [x]);
    assert [x][1..] == [] && x + "" == x;
  }

  /** Every piece is a read that fits the receive buffer and is not empty. */
  predicate ReadSized(got: seq<string>) { forall p :: p in got ==> 0 < |p| <= RECV_BUFSIZ }

  /** Hands over `len` bytes in whatever pieces the stream gives. */
  method ReadContentWithLength(strm: SocketStream, len: nat, out: PieceSink) returns (ok: bool, ghost got: seq<string>)
    requires strm.Valid()
    modifies strm.Frame(), out
    ensures strm.Valid() && out.pieces == old(out.pieces) + got && ReadSized(got)
    ensures old(strm.Pending()) == Concat(got) + strm.Pending() && |Concat(got)| <= len
    ensures ok ==> |Concat(got)| == len
    ensures ok ==> out.Agreed(got)
    ensures !ok && !strm.sock.faulty && out.Agreed(got) ==> strm.Pending() == "" && |Concat(got)| < len
  {
    hide Concat;
    NoPieces();
    got := [];
    var r := 0;
    assert "" + strm.Pending() == strm.Pending() && out.pieces + [] == out.pieces;
    while r < len
      invariant strm.Valid() && r == |Concat(got)| <= len && ReadSized(got)
      invariant out.pieces == old(out.pieces) + got && out.Agreed(got)
      invariant old(strm.Pending()) == Concat(got) + strm.Pending()
    {
      ghost var before := strm.Pending();
      var n, data := strm.Read(if len - r < RECV_BUFSIZ then len - r else RECV_BUFSIZ);
      if n <= 0 {
        return false, got;
      }
      ConcatSnoc(got, data);
      Assoc(Concat(got), data, strm.Pending());
      Assoc(old(out.pieces), got, [data]);
      got := got + [data];
      var accepted := out.Take(data);
      if !accepted {
        return false, got;
      }
      r := r + n;
    }
    return true, got;
  }

  function Prefixed(fields: Fields, d: Decoded): Decoded { d.(fields := fields + d.fields) }

  lemma TrailerCases(s: string)
    ensures s == "" ==> !Trailer(s).ok
    ensures s != "" && CStr(Line(s)) == CRLF ==> Trailer(s) == Decoded("", true, AfterLine(s), [])
    ensures s != "" && CStr(Line(s)) != CRLF && |Line(s)| > HEADER_MAX ==> !Trailer(s).ok
    ensures s != "" && CStr(Line(s)) != CRLF && |Line(s)| <= HEADER_MAX ==>
      Trailer(s) == Prefixed(FieldOf(Line(s)), Trailer(AfterLine(s)))
  {
    hide CStr, LineEnd, ParseHeader;
  }

  lemma TrailerStep(s: string, fields: Fields)
    ensures s == "" ==> !Trailer(s).ok
    ensures s != "" && CStr(Line(s)) == CRLF ==> Prefixed(fields, Trailer(s)) == Decoded("", true, AfterLine(s), fields)
    ensures s != "" && CStr(Line(s)) != CRLF && |Line(s)| > HEADER_MAX ==> !Trailer(s).ok
    ensures s != "" && CStr(Line(s)) != CRLF && |Line(s)| <= HEADER_MAX ==>
      Prefixed(fields, Trailer(s)) == Prefixed(fields + FieldOf(Line(s)), Trailer(AfterLine(s)))
  {
    hide Trailer, CStr, LineEnd, ParseHeader;
    TrailerCases(s);
    Assoc(fields, FieldOf(Line(s)), Trailer(AfterLine(s)).fields);
  }

  lemma AfterShorter(s: string)
    requires s != ""
    ensures |AfterLine(s)| < |s|
  {
  }

  /** The trailer part: fields up to the empty line. */
  method ReadTrailer(strm: SocketStream, lines: LineReader) returns (ok: bool, fields: Fields)
    requires lines.Valid() && lines.strm == strm
    modifies lines, lines.fixed, strm.Frame()
    ensures lines.Valid()
    ensures var d := Trailer(old(strm.Pending()));
            && (ok ==> d.ok && fields == d.fields && strm.Pending() == d.rest)
            && (!strm.sock.faulty ==> ok == d.ok)
  {
    hide Trailer, LineEnd, CStr, ParseHeader;
    ghost var s := strm.Pending();
    fields := [];
    TrailerStep(s, fields);
    ok := lines.GetLine();
    if !ok {
      return false, fields;
    }
    ghost var cur := s;
    assert [] + Trailer(s).fields == Trailer(s).fields;
    while CStr(lines.Held()) != CRLF
      invariant lines.Valid() && cur != "" && lines.Held() == Line(cur) && strm.Pending() == AfterLine(cur)
      invariant Trailer(s) == Prefixed(fields, Trailer(cur))
      decreases |cur|
    {
      TrailerStep(cur, fields);
      AfterShorter(cur);
      if |lines.Held()| > HEADER_MAX {
        return false, fields;
      }
      fields := fields + FieldOf(lines.Held());
      cur := strm.Pending();
      TrailerStep(cur, fields);
      ok := lines.GetLine();
      if !ok {
        return false, fields;
      }
    }
    TrailerStep(cur, fields);
    return true, fields;
  }

  function After(got: string, d: Decoded): Decoded { d.(payload := got + d.payload) }

  /** What the size line at the front of `s` makes of the rest. */
  lemma DecodeCases(s: string)
    requires s != ""
    ensures var n := StrToUl(Line(s)); var t := AfterLine(s);
      && (n.None? || n.value == ULONG_MAX ==> Decode(s) == FAILED)
      && (n == Some(0) ==> Decode(s) == Trailer(t))
      && (n.Some? && 0 < n.value != ULONG_MAX && |t| < n.value ==> Decode(s) == FAILED.(payload := t))
      && (n.Some? && 0 < n.value != ULONG_MAX && |t| >= n.value ==> Decode(s) == AfterData(t, n.value))
  {
    hide CStr, LineEnd, StrToUl, Trailer;
  }

  function AfterData(t: string, n: nat): Decoded
    requires n <= |t|
  {
    var data, u := t[..n], t[n..];
    if u == "" || CStr(Line(u)) != CRLF then FAILED.(payload := data) else After(data, Decode(AfterLine(u)))
  }

  lemma AfterTwice(a: string, b: string, d: Decoded)
    ensures After(a, After(b, d)) == After(a + b, d)
  {
    assert a + (b + d.payload) == (a + b) + d.payload;
  }

  lemma TrailerPayload(s: string)
    ensures Trailer(s).payload == ""
    decreases |s|
  {
    hide CStr, LineEnd, ParseHeader;
    if s != "" && CStr(Line(s)) != CRLF && |Line(s)| <= HEADER_MAX {
      TrailerPayload(AfterLine(s));
    }
  }

  /** After the `n` data bytes at the front of `t` comes an empty line and then something more. */
  predicate WellEnded(t: string, n: nat) {
    n <= |t| && t[n..] != "" && CStr(Line(t[n..])) == CRLF && AfterLine(t[n..]) != ""
  }

  /** One chunk after its size line: the data, the line break, and the next line. */
  method ReadChunk(strm: SocketStream, lines: LineReader, n: nat, out: PieceSink) returns (ok: bool, ghost got: seq<string>)
    requires lines.Valid() && lines.strm == strm
    modifies lines, lines.fixed, strm.Frame(), out
    ensures lines.Valid() && out.pieces == old(out.pieces) + got && ReadSized(got)
    ensures Concat(got) <= old(strm.Pending()) && |Concat(got)| <= n
    ensures ok ==>
      var t := old(strm.Pending());
      out.Agreed(got) && WellEnded(t, n) && Concat(got) == t[..n]
      && lines.Held() == Line(AfterLine(t[n..])) && strm.Pending() == AfterLine(AfterLine(t[n..]))
    ensures !ok && !strm.sock.faulty && out.Agreed(got) ==>
      var t := old(strm.Pending());
      !WellEnded(t, n) && Concat(got) == if |t| < n then t else t[..n]
  {
    hide CStr, LineEnd, Concat;
    ghost var t := strm.Pending();
    ok, got := ReadContentWithLength(strm, n, out);
    assert t[..|Concat(got)|] == Concat(got) && t[|Concat(got)|..] == strm.Pending();
    if !ok {
      assert Concat(got) + "" == Concat(got);
      return false, got;
    }
    ok := lines.GetLine();
    if !ok || CStr(lines.Held()) != CRLF {
      return false, got;
    }
    ok := lines.GetLine();
  }

  /** What a finished round leaves to decode. */
  lemma RoundDone(t: string, n: nat, got: string)
    requires n <= |t|
    ensures WellEnded(t, n) ==> AfterData(t, n) == After(t[..n], Decode(AfterLine(t[n..])))
    ensures !WellEnded(t, n) ==> !AfterData(t, n).ok && AfterData(t, n).payload == t[..n]
  {
    hide CStr, LineEnd, Decode;
    EmptyDecode("");
    assert t[..n] + "" == t[..n];
  }

  lemma PrefixJoin(a: string, b: string, c: string)
    requires b <= c
    ensures a + b <= a + c
  {
  }

  /**
   * Reads a chunked body. Whatever the sizes of the socket's reads, what is handed over is the decoded payload, cut into
   * non-empty pieces; on a fault or a refusal it is a prefix of it.
   */
  method ReadContentChunked(strm: SocketStream, out: PieceSink) returns (ok: bool, fields: Fields, ghost got: seq<string>)
    requires strm.Valid()
    modifies strm.Frame(), out
    ensures strm.Valid() && out.pieces == old(out.pieces) + got && ReadSized(got)
    ensures Concat(got) <= Decode(old(strm.Pending())).payload
    ensures ok ==> out.Agreed(got)
    ensures var d := Decode(old(strm.Pending()));
            && (ok ==> d.ok && Concat(got) == d.payload && fields == d.fields && strm.Pending() == d.rest)
            && (!strm.sock.faulty && out.Agreed(got) ==> ok == d.ok && Concat(got) == d.payload)
  {
    hide Decode, Trailer, LineEnd, CStr, StrToUl, Concat, WellEnded, AfterData;
    ghost var s := strm.Pending();
    got, fields := [], [];
    NoPieces();
    assert out.pieces + [] == out.pieces;
    var lines := new LineReader(strm, 16);
    EmptyDecode(s);
    AfterNothing(Decode(s));
    ok := lines.GetLine();
    if !ok {
      return false, fields, got;
    }
    ghost var cur := s;
    while true
      invariant lines.Valid() && fresh(lines) && fresh(lines.fixed) && lines.strm == strm
      invariant cur != "" && lines.Held() == Line(cur) && strm.Pending() == AfterLine(cur)
      invariant out.pieces == old(out.pieces) + got && ReadSized(got) && out.Agreed(got)
      invariant Decode(s) == After(Concat(got), Decode(cur))
      decreases |cur|
    {
      DecodeCases(cur);
      var size := StrToUl(lines.Held());
      if size.None? || size.value == ULONG_MAX || size.value == 0 {
        TrailerPayload(strm.Pending());
        assert Concat(got) + "" == Concat(got);
        if size == Some(0) {
          ok, fields := ReadTrailer(strm, lines);
          return ok, fields, got;
        }
        return false, fields, got;
      }
      ghost var t, before := strm.Pending(), got;
      ghost var more;
      ok, more := ReadChunk(strm, lines, size.value, out);
      ConcatAppend(before, more);
      Assoc(old(out.pieces), before, more);
      got := before + more;
      RoundFacts(s, t, size.value, Concat(before), Concat(more), Decode(cur));
      if !ok {
        return false, fields, got;
      }
      AfterTwice(Concat(before), Concat(more), Decode(AfterLine(t[size.value..])));
      AfterLineShorter(cur, size.value);
      cur := AfterLine(t[size.value..]);
    }
  }

  lemma AfterLineShorter(cur: string, n: nat)
    requires cur != "" && n <= |AfterLine(cur)|
    ensures |AfterLine(AfterLine(cur)[n..])| < |cur|
  {
  }

  lemma RoundFacts(s: string, t: string, n: nat, before: string, more: string, cur: Decoded)
    requires more <= t && |more| <= n
    requires cur == if |t| < n then FAILED.(payload := t) else AfterData(t, n)
    requires Decode(s) == After(before, cur)
    ensures before + more <= Decode(s).payload
    ensures WellEnded(t, n) ==> n <= |t| && AfterLine(t[n..]) != "" && cur == After(t[..n], Decode(AfterLine(t[n..])))
    ensures !WellEnded(t, n) ==> !Decode(s).ok && Decode(s).payload == before + if |t| < n then t else t[..n]
  {
    hide Decode, LineEnd, CStr, AfterData, WellEnded;
    EndedFits(t, n);
    if n <= |t| {
      RoundDone(t, n, before);
      assert more <= t[..n];
      PayloadStart(t, n);
    }
    PrefixJoin(before, more, cur.payload);
  }

  lemma EndedFits(t: string, n: nat)
    ensures WellEnded(t, n) ==> n <= |t| && AfterLine(t[n..]) != ""
  {
  }

  lemma PayloadStart(t: string, n: nat)
    requires n <= |t|
    ensures t[..n] <= AfterData(t, n).payload
  {
    hide Decode, LineEnd, CStr;
  }

  lemma NoPieces()
    ensures Concat([]) == ""
  {
  }

  lemma EmptyDecode(s: string)
    ensures s == "" ==> Decode(s) == FAILED
  {
  }

  lemma AfterNothing(d: Decoded)
    ensures After("", d) == d
  {
  }
}

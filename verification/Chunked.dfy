/** Chunked transfer coding: what the reader makes of any byte stream, and what the writer's operations put on one. */
module Chunked {
  import opened Bytes
  import opened Text
  import Query

  const ULONG_MAX := 0xffff_ffff_ffff_ffff
  const HEADER_MAX := 8192

  // ----- Chunk sizes -----

  function LowerDigit(n: nat): (c: char)
    requires n < 16
    ensures Query.HexValue(c) == Some(n) && !IsSpace(c) && c != '+' && c != '-' && c != '\0' && (c == '0' <==> n == 0)
  {
    "0123456789abcdef"[n]
  }

  function Hex(n: nat): (s: string)
    ensures s != ""
  {
    if n < 16 then [LowerDigit(n)] else Hex(n / 16) + [LowerDigit(n % 16)]
  }

  lemma HexStep(n: nat, ret: string)
    requires n > 0
    ensures Hex(n) + ret ==
      if n / 16 > 0 then Hex(n / 16) + ([LowerDigit(n % 16)] + ret) else [LowerDigit(n % 16)] + ret
  {
    hide LowerDigit;
  }

  lemma HexFirst(n: nat)
    ensures Hex(n) == if n / 16 > 0 then Hex(n / 16) + [LowerDigit(n % 16)] else [LowerDigit(n % 16)]
  {
  }

  method FromIToHex(size: nat) returns (ret: string)
    ensures ret == Hex(size)
  {
    hide LowerDigit, Hex;
    HexFirst(size);
    ret := [LowerDigit(size % 16)];
    var n := size / 16;
    while n > 0
      invariant Hex(size) == if n > 0 then Hex(n) + ret else ret
    {
      HexStep(n, ret);
      ret := [LowerDigit(n % 16)] + ret;
      n := n / 16;
    }
  }

  /** The part of a buffer that C string functions see. */
  function CStr(s: string): string
  {
    if s == "" || s[0] == '\0' then "" else [s[0]] + CStr(s[1..])
  }

  function HexRun(s: string, acc: nat): nat
  {
    if s == "" || Query.HexValue(s[0]).None? then acc
    else HexRun(s[1..], acc * 16 + Query.HexValue(s[0]).value)
  }

  /** Without a sign, and without a mark of base sixteen that digits follow. */
  function Unsigned(t: string): string { if t != "" && (t[0] == '-' || t[0] == '+') then t[1..] else t }
  function Unmarked(u: string): string {
    if |u| > 2 && u[0] == '0' && (u[1] == 'x' || u[1] == 'X') && Query.HexValue(u[2]).Some? then u[2..] else u
  }

  /** `strtoul(s, &end, 16)`; nothing when no digit was read. */
  function StrToUl(s: string): Option<nat>
  {
    var t := SkipSpaces(CStr(s));
    var neg := t != "" && t[0] == '-';
    var v := Unmarked(Unsigned(t));
    if v == "" || Query.HexValue(v[0]).None? then None else
      var n := HexRun(v, 0);
      Some(if n > ULONG_MAX then ULONG_MAX else if neg && n > 0 then ULONG_MAX + 1 - n else n)
  }

  // ----- Lines -----

  /** Where the first line ends, just after its line feed or at the end of the stream. */
  function LineEnd(s: string): (n: nat)
    ensures n <= |s| && (s != "" ==> n > 0)
  {
    if s == "" then 0 else if s[0] == '\n' then 1 else 1 + LineEnd(s[1..])
  }

  function Line(s: string): string { s[..LineEnd(s)] }
  function AfterLine(s: string): string { s[LineEnd(s)..] }

  // ----- Header fields -----

  type Fields = seq<(string, string)>

  predicate IsLocation(key: string) { |key| == 8 && StartsWithIgnoreCase(key, "Location") }

  /** `parse_header` on a line without its terminator. */
  function ParseHeader(s: string): Fields
  {
    var t := TrimRight(s);
    var i := Find(t, ":");
    if i == |t| then [] else
      var key, val := t[..i], TrimLeft(t[i + 1..]);
      if val == "" then [] else [(key, if IsLocation(key) then val else Query.DecodeUrl(val, false))]
  }

  function FieldOf(line: string): Fields { if |line| < 2 then [] else ParseHeader(line[..|line| - 2]) }

  // ----- The reader -----

  /** What a reader hands over, whether it succeeds, what it leaves unread, and the trailer fields. */
  datatype Decoded = Decoded(payload: string, ok: bool, rest: string, fields: Fields)
  const FAILED := Decoded("", false, "", [])

  function Trailer(s: string): Decoded
    decreases |s|
  {
    if s == "" then FAILED
    else if CStr(Line(s)) == CRLF then Decoded("", true, AfterLine(s), [])
    else if |Line(s)| > HEADER_MAX then FAILED
    else
      var d := Trailer(AfterLine(s));
      d.(fields := FieldOf(Line(s)) + d.fields)
  }

  /** What `read_content_chunked` makes of the stream `s`. */
  function Decode(s: string): Decoded
    decreases |s|
  {
    if s == "" then FAILED else
      var n := StrToUl(Line(s));
      var t := AfterLine(s);
      if n.None? || n.value == ULONG_MAX then FAILED
      else if n.value == 0 then Trailer(t)
      else if |t| < n.value then FAILED.(payload := t)
      else
        var data, u := t[..n.value], t[n.value..];
        if u == "" || CStr(Line(u)) != CRLF then FAILED.(payload := data)
        else
          var d := Decode(AfterLine(u));
          d.(payload := data + d.payload)
  }

  // ----- The writer -----

  /** The operations a content provider performs on its sink. */
  datatype SinkOp = Write(data: string) | Done | DoneWithTrailer(fields: Fields)

  function Chunk(data: string): string { Hex(|data|) + CRLF + data + CRLF }

  function FieldLines(fields: Fields): string
  {
    if fields == [] then "" else fields[0].0 + ": " + fields[0].1 + CRLF + FieldLines(fields[1..])
  }

  function OpBytes(op: SinkOp): string
  {
    match op
    case Write(data) => if data == "" then "" else Chunk(data)
    case Done => "0" + CRLF + CRLF
    case DoneWithTrailer(fields) => "0" + CRLF + FieldLines(fields) + CRLF
  }

  function Wire(ops: seq<SinkOp>): string
  {
    if ops == [] then "" else OpBytes(ops[0]) + Wire(ops[1..])
  }

  /** Everything the provider wrote. */
  function Written(ops: seq<SinkOp>): string
  {
    if ops == [] then ""
    else (if ops[0].Write? then ops[0].data else "") + Written(ops[1..])
  }

  // ----- The reader undoes the writer -----

  lemma {:induction false} HexRunAppend(s: string, c: char, acc: nat)
    requires Query.HexValue(c).Some? && forall i :: 0 <= i < |s| ==> Query.HexValue(s[i]).Some?
    ensures HexRun(s + [c], acc) == HexRun(s, acc) * 16 + Query.HexValue(c).value
  {
    var t := s + [c];
    if s == "" {
      assert t[1..] == "";
    } else {
      assert t[1..] == s[1..] + [c];
      HexRunAppend(s[1..], c, acc * 16 + Query.HexValue(s[0]).value);
    }
  }

  lemma {:induction false} HexRunStops(s: string, rest: string, acc: nat)
    requires rest != "" && Query.HexValue(rest[0]).None?
    ensures HexRun(s + rest, acc) == HexRun(s, acc)
  {
    if s == "" {
      assert s + rest == rest;
    } else {
      assert (s + rest)[1..] == s[1..] + rest;
      if Query.HexValue(s[0]).Some? {
        HexRunStops(s[1..], rest, acc * 16 + Query.HexValue(s[0]).value);
      }
    }
  }

  predicate PlainDigits(s: string) {
    forall i :: 0 <= i < |s| ==> Query.HexValue(s[i]).Some? && s[i] != '\0' && s[i] != '\n' && !IsSpace(s[i]) && s[i] != '+' && s[i] != '-'
  }

  lemma {:induction false} HexReads(n: nat)
    ensures PlainDigits(Hex(n)) && HexRun(Hex(n), 0) == n && (Hex(n)[0] == '0' ==> n == 0 && |Hex(n)| == 1)
  {
    if n < 16 {
      assert Hex(n)[1..] == "";
    } else {
      HexReads(n / 16);
      HexRunAppend(Hex(n / 16), LowerDigit(n % 16), 0);
    }
  }

  lemma {:induction false} CStrWhole(s: string)
    requires '\0' !in s
    ensures CStr(s) == s
  {
    if s != "" {
      CStrWhole(s[1..]);
    }
  }

  lemma {:induction false} LineOf(a: string, rest: string)
    requires '\n' !in a
    ensures Line(a + "\n" + rest) == a + "\n" && AfterLine(a + "\n" + rest) == rest
  {
    var s := a + "\n" + rest;
    if a == "" {
      assert LineEnd(s) == 1;
    } else {
      assert s[1..] == a[1..] + "\n" + rest;
      LineOf(a[1..], rest);
      assert LineEnd(s[1..]) == |a| by {
        assert |Line(s[1..])| == |a[1..] + "\n"|;
      }
    }
    assert s[..|a| + 1] == a + "\n" && s[|a| + 1..] == rest;
  }

  /** A size line gives its size back, for every size a `size_t` holds. */
  lemma SizeLine(n: nat, rest: string)
    ensures var s := Hex(n) + CRLF + rest;
            s != "" && AfterLine(s) == rest && Line(s) == Hex(n) + CRLF
    ensures StrToUl(Hex(n) + CRLF) == Some(if n > ULONG_MAX then ULONG_MAX else n)
  {
    var h := Hex(n);
    HexReads(n);
    assert h + CRLF + rest == (h + "\r") + "\n" + rest;
    LineOf(h + "\r", rest);
    assert (h + "\r") + "\n" == h + CRLF;
    CStrWhole(h + CRLF);
    HexRunStops(h, CRLF, 0);
    assert (h + CRLF)[0] == h[0];
  }

  lemma EmptyLine(rest: string)
    ensures var s := CRLF + rest; s != "" && Line(s) == CRLF && CStr(Line(s)) == CRLF && AfterLine(s) == rest
  {
    assert CRLF + rest == "\r" + "\n" + rest;
    LineOf("\r", rest);
    CStrWhole(CRLF);
  }

  lemma DecodeChunk(data: string, rest: string)
    requires 0 < |data| < ULONG_MAX
    ensures var d := Decode(rest); Decode(Chunk(data) + rest) == d.(payload := data + d.payload)
  {
    hide Hex, StrToUl, CStr, LineEnd;
    var t := data + (CRLF + rest);
    SizeLine(|data|, t);
    assert Chunk(data) + rest == Hex(|data|) + CRLF + t;
    assert t[..|data|] == data && t[|data|..] == CRLF + rest;
    EmptyLine(rest);
  }

  /** A chunk whose size the reader cannot tell from an overflow is refused. */
  lemma DecodeHugeChunk(data: string, rest: string)
    requires |data| >= ULONG_MAX
    ensures !Decode(Chunk(data) + rest).ok
  {
    hide Hex, StrToUl, CStr, LineEnd;
    var t := data + (CRLF + rest);
    SizeLine(|data|, t);
    assert Chunk(data) + rest == Hex(|data|) + CRLF + t;
  }

  lemma DecodeZero(rest: string)
    ensures Decode("0" + CRLF + rest) == Trailer(rest)
  {
    hide StrToUl, CStr, LineEnd;
    SizeLine(0, rest);
    assert Hex(0) == "0";
  }

  // ----- Trailer fields -----

  /** A field the reader gives back unchanged. */
  predicate FieldOk(f: (string, string)) {
    && ':' !in f.0 && '\n' !in f.0 && '\n' !in f.1
    && f.1 != "" && IsTrimmed(f.1) && (IsLocation(f.0) || Query.DecodeUrl(f.1, false) == f.1)
    && |f.0| + |f.1| + 4 <= HEADER_MAX
  }

  lemma FieldBack(f: (string, string))
    requires FieldOk(f)
    ensures ParseHeader(f.0 + ": " + f.1) == [f]
  {
    hide Query.DecodeUrl, IsLocation;
    var s := f.0 + ": " + f.1;
    assert s[|s| - 1] == f.1[|f.1| - 1];
    TrimRightIs(s, |s|);
    FindChar(s, ':', |f.0|);
    assert s[..|f.0|] == f.0 && s[|f.0| + 1..] == " " + f.1;
    assert (" " + f.1)[1..] == f.1;
    TrimLeftIs(" " + f.1, 1);
  }

  lemma FieldLine(f: (string, string), rest: string)
    requires FieldOk(f)
    ensures var d := Trailer(rest); Trailer((f.0 + ": " + f.1 + CRLF) + rest) == d.(fields := [f] + d.fields)
  {
    hide LineEnd, CStr, ParseHeader, FieldOk;
    var a := f.0 + ": " + f.1;
    var s := (a + CRLF) + rest;
    FieldNoBreak(f);
    assert s == (a + "\r") + "\n" + rest;
    LineOf(a + "\r", rest);
    assert Line(s) == a + CRLF && (a + CRLF)[..|a|] == a;
    CStrKeeps(a + CRLF);
    FieldBack(f);
  }

  lemma FieldNoBreak(f: (string, string))
    requires FieldOk(f)
    ensures '\n' !in f.0 + ": " + f.1 + "\r" && |f.0 + ": " + f.1 + CRLF| <= HEADER_MAX
  {
  }

  lemma CStrKeeps(s: string)
    requires |s| > 2 && '\n' !in s[..|s| - 1]
    ensures CStr(s) != CRLF
  {
    assert s[1] == s[..|s| - 1][1];
    CStrPrefix(s);
    assert CRLF[1] == '\n';
  }

  lemma {:induction false} CStrPrefix(s: string)
    ensures |CStr(s)| <= |s| && forall i :: 0 <= i < |CStr(s)| ==> CStr(s)[i] == s[i]
  {
    if s != "" {
      CStrPrefix(s[1..]);
    }
  }

  lemma {:induction false} TrailerBack(fields: Fields, rest: string)
    requires forall f :: f in fields ==> FieldOk(f)
    ensures Trailer(FieldLines(fields) + CRLF + rest) == Decoded("", true, rest, fields)
  {
    hide FieldOk, LineEnd, CStr;
    if fields == [] {
      assert "" + CRLF + rest == CRLF + rest;
      EmptyLine(rest);
    } else {
      hide Trailer;
      var f := fields[0];
      TrailerBack(fields[1..], rest);
      var tail := FieldLines(fields[1..]) + CRLF + rest;
      FieldLine(f, tail);
      assert FieldLines(fields) + CRLF + rest == (f.0 + ": " + f.1 + CRLF) + tail;
      assert [f] + fields[1..] == fields;
    }
  }

  // ----- Whole streams -----

  /** Sizes fit the reader's integer, and trailer fields survive. */
  predicate OpOk(op: SinkOp) {
    match op
    case Write(data) => |data| < ULONG_MAX
    case Done => true
    case DoneWithTrailer(fields) => forall f :: f in fields ==> FieldOk(f)
  }

  function OpFields(op: SinkOp): Fields { if op.DoneWithTrailer? then op.fields else [] }

  /** One end of data, and nothing but empty writes after it. */
  predicate Finished(ops: seq<SinkOp>) {
    ops != [] &&
    if ops[0].Write? then Finished(ops[1..])
    else forall op :: op in ops[1..] ==> op == Write("")
  }

  function SentFields(ops: seq<SinkOp>): Fields
  {
    if ops == [] then [] else if ops[0].Write? then SentFields(ops[1..]) else OpFields(ops[0])
  }

  lemma DecodeOp(op: SinkOp, rest: string)
    requires OpOk(op)
    ensures Decode(OpBytes(op) + rest) ==
      if op.Write? then var d := Decode(rest); d.(payload := op.data + d.payload)
      else Decoded("", true, rest, OpFields(op))
  {
    hide Decode, Hex;
    match op
    case Write(data) =>
      if data == "" {
        assert "" + rest == rest && "" + Decode(rest).payload == Decode(rest).payload;
      } else {
        DecodeChunk(data, rest);
      }
    case Done =>
      TrailerBack([], rest);
      assert FieldLines([]) + CRLF + rest == CRLF + rest;
      DecodeZero(CRLF + rest);
      assert ("0" + CRLF + CRLF) + rest == "0" + CRLF + (CRLF + rest);
    case DoneWithTrailer(fields) =>
      TrailerBack(fields, rest);
      DecodeZero(FieldLines(fields) + CRLF + rest);
      assert ("0" + CRLF + FieldLines(fields) + CRLF) + rest == "0" + CRLF + (FieldLines(fields) + CRLF + rest);
  }

  lemma SilentOp(op: SinkOp)
    ensures |OpBytes(op)| == 0 <==> op == Write("")
  {
  }

  lemma {:induction false} SilentWire(ops: seq<SinkOp>)
    ensures Wire(ops) == "" <==> forall op :: op in ops ==> op == Write("")
    ensures Wire(ops) == "" ==> Written(ops) == ""
  {
    hide OpBytes;
    if ops != [] {
      var rest := ops[1..];
      SilentWire(rest);
      SilentOp(ops[0]);
      assert |Wire(ops)| == |OpBytes(ops[0])| + |Wire(rest)|;
      assert ops[0] in ops && forall op :: op in rest ==> op in ops;
      if ops[0] == Write("") && Wire(rest) == "" {
        forall op | op in ops ensures op == Write("") {
          assert op == ops[0] || op in rest;
        }
      }
    }
  }

  /**
   * The reader gives back exactly what the provider wrote, with its trailer fields and nothing left over, if and only
   * if the provider ended its data once and wrote nothing afterwards.
   */
  lemma {:induction false} RoundTripExactly(ops: seq<SinkOp>)
    requires forall op :: op in ops ==> OpOk(op)
    ensures Finished(ops) <==> Decode(Wire(ops)) == Decoded(Written(ops), true, "", SentFields(ops))
  {
    if ops != [] {
      hide Decode, OpBytes, OpOk;
      DecodeOp(ops[0], Wire(ops[1..]));
      if ops[0].Write? {
        RoundTripExactly(ops[1..]);
        var d := Decode(Wire(ops[1..]));
        assert (ops[0].data + d.payload)[|ops[0].data|..] == d.payload;
        assert (ops[0].data + Written(ops[1..]))[|ops[0].data|..] == Written(ops[1..]);
      } else {
        SilentWire(ops[1..]);
        assert "" + Written(ops[1..]) == Written(ops[1..]);
      }
    }
  }
}

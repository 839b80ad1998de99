/** What the chunked reader makes of any stream, said of the stream as it is written. */
module ChunkedLaws {
  import opened Bytes
  import opened Text
  import opened Chunked
  import Query

  // ----- Size lines -----

  predicate AllHex(h: string) { forall i :: 0 <= i < |h| ==> Query.HexValue(h[i]).Some? }

  /** The number that hexadecimal digits write. */
  function HexNumber(h: string): nat
    requires AllHex(h)
  {
    if h == "" then 0 else 16 * HexNumber(h[..|h| - 1]) + Query.HexValue(h[|h| - 1]).value
  }

  lemma {:induction false} RunIs(h: string)
    requires AllHex(h)
    ensures HexRun(h, 0) == HexNumber(h)
  {
    if h != "" {
      hide Query.HexValue;
      var a, c := h[..|h| - 1], h[|h| - 1];
      assert h == a + [c];
      RunIs(a);
      HexRunAppend(a, c, 0);
    }
  }

  /** A sign and a mark of base sixteen, each of which may be missing. */
  predicate SizePrefix(lead: string, sign: string, mark: string) {
    Spaces(lead) && '\0' !in lead && (sign == "" || sign == "+" || sign == "-") && (mark == "" || mark == "0x" || mark == "0X")
  }

  /** What follows the digits does not go on with them. */
  predicate EndsDigits(mark: string, h: string, tail: string) {
    && (tail != "" ==> Query.HexValue(tail[0]).None?)
    && !(mark == "" && h == "0" && |tail| >= 2 && (tail[0] == 'x' || tail[0] == 'X') && Query.HexValue(tail[1]).Some?)
  }

  lemma DigitIsNoSpace(c: char)
    requires Query.HexValue(c).Some?
    ensures !IsSpace(c) && c != '+' && c != '-' && c != '\0' && c != 'x' && c != 'X'
  {
  }

  lemma {:induction false} CStrFront(a: string, rest: string)
    requires '\0' !in a
    ensures CStr(a + rest) == a + CStr(rest)
  {
    if a == "" {
      assert a + rest == rest && a + CStr(rest) == CStr(rest);
    } else {
      assert (a + rest)[1..] == a[1..] + rest;
      CStrFront(a[1..], rest);
    }
  }

  lemma {:induction false} RunEnds(h: string, tail: string, acc: nat)
    requires AllHex(h) && (tail != "" ==> Query.HexValue(tail[0]).None?)
    ensures HexRun(h + tail, acc) == HexRun(h, acc)
  {
    hide Query.HexValue;
    if tail == "" {
      assert h + tail == h;
    } else {
      HexRunStops(h, tail, acc);
    }
  }

  lemma StartOf(c: char, t: string)
    ensures [c] + t != "" && ([c] + t)[0] == c && ([c] + t)[1..] == t
  {
  }

  /** After the spaces, the sign is taken off. */
  lemma AfterSign(sign: string, v: string)
    requires sign == "" || sign == "+" || sign == "-"
    requires v != "" && v[0] != '-' && v[0] != '+'
    ensures var t := sign + v;
            && t != "" && (sign == "-" <==> t[0] == '-') && Unsigned(t) == v
  {
    if sign == "" {
      assert sign + v == v;
    } else {
      assert (sign + v)[1..] == v;
    }
  }

  /** After the sign, the mark is taken off where digits follow. */
  lemma AfterMark(mark: string, h: string, tail: string)
    requires (mark == "" || mark == "0x" || mark == "0X") && h != "" && AllHex(h) && EndsDigits(mark, h, tail)
    ensures Unmarked(mark + (h + tail)) == h + tail
  {
    hide Query.HexValue;
    var v := h + tail;
    DigitIsNoSpace(h[0]);
    if mark == "" {
      assert mark + v == v && v[0] == h[0];
      if |h| > 1 {
        DigitIsNoSpace(h[1]);
        assert v[1] == h[1];
      } else {
        assert tail != "" ==> v[1] == tail[0];
        assert |tail| > 1 ==> v[2] == tail[1];
        assert h[0] == '0' ==> h == "0";
      }
    } else {
      var u := mark + v;
      assert u[0] == '0' && u[1] == mark[1] && u[2..] == v && u[2] == h[0];
    }
  }

  /** What is read of a size line behind its spaces. */
  lemma BehindSpaces(lead: string, sign: string, mark: string, h: string, tail: string)
    requires SizePrefix(lead, sign, mark) && h != "" && AllHex(h)
    ensures SkipSpaces(CStr(lead + (sign + (mark + (h + tail))))) == sign + (mark + (h + CStr(tail)))
    ensures var u := mark + (h + CStr(tail)); u != "" && u[0] != '-' && u[0] != '+'
  {
    hide Query.HexValue, SkipSpaces, IsSpace, Spaces, CStr;
    var w := CStr(tail);
    DigitIsNoSpace(h[0]);
    NoZero(h);
    CStrFront(h, tail);
    CStrFront(mark, h + tail);
    CStrFront(sign, mark + (h + tail));
    CStrFront(lead, sign + (mark + (h + tail)));
    var u := mark + (h + w);
    assert u[0] == (if mark == "" then h[0] else '0');
    SignIsNoSpace();
    assert (sign + u)[0] == if sign == "" then u[0] else sign[0];
    SkipsSpaces(lead, sign + u);
  }

  /**
   * The size a line gives: leading spaces, a sign and a mark are passed over, and whatever follows the digits, such as a
   * chunk extension, does not count.
   */
  lemma SizeText(lead: string, sign: string, mark: string, h: string, tail: string)
    requires SizePrefix(lead, sign, mark) && h != "" && AllHex(h) && EndsDigits(mark, h, CStr(tail))
    ensures var n := HexNumber(h);
            StrToUl(lead + (sign + (mark + (h + tail)))) ==
              Some(if n > ULONG_MAX then ULONG_MAX else if sign == "-" && n > 0 then ULONG_MAX + 1 - n else n)
  {
    hide Query.HexValue, SkipSpaces, HexNumber, HexRun, IsSpace, Spaces, CStr, EndsDigits, Unsigned, Unmarked, SizePrefix;
    var w := CStr(tail);
    BehindSpaces(lead, sign, mark, h, tail);
    PrefixSigns(lead, sign, mark);
    AfterSign(sign, mark + (h + w));
    AfterMark(mark, h, w);
    FirstBehind(mark, h, w);
    RunEnds(h, w, 0);
    RunIs(h);
    assert (h + w)[0] == h[0];
  }

  lemma PrefixSigns(lead: string, sign: string, mark: string)
    requires SizePrefix(lead, sign, mark)
    ensures sign == "" || sign == "+" || sign == "-"
    ensures mark == "" || mark == "0x" || mark == "0X"
  {
  }

  lemma FirstBehind(mark: string, h: string, w: string)
    ensures EndsDigits(mark, h, w) && w != "" ==> Query.HexValue(w[0]).None?
  {
  }

  lemma SignIsNoSpace()
    ensures !IsSpace('+') && !IsSpace('-') && !IsSpace('0')
  {
  }

  lemma NoZero(h: string)
    requires AllHex(h)
    ensures '\0' !in h
  {
  }

  /** A line without a digit where the size should be. */
  lemma NoSize(lead: string, sign: string, tail: string)
    requires SizePrefix(lead, sign, "") && '\0' !in tail
    requires tail != "" ==> Query.HexValue(tail[0]).None? && !IsSpace(tail[0]) && tail[0] != '+' && tail[0] != '-'
    ensures StrToUl(lead + (sign + tail)).None?
  {
    hide Query.HexValue, SkipSpaces, HexRun, IsSpace, Spaces;
    CStrWhole(tail);
    CStrFront(sign, tail);
    CStrFront(lead, sign + tail);
    SignIsNoSpace();
    ZeroIsDigit();
    if sign + tail == "" {
      assert lead + (sign + tail) == lead;
      OnlySpaces(lead);
    } else {
      SkipsSpaces(lead, sign + tail);
      if tail != "" {
        AfterSign(sign, tail);
      } else {
        assert (sign + tail)[1..] == "";
      }
    }
  }

  lemma ZeroIsDigit()
    ensures Query.HexValue('0').Some?
  {
  }

  lemma {:induction false} OnlySpaces(s: string)
    requires Spaces(s)
    ensures SkipSpaces(s) == ""
  {
    if s != "" {
      OnlySpaces(s[1..]);
    }
  }

  // ----- Chunks -----

  /** A line is empty for the reader exactly if it is a carriage return and a line feed. */
  lemma EmptyLineIs(u: string)
    ensures u != "" ==> (CStr(Line(u)) == CRLF <==> CRLF <= u)
    ensures CRLF <= u ==> AfterLine(u) == u[2..]
  {
    if CRLF <= u {
      assert u == CRLF + u[2..];
      EmptyLine(u[2..]);
    } else if u != "" {
      CStrPrefix(Line(u));
      LineBreaks(u);
    }
  }

  lemma {:induction false} LineBreaks(s: string)
    ensures '\n' !in s[..if LineEnd(s) > 0 then LineEnd(s) - 1 else 0]
    ensures LineEnd(s) < |s| ==> LineEnd(s) > 0 && s[LineEnd(s) - 1] == '\n'
  {
    if s != "" && s[0] != '\n' {
      LineBreaks(s[1..]);
    }
  }

  /** A chunk: its size line `a`, that many bytes and a line break, in front of any stream. */
  lemma ChunkReads(a: string, data: string, rest: string)
    requires '\n' !in a && StrToUl(a + "\n") == Some(|data|) && 0 < |data| < ULONG_MAX
    ensures var d := Decode(rest); Decode(a + "\n" + (data + (CRLF + rest))) == d.(payload := data + d.payload)
  {
    hide StrToUl, CStr, LineEnd;
    var t := data + (CRLF + rest);
    LineOf(a, t);
    assert t[..|data|] == data && t[|data|..] == CRLF + rest;
    EmptyLine(rest);
  }

  /** What is refused, and what has been handed over by then. */
  lemma ChunkRefused(a: string, t: string)
    requires '\n' !in a
    ensures var n := StrToUl(a + "\n"); var d := Decode(a + "\n" + t);
            && (n.None? || n.value == ULONG_MAX ==> d == FAILED)
            && (n.Some? && |t| < n.value < ULONG_MAX ==> d == FAILED.(payload := t))
            && (n.Some? && 0 < n.value <= |t| && n.value < ULONG_MAX && !(CRLF <= t[n.value..]) ==>
                  d == FAILED.(payload := t[..n.value]))
    ensures !Decode("").ok && Decode("").payload == ""
  {
    hide StrToUl, CStr, LineEnd;
    LineOf(a, t);
    var n := StrToUl(a + "\n");
    if n.Some? && 0 < n.value <= |t| && n.value < ULONG_MAX {
      EmptyLineIs(t[n.value..]);
    }
  }

  /** A size of zero ends the chunks. */
  lemma LastChunkReads(a: string, rest: string)
    requires '\n' !in a && StrToUl(a + "\n") == Some(0)
    ensures Decode(a + "\n" + rest) == Trailer(rest)
  {
    hide StrToUl, CStr, LineEnd;
    LineOf(a, rest);
  }

  /** A line of the trailer. */
  lemma TrailerLine(a: string, rest: string)
    requires '\n' !in a && a != "\r"
    ensures var d := Trailer(rest);
            Trailer(a + "\n" + rest) ==
              if |a| + 1 > HEADER_MAX then FAILED
              else d.(fields := (if a == "" then [] else ParseHeader(a[..|a| - 1])) + d.fields)
  {
    hide CStr, LineEnd, ParseHeader;
    LineOf(a, rest);
    EmptyLineIs(a + "\n" + rest);
    NotEmpty(a, rest);
    assert a != "" ==> (a + "\n")[..|a| - 1] == a[..|a| - 1];
  }

  /** The trailer ends with an empty line; a stream that ends before that is refused. */
  lemma TrailerEnds(a: string, rest: string)
    requires '\n' !in a
    ensures Trailer(CRLF + rest) == Decoded("", true, rest, []) && !Trailer(a).ok
  {
    hide CStr, LineEnd, ParseHeader;
    EmptyLine(rest);
    assert (CRLF + rest)[..2] == CRLF;
    if a != "" {
      WholeLine(a);
      EmptyLineIs(a);
      TwoFirst(a);
    }
  }

  lemma TwoFirst(s: string)
    ensures CRLF <= s <==> |s| >= 2 && s[0] == '\r' && s[1] == '\n'
  {
  }

  lemma NotEmpty(a: string, rest: string)
    requires '\n' !in a && a != "\r"
    ensures !(CRLF <= a + "\n" + rest)
  {
    var s := a + "\n" + rest;
    TwoFirst(s);
    if |a| == 0 {
      assert s[0] == '\n';
    } else if |a| == 1 {
      assert a == [a[0]] && s[0] == a[0];
    } else {
      assert s[1] == a[1];
    }
  }

  lemma {:induction false} WholeLine(a: string)
    requires '\n' !in a
    ensures LineEnd(a) == |a| && AfterLine(a) == ""
  {
    if a != "" {
      WholeLine(a[1..]);
    }
  }

  // ----- Header fields -----

  /** A field as it is written, with blanks around its value; only `Location` is taken as it stands. */
  lemma HeaderReads(key: string, l: string, v: string, r: string, w: string)
    requires ':' !in key && AllBlank(l) && AllBlank(r) && v != "" && IsTrimmed(v)
    requires if CaseOf(key, "location") then w == v else Query.Renders(w, v, false)
    ensures ParseHeader(key + ":" + (l + v + r)) == [(key, w)]
  {
    hide Query.DecodeUrl, Query.Renders, IsLocation, Find, TrimLeft, TrimRight;
    var s := key + ":" + (l + v + r);
    var t := key + [':'] + (l + v);
    assert s == t + r && s[..|t|] == t && s[|t|..] == r && t[|t| - 1] == v[|v| - 1];
    TrimRightIs(s, |t|);
    FindChar(t, ':', |key|);
    assert t[|key| + 1..] == l + v && t[..|key|] == key;
    assert (l + v)[..|l|] == l && (l + v)[|l|..] == v && (l + v)[|l|] == v[0];
    TrimLeftIs(l + v, |l|);
    LocationIs(key);
    if !CaseOf(key, "location") {
      Query.RenderedDecodes(w, v, false);
    }
  }

  lemma LocationIs(key: string)
    ensures IsLocation(key) <==> CaseOf(key, "location")
  {
    hide StartsWithIgnoreCase;
    StartsIs(key, "location", "Location");
    if |key| == 8 {
      assert key[..8] == key;
    }
  }

  /** A line without a colon, or with nothing behind it, adds no field. */
  lemma NoHeader(key: string, l: string)
    requires ':' !in key && AllBlank(l)
    ensures ParseHeader(key) == [] && ParseHeader(key + ":" + l) == []
  {
    hide IsLocation, Query.DecodeUrl;
    var t := TrimRight(key);
    TrimRightKeeps(key, ':');
    NoColon(t);
    var s := key + ":" + l;
    var u := key + [':'] + "";
    assert s[..|u|] == u && s[|u|..] == l && u[|u| - 1] == ':';
    TrimRightIs(s, |u|);
    FindChar(u, ':', |key|);
    assert u[|key| + 1..] == "";
  }

  lemma NoColon(t: string)
    requires ':' !in t
    ensures Find(t, ":") == |t|
  {
    FindChar(t, ':', |t|);
  }
}

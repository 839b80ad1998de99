/** Percent coding and the query-string codec. */
module Query {
  import opened Bytes
  import opened Text

  predicate IsByteString(s: string) { forall i :: 0 <= i < |s| ==> s[i] as int < 256 }

  function Byte(n: int): char
    requires 0 <= n < 256
  {
    n as char
  }

  function HexValue(c: char): (r: Option<nat>)
    ensures r.Some? ==> r.value < 16
  {
    if '0' <= c <= '9' then Some(c as int - '0' as int)
    else if 'A' <= c <= 'F' then Some(c as int - 'A' as int + 10)
    else if 'a' <= c <= 'f' then Some(c as int - 'a' as int + 10)
    else None
  }

  /** The value of the `cnt` hex digits at the front of `s`, continuing `val`. */
  function FromHex(s: string, cnt: nat, val: nat): Option<nat>
  {
    if cnt == 0 then Some(val)
    else if s == "" || HexValue(s[0]).None? then None
    else FromHex(s[1..], cnt - 1, val * 16 + HexValue(s[0]).value)
  }

  /** The UTF-8 bytes of a code point; surrogates and values past the last plane give nothing. */
  function ToUtf8(code: nat): (r: string)
    ensures |r| <= 4 && (code < 0x10000 ==> |r| <= 3) && IsByteString(r)
  {
    if code < 0x80 then [Byte(code)]
    else if code < 0x800 then [Byte(0xC0 + code / 64), Byte(0x80 + code % 64)]
    else if 0xD800 <= code < 0xE000 then ""
    else if code < 0x10000 then
      [Byte(0xE0 + code / 4096), Byte(0x80 + code / 64 % 64), Byte(0x80 + code % 64)]
    else if code < 0x110000 then
      [Byte(0xF0 + code / 262144), Byte(0x80 + code / 4096 % 64), Byte(0x80 + code / 64 % 64), Byte(0x80 + code % 64)]
    else ""
  }

  /** How many bytes one decoding step reads from a non-empty text, and what it writes. */
  function DecodeStep(s: string, plus: bool): (r: (nat, string))
    requires s != ""
    ensures 1 <= r.0 <= |s|
  {
    if s[0] == '%' && |s| > 1 then
      if s[1] == 'u' then
        match FromHex(s[2..], 4, 0)
        case Some(v) => FromHexLength(s[2..], 4); (6, ToUtf8(v))
        case None => (1, "%")
      else
        match FromHex(s[1..], 2, 0)
        case Some(v) => FromHexLength(s[1..], 2); (3, [Byte(v)])
        case None => (1, "%")
    else if plus && s[0] == '+' then (1, " ")
    else (1, [s[0]])
  }

  function DecodeUrl(s: string, plus: bool): string
  {
    if s == "" then "" else
      var (n, t) := DecodeStep(s, plus);
      t + DecodeUrl(s[n..], plus)
  }

  lemma FromHexLength(s: string, cnt: nat)
    requires FromHex(s, cnt, 0).Some? && cnt <= 4
    ensures cnt <= |s|
    ensures FromHex(s, cnt, 0).value < 0x10000
    ensures cnt == 2 ==> FromHex(s, cnt, 0).value < 256
  {
    FromHexBound(s, cnt, 0, 1);
  }

  lemma {:induction false} FromHexBound(s: string, cnt: nat, val: nat, top: nat)
    requires FromHex(s, cnt, val).Some? && val < top
    ensures cnt <= |s|
    ensures cnt == 1 ==> FromHex(s, cnt, val).value < top * 16
    ensures cnt == 2 ==> FromHex(s, cnt, val).value < top * 256
    ensures cnt == 3 ==> FromHex(s, cnt, val).value < top * 4096
    ensures cnt == 4 ==> FromHex(s, cnt, val).value < top * 65536
  {
    if cnt > 0 {
      FromHexBound(s[1..], cnt - 1, val * 16 + HexValue(s[0]).value, top * 16);
    }
  }

  lemma DecodeAt(s: string, i: nat, plus: bool, result: string)
    requires i < |s|
    ensures var (n, t) := DecodeStep(s[i..], plus);
            i + n <= |s| && result + DecodeUrl(s[i..], plus) == (result + t) + DecodeUrl(s[i + n..], plus)
  {
    hide DecodeStep;
    var (n, t) := DecodeStep(s[i..], plus);
    Tails(s, i, n);
    Assoc(result, t, DecodeUrl(s[i + n..], plus));
  }

  lemma DecodeEmpty(s: string, plus: bool)
    ensures DecodeUrl(s[|s|..], plus) == "" && DecodeUrl(s[0..], plus) == DecodeUrl(s, plus)
  {
    assert s[0..] == s;
  }

  method DecodeUrlLoop(s: string, plus: bool) returns (result: string)
    ensures result == DecodeUrl(s, plus)
  {
    hide DecodeUrl, FromHex, ToUtf8;
    result := "";
    DecodeEmpty(s, plus);
    var i := 0;
    while i < |s|
      invariant i <= |s|
      invariant DecodeUrl(s, plus) == result + DecodeUrl(s[i..], plus)
    {
      DecodeAt(s, i, plus, result);
      if s[i] == '%' && i + 1 < |s| {
        if s[i + 1] == 'u' {
          Tails(s, i, 2);
          var val := FromHex(s[i + 2..], 4, 0);
          if val.Some? {
            FromHexLength(s[i + 2..], 4);
            result := result + ToUtf8(val.value);
            i := i + 5;
          } else {
            result := result + [s[i]];
          }
        } else {
          Tails(s, i, 1);
          var val := FromHex(s[i + 1..], 2, 0);
          if val.Some? {
            FromHexLength(s[i + 1..], 2);
            result := result + [Byte(val.value)];
            i := i + 2;
          } else {
            result := result + [s[i]];
          }
        }
      } else if plus && s[i] == '+' {
        result := result + " ";
      } else {
        result := result + [s[i]];
      }
      i := i + 1;
    }
  }

  /** Decoding never makes a text longer. */
  lemma {:induction false} DecodeShortens(s: string, plus: bool)
    ensures |DecodeUrl(s, plus)| <= |s|
  {
    if s != "" {
      var (n, t) := DecodeStep(s, plus);
      if s[0] == '%' && |s| > 1 && s[1] == 'u' && FromHex(s[2..], 4, 0).Some? {
        FromHexLength(s[2..], 4);
      }
      assert |t| <= n;
      DecodeShortens(s[n..], plus);
    }
  }

  // ----- What decoding means -----

  /** A hexadecimal digit of either case. */
  predicate IsHexDigit(c: char, n: nat) { n < 16 && (c == "0123456789ABCDEF"[n] || c == "0123456789abcdef"[n]) }

  lemma HexValueIs(c: char, n: nat)
    ensures HexValue(c) == Some(n) <==> IsHexDigit(c, n)
  {
  }

  predicate Continues(c: char) { 0x80 <= c as int < 0xC0 }

  /** The code point whose UTF-8 form (section 3 of RFC 3629) the bytes `u` are. */
  function ReadUtf8(u: string): Option<nat> {
    if |u| == 1 && u[0] as int < 0x80 then Some(u[0] as int)
    else if |u| == 2 && 0xC2 <= u[0] as int < 0xE0 && Continues(u[1]) then
      Some((u[0] as int - 0xC0) * 64 + (u[1] as int - 0x80))
    else if |u| == 3 && 0xE0 <= u[0] as int < 0xF0 && Continues(u[1]) && Continues(u[2]) then
      var code := (u[0] as int - 0xE0) * 4096 + (u[1] as int - 0x80) * 64 + (u[2] as int - 0x80);
      if code < 0x800 || 0xD800 <= code < 0xE000 then None else Some(code)
    else if |u| == 4 && 0xF0 <= u[0] as int < 0xF5 && Continues(u[1]) && Continues(u[2]) && Continues(u[3]) then
      var code := (u[0] as int - 0xF0) * 262144 + (u[1] as int - 0x80) * 4096 + (u[2] as int - 0x80) * 64 + (u[3] as int - 0x80);
      if code < 0x10000 || code >= 0x110000 then None else Some(code)
    else None
  }

  lemma Quotients(n: nat)
    ensures n == n / 64 * 64 + n % 64 && n / 4096 == n / 64 / 64 && n / 262144 == n / 64 / 64 / 64
  {
  }

  lemma Utf8Back(code: nat)
    requires code < 0x110000 && !(0xD800 <= code < 0xE000)
    ensures ReadUtf8(ToUtf8(code)) == Some(code)
  {
    Quotients(code);
    Quotients(code / 64);
    Quotients(code / 64 / 64);
    if code >= 0x10000 {
      Utf8BackLong(code);
    }
  }

  lemma Utf8BackLong(code: nat)
    requires 0x10000 <= code < 0x110000
    ensures ReadUtf8(ToUtf8(code)) == Some(code)
  {
    Quotients(code);
    Quotients(code / 64);
    Quotients(code / 64 / 64);
    var u := ToUtf8(code);
    assert |u| == 4 && Continues(u[1]) && Continues(u[2]) && Continues(u[3]) && 0xF0 <= u[0] as int < 0xF5;
  }

  lemma Utf8Short(u: string)
    requires |u| <= 3 && ReadUtf8(u).Some?
    ensures u == ToUtf8(ReadUtf8(u).value) && ReadUtf8(u).value < 0x10000 && !(0xD800 <= ReadUtf8(u).value < 0xE000)
  {
    var code := ReadUtf8(u).value;
    if |u| == 3 {
      Places(u[0] as int - 0xE0, u[1] as int - 0x80, u[2] as int - 0x80, code);
    }
  }

  lemma Places(a: nat, b: nat, c: nat, code: nat)
    requires b < 64 && c < 64 && code == a * 4096 + b * 64 + c
    ensures code / 4096 == a && code / 64 % 64 == b && code % 64 == c
  {
    assert code / 64 == a * 64 + b;
  }

  lemma Utf8Long(u: string)
    requires |u| > 3 && ReadUtf8(u).Some?
    ensures u == ToUtf8(ReadUtf8(u).value) && 0x10000 <= ReadUtf8(u).value < 0x110000
  {
    var code := ReadUtf8(u).value;
    var a, b, c, d := u[0] as int - 0xF0, u[1] as int - 0x80, u[2] as int - 0x80, u[3] as int - 0x80;
    assert code / 64 == a * 4096 + b * 64 + c && code % 64 == d;
    Places(a, b, c, code / 64);
    assert code / 64 / 64 == code / 4096 && code / 4096 == a * 64 + b;
    assert code / 262144 == a && code / 4096 % 64 == b;
  }

  /** What is written for a code point is its UTF-8 form, and nothing else is; a surrogate has none. */
  lemma Utf8Exactly(code: nat, u: string)
    ensures ReadUtf8(u) == Some(code) <==> code < 0x110000 && !(0xD800 <= code < 0xE000) && u == ToUtf8(code)
    ensures ToUtf8(code) == "" <==> code >= 0x110000 || 0xD800 <= code < 0xE000
  {
    hide ReadUtf8;
    if code < 0x110000 && !(0xD800 <= code < 0xE000) {
      Utf8Back(code);
    }
    if ReadUtf8(u) == Some(code) {
      if |u| <= 3 {
        Utf8Short(u);
      } else {
        Utf8Long(u);
      }
    }
  }

  /** What follows a percent sign makes it an escape. */
  ghost predicate IsEscape(s: string) {
    || (|s| >= 2 && exists m: nat, n: nat :: IsHexDigit(s[0], m) && IsHexDigit(s[1], n))
    || (|s| >= 5 && s[0] == 'u' && forall i :: 1 <= i < 5 ==> exists n: nat :: IsHexDigit(s[i], n))
  }

  lemma TwoDigits(s: string)
    ensures FromHex(s, 2, 0).Some? <==> |s| >= 2 && HexValue(s[0]).Some? && HexValue(s[1]).Some?
    ensures FromHex(s, 2, 0).Some? ==> FromHex(s, 2, 0).value == 16 * HexValue(s[0]).value + HexValue(s[1]).value
  {
    if s != "" && HexValue(s[0]).Some? {
      assert FromHex(s, 2, 0) == FromHex(s[1..], 1, HexValue(s[0]).value);
      if |s| >= 2 && HexValue(s[1]).Some? {
        assert FromHex(s[1..], 1, HexValue(s[0]).value) == FromHex(s[1..][1..], 0, 16 * HexValue(s[0]).value + HexValue(s[1]).value);
      }
    }
  }

  lemma FourDigits(s: string)
    ensures FromHex(s, 4, 0).Some? <==>
              |s| >= 4 && HexValue(s[0]).Some? && HexValue(s[1]).Some? && HexValue(s[2]).Some? && HexValue(s[3]).Some?
    ensures FromHex(s, 4, 0).Some? ==>
              FromHex(s, 4, 0).value
              == 4096 * HexValue(s[0]).value + 256 * HexValue(s[1]).value + 16 * HexValue(s[2]).value + HexValue(s[3]).value
  {
    hide HexValue;
    if s != "" && HexValue(s[0]).Some? {
      var a := HexValue(s[0]).value;
      assert FromHex(s, 4, 0) == FromHex(s[1..], 3, a);
      if |s| >= 2 && HexValue(s[1]).Some? {
        var b := 16 * a + HexValue(s[1]).value;
        assert FromHex(s[1..], 3, a) == FromHex(s[1..][1..], 2, b) && s[1..][1..] == s[2..];
        if |s| >= 3 && HexValue(s[2]).Some? {
          var c := 16 * b + HexValue(s[2]).value;
          assert FromHex(s[2..], 2, b) == FromHex(s[2..][1..], 1, c) && s[2..][1..] == s[3..];
          if |s| >= 4 && HexValue(s[3]).Some? {
            assert FromHex(s[3..], 1, c) == FromHex(s[3..][1..], 0, 16 * c + HexValue(s[3]).value);
          }
        }
      }
    }
  }

  /** A byte that is neither a percent sign nor, where it counts, a plus sign stays; a plus sign there is a space. */
  lemma DecodePlain(c: char, rest: string, plus: bool)
    ensures c != '%' && !(plus && c == '+') ==> DecodeUrl([c] + rest, plus) == [c] + DecodeUrl(rest, plus)
    ensures DecodeUrl("+" + rest, true) == " " + DecodeUrl(rest, true)
  {
    assert ([c] + rest)[1..] == rest && ("+" + rest)[1..] == rest;
  }

  /** A percent sign with two hexadecimal digits is the byte they write. */
  lemma DecodeEscape(h: char, l: char, m: nat, n: nat, rest: string, plus: bool)
    requires IsHexDigit(h, m) && IsHexDigit(l, n)
    ensures DecodeUrl(['%', h, l] + rest, plus) == [Byte(16 * m + n)] + DecodeUrl(rest, plus)
  {
    hide FromHex, HexValue;
    var s := ['%', h, l] + rest;
    HexValueIs(h, m);
    HexValueIs(l, n);
    TwoDigits(s[1..]);
    NoHexU();
    assert s[1..][0] == h && s[1..][1] == l && s[3..] == rest;
  }

  lemma NoHexU()
    ensures HexValue('u').None?
  {
  }

  /** `%u` with four hexadecimal digits is the UTF-8 form of the code point they write, or nothing for a surrogate. */
  lemma DecodeUnicode(d: string, a: nat, b: nat, c: nat, e: nat, u: string, rest: string, plus: bool)
    requires |d| == 4 && IsHexDigit(d[0], a) && IsHexDigit(d[1], b) && IsHexDigit(d[2], c) && IsHexDigit(d[3], e)
    ensures var code := 4096 * a + 256 * b + 16 * c + e;
            && (ReadUtf8(u) == Some(code) ==> DecodeUrl("%u" + d + rest, plus) == u + DecodeUrl(rest, plus))
            && (0xD800 <= code < 0xE000 ==> DecodeUrl("%u" + d + rest, plus) == DecodeUrl(rest, plus))
            && (!(0xD800 <= code < 0xE000) ==> exists w :: ReadUtf8(w) == Some(code))
  {
    hide FromHex, HexValue, ToUtf8, ReadUtf8;
    var s := "%u" + d + rest;
    HexValueIs(d[0], a);
    HexValueIs(d[1], b);
    HexValueIs(d[2], c);
    HexValueIs(d[3], e);
    FourDigits(s[2..]);
    assert s[2..][0] == d[0] && s[2..][1] == d[1] && s[2..][2] == d[2] && s[2..][3] == d[3] && s[6..] == rest;
    var code := 4096 * a + 256 * b + 16 * c + e;
    Utf8Exactly(code, u);
    Utf8Exactly(code, ToUtf8(code));
  }

  lemma NoEscape(s: string)
    requires !IsEscape(s)
    ensures FromHex(s, 2, 0).None? && (s != "" && s[0] == 'u' ==> FromHex(s[1..], 4, 0).None?)
  {
    hide FromHex, HexValue, IsHexDigit;
    TwoDigits(s);
    if s != "" {
      FourDigits(s[1..]);
      assert forall i :: 1 <= i < |s| ==> s[1..][i - 1] == s[i];
    }
    forall i | 0 <= i < |s| && HexValue(s[i]).Some? ensures IsHexDigit(s[i], HexValue(s[i]).value) {
      HexValueIs(s[i], HexValue(s[i]).value);
    }
  }

  /** A percent sign that begins no escape stays. */
  lemma DecodeStray(rest: string, plus: bool)
    requires !IsEscape(rest)
    ensures DecodeUrl("%" + rest, plus) == "%" + DecodeUrl(rest, plus)
  {
    hide FromHex, IsEscape;
    NoEscape(rest);
    var s := "%" + rest;
    assert s[1..] == rest;
    if rest != "" {
      assert s[2..] == rest[1..];
    }
  }

  /**
   * `t` writes the bytes `v`: each as itself or as a percent sign with two hexadecimal digits, and where plus signs count, a
   * space as a plus sign too. A percent sign, and where it counts a plus sign, is never written as itself.
   */
  predicate Renders(v: string, t: string, plus: bool) {
    if v == "" then t == ""
    else
      t != "" &&
      ( || (t[0] == v[0] && v[0] != '%' && !(plus && v[0] == '+') && Renders(v[1..], t[1..], plus))
        || (plus && v[0] == ' ' && t[0] == '+' && Renders(v[1..], t[1..], plus))
        || ( && |t| >= 3 && t[0] == '%' && v[0] as int < 256
             && IsHexDigit(t[1], v[0] as int / 16) && IsHexDigit(t[2], v[0] as int % 16) && Renders(v[1..], t[3..], plus)))
  }

  /** Whatever way bytes are written, decoding gives them back. */
  lemma {:induction false} RenderedDecodes(v: string, t: string, plus: bool)
    requires Renders(v, t, plus)
    ensures DecodeUrl(t, plus) == v
  {
    hide DecodeStep, IsHexDigit;
    if v != "" {
      if t[0] == v[0] && v[0] != '%' && !(plus && v[0] == '+') && Renders(v[1..], t[1..], plus) {
        assert t == [t[0]] + t[1..];
        DecodePlain(t[0], t[1..], plus);
        RenderedDecodes(v[1..], t[1..], plus);
      } else if plus && v[0] == ' ' && t[0] == '+' && Renders(v[1..], t[1..], plus) {
        assert t == "+" + t[1..];
        DecodePlain(t[0], t[1..], plus);
        RenderedDecodes(v[1..], t[1..], plus);
      } else {
        assert t == ['%', t[1], t[2]] + t[3..];
        DecodeEscape(t[1], t[2], v[0] as int / 16, v[0] as int % 16, t[3..], plus);
        RenderedDecodes(v[1..], t[3..], plus);
      }
    }
  }

  // ----- Encoding -----

  predicate Unreserved(c: char) {
    || '0' <= c <= '9' || 'A' <= c <= 'Z' || 'a' <= c <= 'z'
    || c in "-_.!~*'()"
  }

  function HexDigit(n: nat): (c: char)
    requires n < 16
    ensures HexValue(c) == Some(n) && c != 'u' && !IsBlank(c)
  {
    "0123456789ABCDEF"[n]
  }

  function EncodeByte(c: char): string
    requires c as int < 256
  {
    if Unreserved(c) then [c] else ['%', HexDigit(c as int / 16), HexDigit(c as int % 16)]
  }

  function EncodeParam(v: string): string
    requires IsByteString(v)
  {
    if v == "" then "" else EncodeByte(v[0]) + EncodeParam(v[1..])
  }

  method EncodeParamLoop(v: string) returns (escaped: string)
    requires IsByteString(v)
    ensures escaped == EncodeParam(v)
  {
    escaped := "";
    for i := 0 to |v|
      invariant EncodeParam(v) == escaped + EncodeParam(v[i..])
    {
      ghost var e := EncodeByte(v[i]);
      assert v[i..][0] == v[i] && v[i..][1..] == v[i + 1..];
      assert escaped + (e + EncodeParam(v[i + 1..])) == (escaped + e) + EncodeParam(v[i + 1..]);
      escaped := escaped + EncodeByte(v[i]);
    }
  }

  /** Letters, digits and nine marks stay, any other byte is a percent sign and two capital digits; bytes are encoded one by one. */
  lemma EncodeExactly(c: char, v: string)
    requires c as int < 256 && IsByteString(v) && IsByteString([c] + v) && IsByteString([c])
    ensures EncodeParam([c] + v) == EncodeParam([c]) + EncodeParam(v)
    ensures EncodeParam([c]) ==
      if '0' <= c <= '9' || 'A' <= c <= 'Z' || 'a' <= c <= 'z' || c in "-_.!~*'()" then [c]
      else ['%', "0123456789ABCDEF"[c as int / 16], "0123456789ABCDEF"[c as int % 16]]
  {
    hide IsByteString;
    assert ([c] + v)[1..] == v && [c][1..] == [];
    assert EncodeParam([c]) == EncodeByte(c) + "" == EncodeByte(c);
  }

  lemma DecodeEncodedByte(c: char, rest: string, plus: bool)
    requires c as int < 256
    ensures DecodeUrl(EncodeByte(c) + rest, plus) == [c] + DecodeUrl(rest, plus)
  {
    var e := EncodeByte(c);
    var s := e + rest;
    assert s[|e|..] == rest;
    if !Unreserved(c) {
      var h := s[1..];
      assert FromHex(h, 2, 0) == FromHex(h[1..], 1, c as int / 16) == FromHex(h[1..][1..], 0, c as int);
    }
  }

  /** Decoding undoes encoding, whether or not `+` is read as a space. */
  lemma {:induction false} DecodeEncode(v: string, plus: bool)
    requires IsByteString(v)
    ensures DecodeUrl(EncodeParam(v), plus) == v
  {
    if v != "" {
      DecodeEncodedByte(v[0], EncodeParam(v[1..]), plus);
      DecodeEncode(v[1..], plus);
    }
  }

  /** A letter the encoder uses. */
  predicate CodeLetter(c: char) { c == '%' || Unreserved(c) }

  /** The encoder writes bytes in one of the ways that decoding reads, with few letters. */
  lemma {:induction false} EncodedRenders(v: string, plus: bool)
    requires IsByteString(v)
    ensures Renders(v, EncodeParam(v), plus) && (v != "" ==> EncodeParam(v) != "")
    ensures forall i :: 0 <= i < |EncodeParam(v)| ==> CodeLetter(EncodeParam(v)[i])
  {
    if v != "" {
      hide Renders, EncodeByte, CodeLetter;
      EncodedRenders(v[1..], plus);
      EncodedFront(v[0], v[1..], EncodeParam(v[1..]), plus);
      assert v == [v[0]] + v[1..];
    }
  }

  lemma EncodedFront(c: char, v: string, t: string, plus: bool)
    requires c as int < 256 && Renders(v, t, plus)
    ensures Renders([c] + v, EncodeByte(c) + t, plus) && EncodeByte(c) != ""
    ensures forall i :: 0 <= i < |EncodeByte(c)| ==> CodeLetter(EncodeByte(c)[i])
  {
    hide IsHexDigit, HexValue;
    var e := EncodeByte(c);
    assert (e + t)[|e|..] == t && ([c] + v)[1..] == v;
    CapitalDigit(c as int / 16);
    CapitalDigit(c as int % 16);
  }

  lemma CapitalDigit(n: nat)
    requires n < 16
    ensures IsHexDigit(HexDigit(n), n) && Unreserved(HexDigit(n))
  {
  }
}

/** Base64 encoding with an accumulator that wraps, against section 4 of RFC 4648. */
module Base64 {
  import opened Bytes
  import opened Query
  import opened Words

  // ----- The encoding of RFC 4648 -----

  /** The alphabet: capitals, small letters, digits, `+` and `/`. */
  function Digit(n: nat): (c: char)
    requires n < 64
    ensures DigitValue(c) == Some(n) && c != '='
  {
    if n < 26 then 'A' + n as char
    else if n < 52 then 'a' + (n - 26) as char
    else if n < 62 then '0' + (n - 52) as char
    else if n == 62 then '+' else '/'
  }

  function DigitValue(c: char): (r: Option<nat>)
    ensures r.Some? ==> r.value < 64
  {
    if 'A' <= c <= 'Z' then Some(c as int - 'A' as int)
    else if 'a' <= c <= 'z' then Some(c as int - 'a' as int + 26)
    else if '0' <= c <= '9' then Some(c as int - '0' as int + 52)
    else if c == '+' then Some(62)
    else if c == '/' then Some(63)
    else None
  }

  /** The alphabet of section 4 of RFC 4648, as it is printed there. */
  lemma Alphabet(n: nat)
    requires n < 64
    ensures n < 26 ==> Digit(n) == "ABCDEFGHIJKLMNOPQRSTUVWXYZ"[n]
    ensures 26 <= n < 52 ==> Digit(n) == "abcdefghijklmnopqrstuvwxyz"[n - 26]
    ensures n >= 52 ==> Digit(n) == "0123456789+/"[n - 52]
  {
  }

  lemma DigitOfValue(c: char)
    requires DigitValue(c).Some?
    ensures Digit(DigitValue(c).value) == c
  {
  }

  /** Three octets as four digits. */
  function Group(a: nat, b: nat, c: nat): (g: string)
    requires a < 256 && b < 256 && c < 256
    ensures |g| == 4
  {
    [Digit(a / 4), Digit(a % 4 * 16 + b / 16), Digit(b % 16 * 4 + c / 64), Digit(c % 64)]
  }

  /** Four digits write the same number as three octets. */
  lemma GroupMeans(a: nat, b: nat, c: nat)
    requires a < 256 && b < 256 && c < 256
    ensures var g := Group(a, b, c);
            && (forall i :: 0 <= i < 4 ==> DigitValue(g[i]).Some?)
            && DigitValue(g[0]).value * 262144 + DigitValue(g[1]).value * 4096 + DigitValue(g[2]).value * 64 + DigitValue(g[3]).value
               == a * 65536 + b * 256 + c
  {
    hide Digit, DigitValue;
    var g := Group(a, b, c);
    assert DigitValue(g[0]) == Some(a / 4) && DigitValue(g[1]) == Some(a % 4 * 16 + b / 16);
    assert DigitValue(g[2]) == Some(b % 16 * 4 + c / 64) && DigitValue(g[3]) == Some(c % 64);
    forall i | 0 <= i < 4 ensures DigitValue(g[i]).Some? {
    }
  }

  function Encode(s: string): (t: string)
    requires IsByteString(s)
    ensures |t| == (|s| + 2) / 3 * 4
  {
    if s == "" then ""
    else if |s| == 1 then Group(s[0] as int, 0, 0)[..2] + "=="
    else if |s| == 2 then Group(s[0] as int, s[1] as int, 0)[..3] + "="
    else Group(s[0] as int, s[1] as int, s[2] as int) + Encode(s[3..])
  }

  /** The octets of a group of four digits, given their values. */
  function Octets(p: nat, q: nat, r: nat, s: nat): (o: string)
    requires p < 64 && q < 64 && r < 64 && s < 64
    ensures |o| == 3 && IsByteString(o)
  {
    [(p * 4 + q / 16) as char, (q % 16 * 16 + r / 4) as char, (r % 4 * 64 + s) as char]
  }

  /** Four characters that stand for one octet, or for two. */
  predicate OnePadded(t: string) { |t| == 4 && t[2] == '=' && t[3] == '=' }
  predicate TwoPadded(t: string) { |t| == 4 && t[3] == '=' }

  /** A decoder that is strict about padding, its unused bits, and foreign characters. */
  function Decode(t: string): (r: Option<string>)
    ensures r.Some? ==> IsByteString(r.value)
    decreases |t|
  {
    if t == "" then Some("")
    else if |t| < 4 || DigitValue(t[0]).None? || DigitValue(t[1]).None? then None
    else
      var p, q := DigitValue(t[0]).value, DigitValue(t[1]).value;
      if OnePadded(t) then if q % 16 == 0 then Some(Octets(p, q, 0, 0)[..1]) else None
      else if DigitValue(t[2]).None? then None
      else
        var r := DigitValue(t[2]).value;
        if TwoPadded(t) then if r % 4 == 0 then Some(Octets(p, q, r, 0)[..2]) else None
        else if DigitValue(t[3]).None? then None
        else
          match Decode(t[4..])
          case None => None
          case Some(rest) => Some(Octets(p, q, r, DigitValue(t[3]).value) + rest)
  }

  lemma {:induction false} GroupBack(a: nat, b: nat, c: nat)
    requires a < 256 && b < 256 && c < 256
    ensures Octets(a / 4, a % 4 * 16 + b / 16, b % 16 * 4 + c / 64, c % 64) == [a as char, b as char, c as char]
  {
    Split16(a % 4, b / 16);
    Split4(b % 16, c / 64);
    assert a == a / 4 * 4 + a % 4 && b == b / 16 * 16 + b % 16 && c == c / 64 * 64 + c % 64;
  }

  /** The decoder on a whole group. */
  lemma DecodeGroup(a: nat, b: nat, c: nat, t: string)
    requires a < 256 && b < 256 && c < 256
    ensures Decode(Group(a, b, c) + t)
         == (match Decode(t) case None => None case Some(rest) => Some([a as char, b as char, c as char] + rest))
  {
    hide Digit, DigitValue, Octets;
    GroupBack(a, b, c);
    var u := Group(a, b, c) + t;
    assert u[4..] == t && u[2] != '=' && u[3] != '=';
  }

  lemma DecodePadded(a: nat, b: nat)
    requires a < 256 && b < 256
    ensures Decode(Group(a, 0, 0)[..2] + "==") == Some([a as char])
    ensures Decode(Group(a, b, 0)[..3] + "=") == Some([a as char, b as char])
  {
    hide Digit, DigitValue, Octets;
    GroupBack(a, 0, 0);
    GroupBack(a, b, 0);
    var t, u := Group(a, 0, 0)[..2] + "==", Group(a, b, 0)[..3] + "=";
    assert OnePadded(t) && TwoPadded(u) && !OnePadded(u);
    assert Octets(a / 4, a % 4 * 16, 0, 0)[..1] == [a as char];
    assert Octets(a / 4, a % 4 * 16 + b / 16, b % 16 * 4, 0)[..2] == [a as char, b as char];
  }

  lemma {:induction false} RoundTrip(s: string)
    requires IsByteString(s)
    ensures Decode(Encode(s)) == Some(s)
  {
    hide Group, Decode;
    if s == "" {
      NothingDecoded();
    } else if |s| == 1 {
      DecodePadded(s[0] as int, 0);
      assert s == [s[0]];
    } else if |s| == 2 {
      DecodePadded(s[0] as int, s[1] as int);
      assert s == [s[0], s[1]];
    } else {
      RoundTrip(s[3..]);
      DecodeGroup(s[0] as int, s[1] as int, s[2] as int, Encode(s[3..]));
      assert s == [s[0], s[1], s[2]] + s[3..];
    }
  }

  lemma NothingDecoded()
    ensures Decode("") == Some("")
  {
  }

  /** The strict decoder accepts nothing but encodings. */
  lemma {:induction false} DecodeExactly(t: string, s: string)
    ensures Decode(t) == Some(s) <==> IsByteString(s) && t == Encode(s)
    decreases |t|
  {
    hide Octets, Group, Digit, DigitValue, Decode, Encode;
    if IsByteString(s) && t == Encode(s) {
      RoundTrip(s);
    } else if Decode(t) == Some(s) {
      Accepted(t, s);
      if t != "" && !OnePadded(t) && !TwoPadded(t) {
        var rest := Decode(t[4..]).value;
        DecodeExactly(t[4..], rest);
        FullBack(t, s, rest);
      } else {
        EndBack(t, s);
      }
    }
  }

  lemma {:induction false} Accepted(t: string, s: string)
    requires Decode(t) == Some(s)
    ensures t == "" || |t| >= 4
    ensures t != "" && !OnePadded(t) && !TwoPadded(t) ==>
              && Decode(t[4..]).Some? && (forall i :: 0 <= i < 4 ==> DigitValue(t[i]).Some?)
              && s == Octets(DigitValue(t[0]).value, DigitValue(t[1]).value, DigitValue(t[2]).value, DigitValue(t[3]).value)
                      + Decode(t[4..]).value
  {
    hide Octets, Digit, DigitValue;
  }

  lemma FullBack(t: string, s: string, rest: string)
    requires |t| >= 4 && forall i :: 0 <= i < 4 ==> DigitValue(t[i]).Some?
    requires IsByteString(rest) && t[4..] == Encode(rest)
    requires s == Octets(DigitValue(t[0]).value, DigitValue(t[1]).value, DigitValue(t[2]).value, DigitValue(t[3]).value) + rest
    ensures IsByteString(s) && t == Encode(s)
  {
    hide Octets, Group, Digit, DigitValue;
    ValuesBack(t, 4);
    GroupOfOctets(DigitValue(t[0]).value, DigitValue(t[1]).value, DigitValue(t[2]).value, DigitValue(t[3]).value);
    assert s[3..] == rest && t == t[..4] + t[4..];
  }

  lemma Split4(x: nat, y: nat)
    requires y < 4
    ensures (x * 4 + y) / 4 == x && (x * 4 + y) % 4 == y
  {
  }

  lemma Split16(x: nat, y: nat)
    requires y < 16
    ensures (x * 16 + y) / 16 == x && (x * 16 + y) % 16 == y
  {
  }

  lemma Split64(x: nat, y: nat)
    requires y < 64
    ensures (x * 64 + y) / 64 == x && (x * 64 + y) % 64 == y
  {
  }

  lemma SixFromEight(p: nat, q: nat, r: nat, s: nat)
    requires p < 64 && q < 64 && r < 64 && s < 64
    ensures var a, b, c := p * 4 + q / 16, q % 16 * 16 + r / 4, r % 4 * 64 + s;
            a / 4 == p && a % 4 * 16 + b / 16 == q && b % 16 * 4 + c / 64 == r && c % 64 == s
  {
    Split4(p, q / 16);
    Split16(q % 16, r / 4);
    Split64(r % 4, s);
  }

  lemma GroupOfOctets(p: nat, q: nat, r: nat, s: nat)
    requires p < 64 && q < 64 && r < 64 && s < 64
    ensures var o := Octets(p, q, r, s);
            Group(o[0] as int, o[1] as int, o[2] as int) == [Digit(p), Digit(q), Digit(r), Digit(s)]
  {
    hide Digit;
    SixFromEight(p, q, r, s);
    var a, b, c := p * 4 + q / 16, q % 16 * 16 + r / 4, r % 4 * 64 + s;
    var o := Octets(p, q, r, s);
    assert o[0] as int == a && o[1] as int == b && o[2] as int == c;
    hide Octets;
    assert Group(a, b, c) == [Digit(a / 4), Digit(a % 4 * 16 + b / 16), Digit(b % 16 * 4 + c / 64), Digit(c % 64)];
  }

  lemma ValuesBack(t: string, n: nat)
    requires n <= |t| && forall i :: 0 <= i < n ==> DigitValue(t[i]).Some?
    ensures forall i :: 0 <= i < n ==> Digit(DigitValue(t[i]).value) == t[i]
  {
    forall i | 0 <= i < n ensures Digit(DigitValue(t[i]).value) == t[i] {
      DigitOfValue(t[i]);
    }
  }

  /** A text that ends in padding is the encoding of what it decodes to. */
  lemma EndBack(t: string, s: string)
    requires Decode(t) == Some(s) && (t == "" || OnePadded(t) || TwoPadded(t))
    ensures IsByteString(s) && t == Encode(s)
  {
    hide Octets, Group, Digit, DigitValue;
    if t == "" {
      return;
    }
    var p, q := DigitValue(t[0]).value, DigitValue(t[1]).value;
    if OnePadded(t) {
      ValuesBack(t, 2);
      GroupOfOctets(p, q, 0, 0);
      UnusedBits(p, q, 0);
      assert t == t[..2] + t[2..];
    } else {
      ValuesBack(t, 3);
      var r := DigitValue(t[2]).value;
      GroupOfOctets(p, q, r, 0);
      UnusedBits(p, q, r);
      assert t == t[..3] + t[3..];
    }
  }

  lemma UnusedBits(p: nat, q: nat, r: nat)
    requires p < 64 && q < 64 && r < 64
    ensures r % 4 == 0 ==> Octets(p, q, r, 0)[2] == 0 as char
    ensures q % 16 == 0 && r == 0 ==> Octets(p, q, r, 0)[1] == 0 as char
  {
  }

  // ----- The encoder -----

  /** The accumulator after one more octet; the shift leaves room, so the addition cannot wrap. */
  function Push(val: int, c: char): int
    requires c as int < 256
  {
    Wrap32(val * 256) + c as int
  }

  /** The six bits that start `valb` bits from the low end. */
  function SixBits(val: int, valb: nat): (n: nat)
    ensures n < 64
  {
    val / PowerOfTwo(valb) % 64
  }

  lemma PowersAre()
    ensures PowerOfTwo(0) == 1 && PowerOfTwo(2) == 4 && PowerOfTwo(4) == 16 && PowerOfTwo(6) == 64 && PowerOfTwo(8) == 256
    ensures PowerOfTwo(10) == 1024 && PowerOfTwo(12) == 4096
  {
    assert PowerOfTwo(4) == 16;
    assert PowerOfTwo(8) == 256;
    assert PowerOfTwo(12) == 4096;
  }

  /** The encoder's bits that are still to be written out are the low `valb + 6` ones. */
  predicate Pending(val: int, valb: int, bits: nat)
    requires valb >= -6
  {
    val % PowerOfTwo((valb + 6) as nat) == bits
  }

  lemma Low(k: int, v: nat, c: nat)
    requires v < 16 && c < 256
    ensures var x := k * 4096 + v * 256 + c; x % 4096 == v * 256 + c && x % 1024 == v % 4 * 256 + c && x % 256 == c
  {
    var x := k * 4096 + v * 256 + c;
    assert x / 4096 == k;
    assert x == (k * 4 + v / 4) * 1024 + (v % 4 * 256 + c);
    assert x / 1024 == k * 4 + v / 4;
    assert x == (k * 16 + v) * 256 + c;
    assert x / 256 == k * 16 + v;
  }

  /** Wrapping leaves the low bits alone. */
  lemma LowBits(val: int, c: char)
    requires c as int < 256
    ensures var x := Push(val, c);
            && x % 4096 == val % 16 * 256 + c as int && x % 1024 == val % 4 * 256 + c as int && x % 256 == c as int
  {
    hide Push;
    var q := PushIs(val, c);
    var k, v := val / 16 - q * 0x10_0000, val % 16;
    assert Push(val, c) == k * 4096 + v * 256 + c as int;
    Low(k, v, c as int);
    assert v % 4 == val % 4;
  }

  lemma PushIs(val: int, c: char) returns (q: int)
    requires c as int < 256
    ensures Push(val, c) == val * 256 - q * TWO_32 + c as int
  {
    q := (val * 256 + TWO_31) / TWO_32;
  }

  lemma Middle4(k: int, r: nat)
    requires r < 256
    ensures (k * 256 + r) / 4 % 64 == r / 4
  {
    assert (k * 256 + r) / 4 == k * 64 + r / 4;
  }

  lemma Middle16(k: int, r: nat)
    requires r < 1024
    ensures (k * 1024 + r) / 16 % 64 == r / 16
  {
    assert (k * 1024 + r) / 16 == k * 64 + r / 16;
  }

  lemma Middle64(k: int, r: nat)
    requires r < 4096
    ensures (k * 4096 + r) / 64 % 64 == r / 64
  {
    assert (k * 4096 + r) / 64 == k * 64 + r / 64;
  }

  lemma SixBitsAre(x: int)
    ensures SixBits(x, 0) == x % 64 && SixBits(x, 2) == x % 256 / 4
    ensures SixBits(x, 4) == x % 1024 / 16 && SixBits(x, 6) == x % 4096 / 64
  {
    PowersAre();
    hide PowerOfTwo;
    Middle4(x / 256, x % 256);
    Middle16(x / 1024, x % 1024);
    Middle64(x / 4096, x % 4096);
  }

  lemma Ends(x: int, c: nat)
    requires x % 256 == c
    ensures x % 4 == c % 4 && x % 16 == c % 16 && x % 64 == c % 64
  {
    Ends4(x / 256, c);
    Ends16(x / 256, c);
    Ends64(x / 256, c);
  }

  lemma Ends4(m: int, c: nat)
    ensures (m * 256 + c) % 4 == c % 4
  {
    assert m * 256 + c == (m * 64 + c / 4) * 4 + c % 4;
  }

  lemma Ends16(m: int, c: nat)
    ensures (m * 256 + c) % 16 == c % 16
  {
    assert m * 256 + c == (m * 16 + c / 16) * 16 + c % 16;
  }

  lemma Ends64(m: int, c: nat)
    ensures (m * 256 + c) % 64 == c % 64
  {
    assert m * 256 + c == (m * 4 + c / 64) * 64 + c % 64;
  }

  /** After one more octet the digits depend only on those bits, however the accumulator has wrapped. */
  lemma OnlyLowBitsMatter(val: int, valb: int, bits: nat, c: char)
    requires valb in {-6, -4, -2} && Pending(val, valb, bits) && c as int < 256
    ensures SixBits(Push(val, c), valb + 8) == (bits * 256 + c as int) / PowerOfTwo(valb + 8)
    ensures valb == -6 ==> Pending(Push(val, c), -4, c as int % 4)
    ensures valb == -4 ==> Pending(Push(val, c), -2, c as int % 16)
    ensures valb == -2 ==> SixBits(Push(val, c), 0) == c as int % 64 && Pending(Push(val, c), -6, 0)
  {
    hide Push, SixBits;
    PowersAre();
    hide PowerOfTwo;
    LowBits(val, c);
    var x := Push(val, c);
    SixBitsAre(x);
    Ends(x, c as int);
  }

  /** What the first `i` octets have put out, and the bits of them that are still held back. */
  function Written(s: string, i: nat): string
    requires IsByteString(s) && i <= |s|
  {
    Encode(s[..i / 3 * 3]) + if i % 3 == 0 then "" else if i % 3 == 1 then Group(s[i - 1] as int, 0, 0)[..1]
                             else Group(s[i - 2] as int, s[i - 1] as int, 0)[..2]
  }

  function Held(s: string, i: nat): nat
    requires IsByteString(s) && i <= |s|
  {
    if i % 3 == 0 then 0 else if i % 3 == 1 then s[i - 1] as int % 4 else s[i - 1] as int % 16
  }

  lemma {:induction false} EncodeSplit(s: string, k: nat)
    requires IsByteString(s) && 3 * k <= |s|
    ensures Encode(s) == Encode(s[..3 * k]) + Encode(s[3 * k..])
  {
    hide Group;
    if k == 0 {
      assert s[0..] == s && "" + Encode(s) == Encode(s);
    } else {
      var t := s[3..];
      EncodeSplit(t, k - 1);
      assert s[..3 * k][3..] == t[..3 * (k - 1)] && t[3 * (k - 1)..] == s[3 * k..];
      Assoc(Group(s[0] as int, s[1] as int, s[2] as int), Encode(t[..3 * (k - 1)]), Encode(t[3 * (k - 1)..]));
    }
  }

  /** The digits that the next octet puts out. */
  function Digits(s: string, i: nat): string
    requires IsByteString(s) && i < |s|
  {
    var c := s[i] as int;
    if i % 3 == 0 then [Digit(c / 4)]
    else if i % 3 == 1 then [Digit(s[i - 1] as int % 4 * 16 + c / 16)]
    else [Digit(s[i - 1] as int % 16 * 4 + c / 64), Digit(c % 64)]
  }

  lemma GroupParts(a: nat, b: nat, c: nat)
    requires a < 256 && b < 256 && c < 256
    ensures Group(a, 0, 0)[..1] == [Digit(a / 4)]
    ensures Group(a, b, 0)[..2] == [Digit(a / 4)] + [Digit(a % 4 * 16 + b / 16)]
    ensures Group(a, b, c) == Group(a, b, 0)[..2] + [Digit(b % 16 * 4 + c / 64), Digit(c % 64)]
  {
    hide Digit;
  }

  lemma Whole(s: string, k: nat)
    requires IsByteString(s) && 3 * k + 3 <= |s|
    ensures Encode(s[..3 * k + 3])
         == Encode(s[..3 * k]) + Group(s[3 * k] as int, s[3 * k + 1] as int, s[3 * k + 2] as int)
  {
    hide Group;
    var t := s[..3 * k + 3];
    EncodeSplit(t, k);
    var u := t[3 * k..];
    assert t[..3 * k] == s[..3 * k] && |u| == 3 && u[3..] == "";
  }

  lemma Third(k: nat)
    ensures 3 * k / 3 == k && (3 * k + 1) / 3 == k && (3 * k + 2) / 3 == k && (3 * k + 3) / 3 == k + 1
    ensures 3 * k % 3 == 0 && (3 * k + 1) % 3 == 1 && (3 * k + 2) % 3 == 2
  {
  }

  lemma WrittenIs(s: string, k: nat)
    requires IsByteString(s)
    ensures 3 * k <= |s| ==> Written(s, 3 * k) == Encode(s[..3 * k]) && Held(s, 3 * k) == 0
    ensures 3 * k + 1 <= |s| ==> Written(s, 3 * k + 1) == Encode(s[..3 * k]) + Group(s[3 * k] as int, 0, 0)[..1]
                                 && Held(s, 3 * k + 1) == s[3 * k] as int % 4
    ensures 3 * k + 2 <= |s| ==> Written(s, 3 * k + 2)
                                 == Encode(s[..3 * k]) + Group(s[3 * k] as int, s[3 * k + 1] as int, 0)[..2]
                                 && Held(s, 3 * k + 2) == s[3 * k + 1] as int % 16
  {
    hide Digit, Group, Encode;
    Third(k);
  }

  lemma {:induction false} WrittenStep(s: string, i: nat)
    requires IsByteString(s) && i < |s|
    ensures Written(s, i + 1) == Written(s, i) + Digits(s, i)
  {
    hide Digit, Group, Encode, Written, Held;
    var k := i / 3;
    WrittenIs(s, k);
    if i % 3 == 0 {
      GroupParts(s[i] as int, 0, 0);
    } else if i % 3 == 1 {
      GroupParts(s[i - 1] as int, s[i] as int, 0);
      Assoc(Encode(s[..3 * k]), Group(s[i - 1] as int, 0, 0)[..1], Digits(s, i));
    } else {
      WrittenIs(s, k + 1);
      GroupParts(s[i - 2] as int, s[i - 1] as int, s[i] as int);
      Whole(s, k);
      Assoc(Encode(s[..3 * k]), Group(s[i - 2] as int, s[i - 1] as int, 0)[..2], Digits(s, i));
    }
  }

  function Pads(n: nat): string { if n == 0 then "" else "=" + Pads(n - 1) }

  /** The characters that fill the last group. */
  function Missing(n: nat): nat { (4 - n % 4) % 4 }

  lemma GroupHeads(a: nat, b: nat)
    requires a < 256 && b < 256
    ensures Group(a, 0, 0)[..2] == Group(a, 0, 0)[..1] + [Digit(a % 4 * 16)]
    ensures Group(a, b, 0)[..3] == Group(a, b, 0)[..2] + [Digit(b % 16 * 4)]
  {
    hide Digit;
  }

  lemma EncodeShort(t: string)
    requires IsByteString(t) && |t| < 3
    ensures |t| == 0 ==> Encode(t) == ""
    ensures |t| == 1 ==> Encode(t) == (Group(t[0] as int, 0, 0)[..1] + [Digit(t[0] as int % 4 * 16)]) + "=="
    ensures |t| == 2 ==> Encode(t) == (Group(t[0] as int, t[1] as int, 0)[..2] + [Digit(t[1] as int % 16 * 4)]) + "="
  {
    hide Digit, Group;
    if |t| == 1 {
      GroupHeads(t[0] as int, 0);
    } else if |t| == 2 {
      GroupHeads(t[0] as int, t[1] as int);
    }
  }

  /** The digit that the bits held back at the end make, and the padding. */
  lemma EncodeEnd(s: string)
    requires IsByteString(s)
    ensures |s| % 3 == 0 ==> Encode(s) == Written(s, |s|)
    ensures |s| % 3 == 1 ==> Encode(s) == (Written(s, |s|) + [Digit(Held(s, |s|) * 16)]) + Pads(2)
    ensures |s| % 3 == 2 ==> Encode(s) == (Written(s, |s|) + [Digit(Held(s, |s|) * 4)]) + Pads(1)
  {
    hide Digit, Group, Written, Held, Encode, Pads;
    var k := |s| / 3;
    if |s| % 3 == 0 {
      WrittenIs(s, k);
      assert s[..3 * k] == s;
    } else if |s| % 3 == 1 {
      EndOne(s, k);
    } else {
      EndTwo(s, k);
    }
  }

  lemma EndOne(s: string, k: nat)
    requires IsByteString(s) && |s| == 3 * k + 1
    ensures Encode(s) == (Written(s, |s|) + [Digit(Held(s, |s|) * 16)]) + Pads(2)
  {
    hide Digit, Group, Written, Held, Encode;
    WrittenIs(s, k);
    EncodeSplit(s, k);
    var t := s[3 * k..];
    EncodeShort(t);
    PadsAre();
    FourParts(Encode(s[..3 * k]), Group(t[0] as int, 0, 0)[..1], [Digit(t[0] as int % 4 * 16)], "==");
  }

  lemma EndTwo(s: string, k: nat)
    requires IsByteString(s) && |s| == 3 * k + 2
    ensures Encode(s) == (Written(s, |s|) + [Digit(Held(s, |s|) * 4)]) + Pads(1)
  {
    hide Digit, Group, Written, Held, Encode;
    WrittenIs(s, k);
    EncodeSplit(s, k);
    var t := s[3 * k..];
    EncodeShort(t);
    PadsAre();
    FourParts(Encode(s[..3 * k]), Group(t[0] as int, t[1] as int, 0)[..2], [Digit(t[1] as int % 16 * 4)], "=");
  }

  lemma FourParts(a: string, b: string, c: string, d: string)
    ensures a + ((b + c) + d) == ((a + b) + c) + d
  {
  }

  lemma PadsAre()
    ensures Pads(0) == "" && Pads(1) == "=" && Pads(2) == "=="
  {
  }

  lemma HeldStep(s: string, i: nat)
    requires IsByteString(s) && i < |s|
    ensures Held(s, i + 1) == if i % 3 == 0 then s[i] as int % 4 else if i % 3 == 1 then s[i] as int % 16 else 0
  {
  }

  /** The padding loop. */
  method Pad(t: string) returns (out: string)
    ensures out == t + Pads(Missing(|t|))
  {
    out := t;
    PadsAre();
    while |out| % 4 != 0
      invariant out + Pads(Missing(|out|)) == t + Pads(Missing(|t|))
      decreases Missing(|out|)
    {
      assert Pads(Missing(|out|)) == "=" + Pads(Missing(|out| + 1));
      Assoc(out, "=", Pads(Missing(|out| + 1)));
      out := out + "=";
    }
  }

  /** The inner loop: every six bits there are. */
  method PutDigits(t: string, val: int, start: int) returns (out: string, valb: int)
    requires start in {2, 4, 6}
    ensures out == t + ([Digit(SixBits(val, start))] + if start == 6 then [Digit(SixBits(val, 0))] else [])
    ensures valb == if start == 6 then -6 else start - 6
  {
    hide Digit, SixBits;
    out, valb := t, start;
    while valb >= 0
      invariant (valb == start && out == t) || (valb == start - 6 && out == t + [Digit(SixBits(val, start))])
                || (start == 6 && valb == -6 && out == t + ([Digit(SixBits(val, start))] + [Digit(SixBits(val, 0))]))
    {
      out := out + [Digit(SixBits(val, valb))];
      valb := valb - 6;
    }
  }

  lemma PushNothing(val: int)
    ensures Push(val, 0 as char) == Wrap32(val * 256)
  {
  }

  /** One octet. */
  lemma LoopStep(s: string, i: nat, val: int, valb: int)
    requires IsByteString(s) && i < |s| && valb == 2 * (i % 3) - 6 && Pending(val, valb, Held(s, i))
    ensures var v, b := Push(val, s[i]), valb + 8;
            && Written(s, i + 1)
               == Written(s, i) + ([Digit(SixBits(v, b))] + if b == 6 then [Digit(SixBits(v, 0))] else [])
            && Pending(v, 2 * ((i + 1) % 3) - 6, Held(s, i + 1))
  {
    hide Digit, Push, SixBits, Written, Held, PowerOfTwo, Digits, Pending;
    OnlyLowBitsMatter(val, valb, Held(s, i), s[i]);
    WrittenStep(s, i);
    HeldStep(s, i);
    NextDigits(s, i, Push(val, s[i]), valb + 8);
  }

  /** The rest after the loop over the octets. */
  method Finish(t: string, val: int, valb: int, ghost s: string) returns (out: string)
    requires IsByteString(s) && valb == 2 * (|s| % 3) - 6 && Pending(val, valb, Held(s, |s|)) && t == Written(s, |s|)
    ensures out == Encode(s)
  {
    hide Digit, SixBits, Written, Held, PowerOfTwo, Pads, Push, Wrap32;
    out := t;
    ghost var bits := Held(s, |s|);
    OnlyLowBitsMatter(val, valb, bits, 0 as char);
    PushNothing(val);
    LastDigit(valb, bits);
    EncodeEnd(s);
    if valb > -6 {
      out := out + [Digit(SixBits(Wrap32(val * 256), valb + 8))];
    }
    assert out + Pads(Padding(s)) == Encode(s) by { PadsAre(); }
    PaddingLength(s, out);
    out := Pad(out);
  }

  /** How much padding an encoding ends in. */
  function Padding(s: string): (n: nat) { if |s| % 3 == 0 then 0 else 3 - |s| % 3 }

  lemma PaddingLength(s: string, t: string)
    requires IsByteString(s) && t + Pads(Padding(s)) == Encode(s)
    ensures Missing(|t|) == Padding(s)
  {
    hide Encode;
    PadsAre();
    hide Pads;
    MissingIs(|t|, (|s| + 2) / 3, Padding(s));
  }

  lemma MissingIs(n: nat, k: nat, p: nat)
    requires n + p == 4 * k && p < 4
    ensures Missing(n) == p
  {
    if p > 0 {
      assert n == 4 * (k - 1) + (4 - p);
      assert n % 4 == 4 - p;
    }
  }

  method EncodeLoop(s: string) returns (out: string)
    requires IsByteString(s)
    ensures out == Encode(s)
  {
    hide Digit, Push, SixBits, Encode, Written, Held, Pending;
    out := "";
    var val, valb := 0, -6;
    NothingWritten(s);
    for i := 0 to |s|
      invariant valb == 2 * (i % 3) - 6 && Pending(val, valb, Held(s, i)) && out == Written(s, i)
    {
      LoopStep(s, i, val, valb);
      val := Push(val, s[i]);
      valb := valb + 8;
      out, valb := PutDigits(out, val, valb);
    }
    out := Finish(out, val, valb, s);
  }

  lemma LastDigit(valb: int, bits: nat)
    ensures valb == -4 ==> bits * 256 / PowerOfTwo(valb + 8) == bits * 16
    ensures valb == -2 ==> bits * 256 / PowerOfTwo(valb + 8) == bits * 4
  {
    PowersAre();
  }

  lemma NothingWritten(s: string)
    requires IsByteString(s)
    ensures Written(s, 0) == "" && Pending(0, -6, Held(s, 0))
  {
    assert Encode(s[..0]) == "";
  }

  lemma NextDigits(s: string, i: nat, val: int, valb: int)
    requires IsByteString(s) && i < |s| && valb == 2 * (i % 3) + 2
    requires SixBits(val, valb) == (Held(s, i) * 256 + s[i] as int) / PowerOfTwo(valb)
    requires valb == 6 ==> SixBits(val, 0) == s[i] as int % 64
    ensures Digits(s, i) == [Digit(SixBits(val, valb))] + if valb == 6 then [Digit(SixBits(val, 0))] else []
  {
    hide Digit, SixBits;
    PowersAre();
    hide PowerOfTwo;
  }
}

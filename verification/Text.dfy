/** Trimming and splitting, as the header, query and form-data parsers use them. */
module Text {
  import opened Bytes

  predicate IsBlank(c: char) { c == ' ' || c == '\t' }

  predicate AllBlank(s: string) { forall i :: 0 <= i < |s| ==> IsBlank(s[i]) }

  /** `isspace`, and the regular expressions' `\s`. */
  predicate IsSpace(c: char) { c == ' ' || '\t' <= c <= '\r' }

  function SkipSpaces(s: string): string {
    if s != "" && IsSpace(s[0]) then SkipSpaces(s[1..]) else s
  }

  function Lower(c: char): char {
    if 'A' <= c <= 'Z' then (c as int + 32) as char else c
  }

  predicate StartsWithIgnoreCase(a: string, b: string) {
    |b| <= |a| && forall i :: 0 <= i < |b| ==> Lower(a[i]) == Lower(b[i])
  }

  // ----- Letters of either case -----

  /** `a` is the lower-case text `b`, in letters of either case. */
  predicate CaseOf(a: string, b: string) {
    |a| == |b| && forall i :: 0 <= i < |a| ==> a[i] == b[i] || ('a' <= b[i] <= 'z' && a[i] as int == b[i] as int - 32)
  }

  predicate Spaces(s: string) { forall i :: 0 <= i < |s| ==> s[i] == ' ' || 9 <= s[i] as int <= 13 }

  /** `line` begins with `b`, in letters of either case. */
  predicate Begins(line: string, b: string) { |line| >= |b| && CaseOf(line[..|b|], b) }

  lemma LowerIs(c: char, d: char)
    requires d as int < 65 || d as int > 90
    ensures Lower(c) == d <==> c == d || ('a' <= d <= 'z' && c as int == d as int - 32)
    ensures Lower(d) == d
  {
  }

  /** A text that starts like the lower-case text `b`, which the parser writes as `m`. */
  lemma StartsIs(s: string, b: string, m: string)
    requires CaseOf(m, b) && forall i :: 0 <= i < |b| ==> b[i] as int < 65 || b[i] as int > 90
    ensures StartsWithIgnoreCase(s, m) <==> Begins(s, b)
  {
    forall i | 0 <= i < |b| ensures Lower(m[i]) == b[i] {
      LowerIs(m[i], b[i]);
    }
    forall i | 0 <= i < |b| && |b| <= |s|
      ensures Lower(s[i]) == Lower(m[i]) <==> s[..|b|][i] == b[i] || ('a' <= b[i] <= 'z' && s[..|b|][i] as int == b[i] as int - 32)
    {
      LowerIs(s[i], b[i]);
    }
  }

  lemma {:induction false} SkipsSpaces(s: string, t: string)
    requires Spaces(s) && t != "" && !IsSpace(t[0])
    ensures SkipSpaces(s + t) == t
  {
    if s == "" {
      assert s + t == t;
    } else {
      assert (s + t)[1..] == s[1..] + t;
      SkipsSpaces(s[1..], t);
    }
  }

  function TrimLeft(s: string): (t: string)
  {
    if s != "" && IsBlank(s[0]) then TrimLeft(s[1..]) else s
  }

  function TrimRight(s: string): (t: string)
  {
    if s != "" && IsBlank(s[|s| - 1]) then TrimRight(s[..|s| - 1]) else s
  }

  function Trim(s: string): string { TrimRight(TrimLeft(s)) }

  predicate IsTrimmed(s: string) {
    s != "" ==> !IsBlank(s[0]) && !IsBlank(s[|s| - 1])
  }

  function TrimQuotes(s: string): string {
    if |s| >= 2 && s[0] == '"' && s[|s| - 1] == '"' then s[1..|s| - 1] else s
  }

  lemma {:induction false} TrimLeftIs(s: string, l: nat)
    requires l <= |s| && AllBlank(s[..l]) && (l < |s| ==> !IsBlank(s[l]))
    ensures TrimLeft(s) == s[l..]
  {
    if l > 0 {
      assert IsBlank(s[..l][0]);
      assert s[1..][..l - 1] == s[..l][1..];
      TrimLeftIs(s[1..], l - 1);
    }
  }

  lemma {:induction false} TrimRightIs(s: string, r: nat)
    requires r <= |s| && AllBlank(s[r..]) && (r > 0 ==> !IsBlank(s[r - 1]))
    ensures TrimRight(s) == s[..r]
  {
    if r < |s| {
      assert IsBlank(s[r..][|s| - 1 - r]);
      var t := s[..|s| - 1];
      assert t[r..] == s[r..][..|t| - r];
      TrimRightIs(t, r);
      assert t[..r] == s[..r];
    }
  }

  /** What trimming finds: the part between the first and the last byte that is not blank. */
  lemma TrimIs(s: string, l: nat, r: nat)
    requires l < r <= |s| && !IsBlank(s[l]) && !IsBlank(s[r - 1])
    requires AllBlank(s[..l]) && AllBlank(s[r..])
    ensures Trim(s) == s[l..r]
  {
    TrimLeftIs(s, l);
    var t := s[l..];
    assert t[r - l..] == s[r..];
    TrimRightIs(t, r - l);
    assert t[..r - l] == s[l..r];
  }

  /** Where the part that is not blank ends. */
  lemma LastSolid(s: string, lo: nat) returns (r: nat)
    requires lo < |s| && !IsBlank(s[lo])
    ensures lo < r <= |s| && !IsBlank(s[r - 1]) && AllBlank(s[r..])
    ensures !IsBlank(s[|s| - 1]) ==> r == |s|
  {
    r := |s|;
    while IsBlank(s[r - 1])
      invariant lo < r <= |s| && AllBlank(s[r..])
      invariant !IsBlank(s[|s| - 1]) ==> r == |s|
      decreases r
    {
      r := r - 1;
    }
  }

  lemma TrimBlank(s: string)
    requires AllBlank(s)
    ensures Trim(s) == ""
  {
    assert s[..|s|] == s;
    TrimLeftIs(s, |s|);
  }

  lemma TrimOfTrimmed(s: string)
    requires IsTrimmed(s)
    ensures Trim(s) == s
  {
    if s != "" {
      TrimIs(s, 0, |s|);
    }
  }

  /** The bounds the scanner narrows; the left scan stops at the end of the whole text, not at `right`. */
  method TrimRange(s: string, left: nat, right: nat) returns (l: nat, r: nat)
    requires left <= right <= |s|
    ensures l < r ==> r <= |s| && s[l..r] == Trim(s[left..right])
    ensures l >= r ==> Trim(s[left..right]) == ""
  {
    l, r := left, right;
    while l < |s| && IsBlank(s[l])
      invariant left <= l <= |s| && forall i :: left <= i < l ==> IsBlank(s[i])
    {
      l := l + 1;
    }
    while r > 0 && IsBlank(s[r - 1])
      invariant r <= right && forall i :: r <= i < right ==> IsBlank(s[i])
    {
      r := r - 1;
    }
    ghost var t := s[left..right];
    forall i | 0 <= i < |t| && (i < l - left || i >= r - left) ensures IsBlank(t[i]) {
      assert t[i] == s[left + i];
    }
    if l < r {
      TrimIs(t, l - left, r - left);
      Slices(s, left, right, l - left, r - left);
    } else {
      TrimBlank(t);
    }
  }

  function NonEmpty(t: string): seq<string> { if t == "" then [] else [t] }

  /** The non-empty trimmed pieces of `s` between occurrences of `d`. */
  function Pieces(s: string, d: char): (r: seq<string>)
    decreases |s|
  {
    var i := Find(s, [d]);
    if i < |s| then NonEmpty(Trim(s[..i])) + Pieces(s[i + 1..], d) else NonEmpty(Trim(s))
  }

  lemma FindChar(s: string, d: char, i: nat)
    requires i <= |s| && (forall k :: 0 <= k < i ==> s[k] != d) && (i < |s| ==> s[i] == d)
    ensures Find(s, [d]) == i
  {
    forall k: nat | k < i ensures !OccursAt(s, [d], k) {
      assert s[k..k + 1][0] == s[k];
    }
    if i < |s| {
      assert OccursAt(s, [d], i);
    }
    var r := Find(s, [d]);
    if r < |s| {
      assert s[r..r + 1][0] == s[r];
    }
  }

  lemma PiecesStep(s: string, d: char, beg: nat, i: nat)
    requires beg <= i < |s| && s[i] == d && forall k :: beg <= k < i ==> s[k] != d
    ensures Pieces(s[beg..], d) == NonEmpty(Trim(s[beg..i])) + Pieces(s[i + 1..], d)
  {
    FindChar(s[beg..], d, i - beg);
    Tails(s, beg, i - beg);
    Tails(s, beg, i - beg + 1);
  }

  lemma FindCharFirst(s: string, d: char)
    ensures d !in s[..Find(s, [d])]
  {
    forall k: nat | k < Find(s, [d]) ensures s[k] != d {
      assert s[k..k + 1] == [s[k]] && !OccursAt(s, [d], k);
    }
  }

  method Split(s: string, d: char) returns (out: seq<string>)
    ensures out == Pieces(s, d)
  {
    hide Pieces;
    out := [];
    var i, beg := 0, 0;
    while i < |s|
      invariant beg <= i <= |s|
      invariant forall k :: beg <= k < i ==> s[k] != d
      invariant Pieces(s, d) == out + Pieces(s[beg..], d)
    {
      if s[i] == d {
        var l, r := TrimRange(s, beg, i);
        ghost var piece, rest := NonEmpty(Trim(s[beg..i])), Pieces(s[i + 1..], d);
        PiecesStep(s, d, beg, i);
        assert out + (piece + rest) == (out + piece) + rest;
        out := if l < r then out + [s[l..r]] else out;
        beg := i + 1;
      }
      i := i + 1;
    }
    if i > 0 {
      var l, r := TrimRange(s, beg, i);
      assert s[beg..i] == s[beg..];
      out := if l < r then out + [s[l..r]] else out;
    } else {
      TrimBlank(s[beg..]);
    }
    PiecesOf(s[beg..], d, "");
  }

  /** A text without `d` is one piece; a leading text and a `d` come off the front. */
  lemma PiecesOf(a: string, d: char, rest: string)
    requires d !in a
    ensures Pieces(a, d) == NonEmpty(Trim(a))
    ensures Pieces(a + [d] + rest, d) == NonEmpty(Trim(a)) + Pieces(rest, d)
  {
    FindChar(a, d, |a|);
    var s := a + [d] + rest;
    FindChar(s, d, |a|);
    assert s[..|a|] == a && s[|a| + 1..] == rest;
  }

  /** Parts with a separator between each two. */
  function Joined(parts: seq<string>, d: char): string {
    if parts == [] then "" else parts[0] + if |parts| == 1 then "" else [d] + Joined(parts[1..], d)
  }

  function NonEmptyTrims(parts: seq<string>): seq<string> {
    if parts == [] then [] else NonEmpty(Trim(parts[0])) + NonEmptyTrims(parts[1..])
  }

  /** Splitting gives the trimmed parts between the separators, without the empty ones. */
  lemma {:induction false} PiecesJoined(parts: seq<string>, d: char)
    requires parts != [] && forall i :: 0 <= i < |parts| ==> d !in parts[i]
    ensures Pieces(Joined(parts, d), d) == NonEmptyTrims(parts)
  {
    hide Pieces, Trim;
    if |parts| == 1 {
      PiecesOf(parts[0], d, "");
      assert parts[0] + "" == parts[0];
    } else {
      PiecesJoined(parts[1..], d);
      PiecesOf(parts[0], d, Joined(parts[1..], d));
      assert Joined(parts, d) == parts[0] + [d] + Joined(parts[1..], d);
    }
  }

  /** The key and value in one `key=value` piece: its first and, if there is another, its last part. */
  function KeyValue(kv: string): Option<(string, string)>
  {
    var ps := Pieces(kv, '=');
    if ps == [] then None
    else Some((ps[0], if |ps| == 1 then "" else ps[|ps| - 1]))
  }

  function OptionPair(o: Option<(string, string)>): seq<(string, string)> {
    if o.Some? then [o.value] else []
  }

  /** The pairs of a list of pieces; a piece seen before adds nothing. */
  function RawPairs(kvs: seq<string>, seen: set<string>): seq<(string, string)>
  {
    if kvs == [] then []
    else if kvs[0] in seen then RawPairs(kvs[1..], seen)
    else OptionPair(KeyValue(kvs[0])) + RawPairs(kvs[1..], seen + {kvs[0]})
  }

  /** However many parts there are: the first one is the key, and the last of the others the value. */
  lemma KeyValueJoined(parts: seq<string>)
    requires parts != [] && forall i :: 0 <= i < |parts| ==> '=' !in parts[i] && parts[i] != "" && IsTrimmed(parts[i])
    ensures KeyValue(Joined(parts, '=')) == Some((parts[0], if |parts| == 1 then "" else parts[|parts| - 1]))
  {
    hide Pieces, Trim, Joined, NonEmptyTrims;
    PiecesJoined(parts, '=');
    SameTrims(parts);
  }

  lemma {:induction false} SameTrims(parts: seq<string>)
    requires forall i :: 0 <= i < |parts| ==> parts[i] != "" && IsTrimmed(parts[i])
    ensures NonEmptyTrims(parts) == parts
  {
    hide Trim;
    if parts != [] {
      TrimOfTrimmed(parts[0]);
      SameTrims(parts[1..]);
    }
  }

  method SplitKeyValue(kv: string) returns (key: string, val: string)
    ensures key == "" <==> KeyValue(kv).None?
    ensures key != "" ==> KeyValue(kv) == Some((key, val))
  {
    key, val := "", "";
    var parts := Split(kv, '=');
    PiecesNonEmpty(kv, '=');
    for i := 0 to |parts|
      invariant i == 0 ==> key == "" && val == ""
      invariant i > 0 ==> key == parts[0] && val == if i == 1 then "" else parts[i - 1]
    {
      if key == "" {
        key := parts[i];
      } else {
        val := parts[i];
      }
    }
  }

  lemma PiecesUnfold(s: string, d: char) returns (i: nat)
    ensures i == Find(s, [d])
    ensures i == |s| ==> Pieces(s, d) == NonEmpty(Trim(s))
    ensures i < |s| ==> Pieces(s, d) == NonEmpty(Trim(s[..i])) + Pieces(s[i + 1..], d)
  {
    hide Trim, NonEmpty, Find;
    i := Find(s, [d]);
  }

  lemma {:induction false} PiecesNonEmpty(s: string, d: char)
    ensures forall p :: p in Pieces(s, d) ==> p != "" && |p| <= |s|
    decreases |s|
  {
    hide Pieces;
    var i := PiecesUnfold(s, d);
    if i < |s| {
      PiecesNonEmpty(s[i + 1..], d);
      TrimShorter(s[..i]);
    } else {
      TrimShorter(s);
    }
  }

  lemma TrimShorter(s: string)
    ensures |Trim(s)| <= |s|
  {
    TrimLeftShorter(s);
    TrimRightShorter(TrimLeft(s));
  }

  lemma TrimLeftShorter(s: string)
    ensures |TrimLeft(s)| <= |s|
  {
  }

  lemma TrimRightShorter(s: string)
    ensures |TrimRight(s)| <= |s|
  {
  }

  lemma {:induction false} TrimLeftKeeps(s: string, c: char)
    requires c !in s
    ensures c !in TrimLeft(s)
  {
    if s != "" && IsBlank(s[0]) {
      TrimLeftKeeps(s[1..], c);
    }
  }

  lemma {:induction false} TrimRightKeeps(s: string, c: char)
    requires c !in s
    ensures c !in TrimRight(s)
  {
    if s != "" && IsBlank(s[|s| - 1]) {
      TrimRightKeeps(s[..|s| - 1], c);
    }
  }

  lemma TrimKeeps(s: string, c: char)
    requires c !in s
    ensures c !in Trim(s)
  {
    TrimLeftKeeps(s, c);
    TrimRightKeeps(TrimLeft(s), c);
  }

  /** Pieces hold no separator, and nothing the whole text does not hold. */
  lemma {:induction false} PiecesKeep(s: string, d: char, c: char)
    requires c == d || c !in s
    ensures forall p :: p in Pieces(s, d) ==> c !in p
    decreases |s|
  {
    hide Pieces, Trim;
    var i := PiecesUnfold(s, d);
    FindCharFirst(s, d);
    TrimKeeps(s[..i], c);
    assert s[..|s|] == s;
    if i < |s| {
      PiecesKeep(s[i + 1..], d, c);
    }
  }

  /** A value of a pair is short and holds neither separator. */
  lemma {:induction false} PairValues(kvs: seq<string>, seen: set<string>, d: char, n: nat)
    requires forall kv :: kv in kvs ==> d !in kv && |kv| <= n
    ensures forall p :: p in RawPairs(kvs, seen) ==> d !in p.1 && '=' !in p.1 && |p.1| <= n
  {
    if kvs != [] {
      if kvs[0] in seen {
        PairValues(kvs[1..], seen, d, n);
      } else {
        PairValues(kvs[1..], seen + {kvs[0]}, d, n);
        PiecesKeep(kvs[0], '=', '=');
        PiecesKeep(kvs[0], '=', d);
        PiecesNonEmpty(kvs[0], '=');
      }
    }
  }
}

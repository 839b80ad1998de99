/** The form-data serializer, and that the parser undoes it. */
module MultipartRoundTrip {
  import opened Bytes
  import opened Text
  import opened MultipartSpec
  import opened MultipartCuts
  import Query

  // ----- The serializer -----

  function Disposition(f: File): string {
    "Content-Disposition: form-data; name=\"" + f.name + "\"" +
    (if f.filename == "" then "" else "; filename=\"" + f.filename + "\"")
  }

  function TypeLine(f: File): string { "Content-Type: " + f.contentType }

  /** The header lines of an item, with the empty one. */
  function HeaderBlock(f: File): string {
    Disposition(f) + CRLF + (if f.contentType == "" then "" else TypeLine(f) + CRLF) + CRLF
  }

  function ItemBegin(f: File, boundary: string): string { DASH + boundary + CRLF + HeaderBlock(f) }

  function Finish(boundary: string): string { DASH + boundary + DASH + CRLF }

  function Item(p: Part, boundary: string): string { ItemBegin(p.file, boundary) + p.content + CRLF }

  function Serialize(items: seq<Part>, boundary: string): string
  {
    if items == [] then "" else
      Item(items[0], boundary) + Serialize(items[1..], boundary)
  }

  lemma SerializeStep(items: seq<Part>, i: nat, boundary: string, body: string)
    requires i < |items|
    ensures body + Serialize(items[i..], boundary) == (body + Item(items[i], boundary)) + Serialize(items[i + 1..], boundary)
  {
    hide Item;
    assert items[i..][0] == items[i] && items[i..][1..] == items[i + 1..];
  }

  lemma SerializeNone(items: seq<Part>, boundary: string, body: string)
    requires items == []
    ensures body + Serialize(items, boundary) == body == body + ""
  {
  }

  method SerializeFormData(items: seq<Part>, boundary: string, finish: bool) returns (body: string)
    ensures body == Serialize(items, boundary) + if finish then Finish(boundary) else ""
  {
    hide Serialize, Finish, ItemBegin;
    body := "";
    for i := 0 to |items|
      invariant Serialize(items, boundary) == body + Serialize(items[i..], boundary)
    {
      SerializeStep(items, i, boundary, body);
      assert body + Item(items[i], boundary) == (body + ItemBegin(items[i].file, boundary)) + (items[i].content + CRLF);
      body := body + ItemBegin(items[i].file, boundary);
      body := body + (items[i].content + CRLF);
    }
    SerializeNone(items[|items|..], boundary, body);
    if finish {
      body := body + Finish(boundary);
    }
  }

  // ----- A delimiter that cannot overlap itself -----

  /** No proper suffix of `d` starts like `d`. */
  predicate NoOverlap(d: string) { d != "" && forall j :: 1 <= j < |d| ==> d[j] != d[0] }

  lemma FirstAfter(x: string, d: string, rest: string)
    requires NoOverlap(d) && Find(x, d) == |x|
    ensures Find(x + d + rest, d) == |x|
  {
    var s := x + d + rest;
    forall k: nat | k < |x| ensures !OccursAt(s, d, k) {
      if OccursAt(s, d, k) {
        if k + |d| <= |x| {
          assert s == x + (d + rest);
          OccursInPrefix(x, d + rest, d, k);
        } else {
          OccurrenceByte(s, d, k, |x| - k);
        }
      }
    }
    assert OccursAt(s, d, |x|);
  }

  lemma NoReturn(x: string)
    requires '\r' !in x
    ensures Find(x, CRLF) == |x|
  {
    if Find(x, CRLF) < |x| {
      OccurrenceStarts(x, CRLF, Find(x, CRLF));
    }
  }

  // ----- The disposition line -----

  /** A name the disposition line can carry. */
  predicate NameOk(s: string) { ';' !in s && '=' !in s && IsOneLine(s) }

  function NameParam(n: string): string { "name=\"" + n + "\"" }
  function FilenameParam(n: string): string { "filename=\"" + n + "\"" }
  function ParamText(f: File): string {
    NameParam(f.name) + if f.filename == "" then "" else "; " + FilenameParam(f.filename)
  }

  lemma StartsJoin(a: string, b: string, rest: string)
    requires |a| == |b| && forall i :: 0 <= i < |b| ==> Lower(a[i]) == Lower(b[i])
    ensures StartsWithIgnoreCase(a + rest, b) && (a + rest)[|b|..] == rest
  {
  }

  lemma SkipOne(t: string)
    requires t != "" && !IsSpace(t[0])
    ensures SkipSpaces(" " + t) == t
  {
    assert (" " + t)[1..] == t;
  }

  /** A disposition line with the parameters `t`. */
  lemma DispositionText(t: string)
    requires t != "" && !IsSpace(t[0])
    ensures var line := CONTENT_DISPOSITION + " " + (FORM_DATA + " " + t);
            && !StartsWithIgnoreCase(line, CONTENT_TYPE)
            && MatchDisposition(line) == if IsOneLine(t) then Some(t) else None
  {
    hide SkipSpaces, StartsWithIgnoreCase;
    var a := FORM_DATA + " " + t;
    NotType(CONTENT_DISPOSITION + " " + a);
    StartsJoin(CONTENT_DISPOSITION, CONTENT_DISPOSITION, " " + a);
    assert CONTENT_DISPOSITION + (" " + a) == CONTENT_DISPOSITION + " " + a;
    assert a[0] == 'f';
    SkipOne(a);
    StartsJoin(FORM_DATA, FORM_DATA, " " + t);
    assert FORM_DATA + (" " + t) == a;
    SkipOne(t);
  }

  lemma DispositionMatches(f: File)
    ensures !StartsWithIgnoreCase(Disposition(f), CONTENT_TYPE)
    ensures MatchDisposition(Disposition(f)) == if IsOneLine(ParamText(f)) then Some(ParamText(f)) else None
  {
    hide ParamText, MatchDisposition, StartsWithIgnoreCase, Disposition;
    DispositionParts(f);
    ParamTextStarts(f);
    DispositionText(ParamText(f));
  }

  lemma ParamTextStarts(f: File)
    ensures ParamText(f) != "" && ParamText(f)[0] == 'n'
  {
    assert ("name=\"" + f.name + "\"")[0] == 'n';
  }

  lemma DispositionParts(f: File)
    ensures Disposition(f) == CONTENT_DISPOSITION + " " + (FORM_DATA + " " + ParamText(f))
  {
    var n, e := f.name + "\"", if f.filename == "" then "" else "; filename=\"" + f.filename + "\"";
    assert "Content-Disposition: form-data; name=\"" == CONTENT_DISPOSITION + " " + (FORM_DATA + " " + "name=\"");
    assert ParamText(f) == "name=\"" + n + e by {
      if f.filename != "" {
        assert "; " + FilenameParam(f.filename) == e;
      }
    }
    assert Disposition(f) == "Content-Disposition: form-data; name=\"" + n + e;
  }

  lemma NotType(s: string)
    requires |s| > 8 && s[8] == 'D'
    ensures !StartsWithIgnoreCase(s, CONTENT_TYPE)
  {
    assert CONTENT_TYPE[8] == 't';
  }

  lemma QuotedPair(key: string, n: string)
    requires key != "" && IsTrimmed(key) && '=' !in key && '=' !in n
    ensures KeyValue(key + "=" + ("\"" + n + "\"")) == Some((key, "\"" + n + "\""))
    ensures TrimQuotes("\"" + n + "\"") == n
  {
    hide Pieces, Trim;
    var v := "\"" + n + "\"";
    PiecesOf(key, '=', v);
    PiecesOf(v, '=', "");
    TrimOfTrimmed(key);
    TrimOfTrimmed(v);
    assert v[1..|v| - 1] == n;
    assert NonEmpty(key) + NonEmpty(v) == [key, v];
  }

  lemma UnquotedValues(pairs: seq<(string, string)>, n: nat)
    requires forall p :: p in pairs ==> ';' !in p.1 && '=' !in p.1 && |p.1| <= n
    ensures forall p :: p in Unquoted(pairs) ==> ';' !in p.1 && '=' !in p.1 && |p.1| <= n
  {
  }

  lemma LookupIn(params: Params, key: string)
    ensures Lookup(params, key).Some? ==> (key, Lookup(params, key).value) in params
  {
  }

  lemma NoReserved(s: string, n: nat, seen: set<string>)
    requires |s| <= n
    ensures forall p :: p in Unquoted(RawPairs(Pieces(s, ';'), seen)) ==> ';' !in p.1 && '=' !in p.1 && |p.1| <= n
  {
    PiecesKeep(s, ';', ';');
    PiecesNonEmpty(s, ';');
    PairValues(Pieces(s, ';'), seen, ';', n);
    UnquotedValues(RawPairs(Pieces(s, ';'), seen), n);
  }

  /** The pairs after the name: those of a text `s` that starts at the first separator. */
  function LaterPairs(s: string, seen: set<string>): Params { Unquoted(RawPairs(Pieces(s, ';'), seen)) }

  lemma NamePair(n: string)
    requires ';' !in n && '=' !in n
    ensures Trim(NameParam(n)) == NameParam(n) && KeyValue(NameParam(n)) == Some(("name", "\"" + n + "\""))
    ensures TrimQuotes("\"" + n + "\"") == n && ';' !in NameParam(n)
  {
    QuotedPair("name", n);
    assert NameParam(n) == "name" + "=" + ("\"" + n + "\"");
    TrimOfTrimmed(NameParam(n));
  }

  lemma ConsPairs(kv: string, rest: seq<string>, seen: set<string>, key: string, val: string)
    requires kv !in seen && KeyValue(kv) == Some((key, val))
    ensures Unquoted(RawPairs([kv] + rest, seen)) == [(TrimQuotes(key), TrimQuotes(val))] + Unquoted(RawPairs(rest, seen + {kv}))
  {
    hide KeyValue, TrimQuotes;
    assert ([kv] + rest)[1..] == rest;
    var pairs := [(key, val)] + RawPairs(rest, seen + {kv});
    assert pairs[1..] == RawPairs(rest, seen + {kv});
  }

  /** The pairs of a name in quotes, and of what follows it. */
  lemma NameThen(n: string, x: string)
    requires ';' !in n && '=' !in n
    ensures DispositionParams(NameParam(n) + [';'] + x) == [("name", n)] + LaterPairs(x, {NameParam(n)})
  {
    hide Pieces, Trim, KeyValue, TrimQuotes, RawPairs, Unquoted;
    var a, quoted := NameParam(n), "\"" + n + "\"";
    NamePair(n);
    KeyUnquoted("name");
    PiecesOf(a, ';', x);
    ConsPairs(a, Pieces(x, ';'), {}, "name", quoted);
    assert {} + {a} == {a};
  }

  lemma NameFirst(f: File)
    requires ';' !in f.name && '=' !in f.name
    ensures DispositionParams(ParamText(f)) ==
      [("name", f.name)] + if f.filename == "" then [] else LaterPairs(" " + FilenameParam(f.filename), {NameParam(f.name)})
  {
    hide Pieces, Trim, KeyValue, TrimQuotes, RawPairs, Unquoted;
    if f.filename == "" {
      var a, quoted := NameParam(f.name), "\"" + f.name + "\"";
      NamePair(f.name);
      KeyUnquoted("name");
      PiecesOf(a, ';', "");
      assert ParamText(f) == a + "" == a && [a] + [] == [a];
      ConsPairs(a, [], {}, "name", quoted);
      NoPairs({} + {a});
      assert [("name", f.name)] + [] == [("name", f.name)];
    } else {
      var x := " " + FilenameParam(f.filename);
      assert ParamText(f) == NameParam(f.name) + [';'] + x;
      NameThen(f.name, x);
    }
  }

  lemma KeyUnquoted(key: string)
    requires key != "" && key[0] != '"'
    ensures TrimQuotes(key) == key
  {
  }

  lemma NoPairs(seen: set<string>)
    ensures Unquoted(RawPairs([], seen)) == []
  {
  }

  lemma KeyFirst(t: string, key: string, v: string)
    requires t == key + ['='] + v && key != "" && IsTrimmed(key) && '=' !in key
    ensures KeyValue(t).Some? && KeyValue(t).value.0 == key
  {
    hide Pieces, Trim;
    PiecesOf(key, '=', v);
    TrimOfTrimmed(key);
    assert NonEmpty(key) + Pieces(v, '=') != [];
  }

  /** A file name parameter that goes on with `u` to the end of the line, its closing quote included if it is there. */
  function OpenParam(u: string): string { " filename=\"" + u }

  lemma OpenPlace(u: string, i: nat)
    requires i == Find(OpenParam(u), [';'])
    ensures 11 <= i <= |u| + 11 && (';' !in u ==> i == |u| + 11)
  {
    var x := OpenParam(u);
    var a := " filename=\"";
    assert x == a + u && |a| == 11;
    if i < |x| {
      OccurrenceByte(x, [';'], i, 0);
    }
  }

  lemma OpenHead(x: string, rest: string, i: nat, r: nat)
    requires x == " filename" + ['='] + rest && 10 < r <= i <= |x|
    ensures var t := x[..i][1..r]; t == "filename" + ['='] + t[9..]
  {
    var head, t := " filename=", x[..i][1..r];
    forall k | 0 <= k < 9 ensures t[k] == "filename="[k] {
      assert t[k] == x[k + 1] == head[k + 1];
    }
    assert t[..9] == "filename=";
  }

  /** Its first piece has the key `filename`, and what comes later is shorter than `u`. */
  lemma OpenPiece(u: string, i: nat)
    requires i == Find(OpenParam(u), [';'])
    ensures var x := OpenParam(u);
            && 11 <= i <= |x| && (i < |x| ==> |x| - i - 1 < |u|)
            && Trim(x[..i]) != "" && Trim(x[..i])[0] == 'f'
            && KeyValue(Trim(x[..i])).Some? && KeyValue(Trim(x[..i])).value.0 == "filename"
  {
    hide Pieces, Trim, KeyValue, Find;
    var x := OpenParam(u);
    OpenPlace(u, i);
    assert x == " filename" + ['='] + ("\"" + u);
    var s := x[..i];
    var r := LastSolid(s, 10);
    assert AllBlank(s[..1]);
    TrimIs(s, 1, r);
    OpenHead(x, "\"" + u, i, r);
    KeyFirst(s[1..r], "filename", s[1..r][9..]);
  }

  /** The pairs of the file name parameter, whatever it holds. */
  lemma OpenFirst(u: string, seen: set<string>)
    requires forall kv :: kv in seen ==> kv != "" && kv[0] == 'n'
    ensures var ps := LaterPairs(OpenParam(u), seen);
            && ps != [] && ps[0].0 == "filename"
            && (forall p :: p in ps[1..] ==> |p.1| < |u|)
            && (forall p :: p in ps ==> ';' !in p.1 && '=' !in p.1)
  {
    hide Pieces, Trim, KeyValue, TrimQuotes, RawPairs, Unquoted, Find, OpenParam;
    var x := OpenParam(u);
    NoReserved(x, |x|, seen);
    var i := PiecesUnfold(x, ';');
    OpenPiece(u, i);
    var a := Trim(x[..i]);
    var kv := KeyValue(a).value;
    KeyUnquoted("filename");
    if i < |x| {
      ConsPairs(a, Pieces(x[i + 1..], ';'), seen, kv.0, kv.1);
      NoReserved(x[i + 1..], |u| - 1, seen + {a});
    } else {
      assert [a] + [] == [a] && x[..i] == x;
      ConsPairs(a, [], seen, kv.0, kv.1);
      NoPairs(seen + {a});
    }
  }

  /** The pairs of a file name in quotes. */
  lemma FilenameFirst(n: string, seen: set<string>)
    requires forall kv :: kv in seen ==> kv != "" && kv[0] == 'n'
    ensures var ps := LaterPairs(" " + FilenameParam(n), seen);
            && ps != [] && ps[0].0 == "filename"
            && (forall p :: p in ps[1..] ==> |p.1| <= |n|)
            && (forall p :: p in ps ==> ';' !in p.1 && '=' !in p.1)
            && (';' !in n && '=' !in n ==> ps == [("filename", n)])
  {
    hide Pieces, Trim, KeyValue, TrimQuotes, RawPairs, Unquoted, Find;
    var u := n + "\"";
    assert " " + FilenameParam(n) == OpenParam(u);
    OpenFirst(u, seen);
    if ';' !in n && '=' !in n {
      SoleFilename(n, seen);
    }
  }

  lemma SoleFilename(n: string, seen: set<string>)
    requires ';' !in n && '=' !in n && forall kv :: kv in seen ==> kv != "" && kv[0] == 'n'
    ensures LaterPairs(" " + FilenameParam(n), seen) == [("filename", n)]
  {
    hide Pieces, Trim, KeyValue, TrimQuotes, RawPairs, Unquoted;
    var x, a := " " + FilenameParam(n), FilenameParam(n);
    assert a == "filename" + "=" + ("\"" + n + "\"");
    PiecesOf(x, ';', "");
    assert AllBlank(x[..1]) && AllBlank(x[|x|..]) && x[1..|x|] == a;
    TrimIs(x, 1, |x|);
    QuotedPair("filename", n);
    KeyUnquoted("filename");
    assert [a] + [] == [a];
    ConsPairs(a, [], seen, "filename", "\"" + n + "\"");
    NoPairs(seen + {a});
  }

  lemma OneLineJoin(a: string, b: string)
    ensures IsOneLine(a + b) <==> IsOneLine(a) && IsOneLine(b)
  {
  }

  lemma OneLineParams(f: File)
    ensures IsOneLine(ParamText(f)) <==> IsOneLine(f.name) && IsOneLine(f.filename)
  {
    OneLineJoin("name=\"", f.name);
    OneLineJoin("name=\"" + f.name, "\"");
    OneLineJoin("filename=\"", f.filename);
    OneLineJoin("filename=\"" + f.filename, "\"");
    OneLineJoin("; ", FilenameParam(f.filename));
    OneLineJoin(NameParam(f.name), "; " + FilenameParam(f.filename));
    assert NameParam(f.name) + "" == NameParam(f.name);
  }

  /** A later `filename*` can only give a shorter name. */
  lemma ExtendedShorter(params: Params, n: string)
    requires |params| >= 2 && params[0].0 == "name" && params[1].0 == "filename"
    requires forall p :: p in params[2..] ==> |p.1| <= |n|
    ensures match Lookup(params, "filename*")
            case None => true
            case Some(v) => MatchExtended(v).Some? ==> Query.DecodeUrl(MatchExtended(v).value, false) != n
  {
    hide Query.DecodeUrl;
    assert params[1..][1..] == params[2..];
    assert Lookup(params, "filename*") == Lookup(params[2..], "filename*");
    LookupIn(params[2..], "filename*");
    match Lookup(params, "filename*")
    case None =>
    case Some(v) =>
      if MatchExtended(v).Some? {
        Query.DecodeShortens(MatchExtended(v).value, false);
      }
  }

  lemma NameValue(params: Params)
    requires forall p :: p in params ==> ';' !in p.1 && '=' !in p.1
    ensures var n := Lookup(params, "name"); n.Some? ==> ';' !in n.value && '=' !in n.value
  {
    LookupIn(params, "name");
  }

  /** The header parser reads back a name and a file name exactly when they hold no `;`, no `=` and no line break. */
  lemma DispositionExactly(f: File)
    ensures ReadLine(NO_FILE, Disposition(f)) == LineResult(f.(contentType := ""), true)
      <==> NameOk(f.name) && NameOk(f.filename)
  {
    hide StartsWithIgnoreCase, MatchDisposition, Disposition, ParamText, Lookup, MatchExtended, Query.DecodeUrl;
    var t := ParamText(f);
    DispositionMatches(f);
    OneLineParams(f);
    if IsOneLine(t) {
      NoReserved(t, |t|, {});
      var params := DispositionParams(t);
      assert params == Unquoted(RawPairs(Pieces(t, ';'), {}));
      NameValue(params);
      if ';' !in f.name && '=' !in f.name {
        NameFirst(f);
        if f.filename != "" {
          FilenamePairs(f, params);
        } else {
          assert params == [("name", f.name)];
          OnlyName(f.name);
        }
      }
    }
  }

  lemma OnlyName(n: string)
    ensures var params := [("name", n)];
            Lookup(params, "name") == Some(n) && Lookup(params, "filename").None? && Lookup(params, "filename*").None?
  {
  }

  lemma FilenamePairs(f: File, params: Params)
    requires f.filename != ""
    requires params == [("name", f.name)] + LaterPairs(" " + FilenameParam(f.filename), {NameParam(f.name)})
    ensures Lookup(params, "name") == Some(f.name) && Lookup(params, "filename").Some?
    ensures ';' !in Lookup(params, "filename").value && '=' !in Lookup(params, "filename").value
    ensures match Lookup(params, "filename*")
            case None => true
            case Some(v) => MatchExtended(v).Some? ==> Query.DecodeUrl(MatchExtended(v).value, false) != f.filename
    ensures NameOk(f.filename) ==> Lookup(params, "filename*").None? && Lookup(params, "filename").value == f.filename
  {
    hide LaterPairs, MatchExtended, Query.DecodeUrl;
    var ps := LaterPairs(" " + FilenameParam(f.filename), {NameParam(f.name)});
    FilenameFirst(f.filename, {NameParam(f.name)});
    assert params[1..] == ps && params[2..] == ps[1..];
    ExtendedShorter(params, f.filename);
    assert Lookup(params, "filename") == Lookup(ps, "filename") == Some(ps[0].1);
    assert ps[0] in ps;
    assert Lookup(params, "filename*") == Lookup(ps, "filename*") == Lookup(ps[1..], "filename*");
  }

  // ----- Whole bodies -----

  /** An item the parser can read back. */
  predicate ItemOk(c: Config, item: Part) {
    && NameOk(item.file.name) && NameOk(item.file.filename)
    && IsTrimmed(item.file.contentType) && Find(item.file.contentType, CRLF) == |item.file.contentType|
    && |Disposition(item.file)| < HEADER_MAX && |TypeLine(item.file)| < HEADER_MAX
    && Find(item.content, c.CrlfDashBoundary()) == |item.content|
  }

  /** What follows the first delimiter line of a serialized form. */
  function Rest(items: seq<Part>, boundary: string): string
    requires items != []
  {
    HeaderBlock(items[0].file) + items[0].content + (CRLF + DASH + boundary) +
    if |items| == 1 then DASH + CRLF else CRLF + Rest(items[1..], boundary)
  }

  lemma Regroup(d: string, h: string, body: string, after: string)
    ensures ((d + CRLF + h) + body + CRLF) + (d + after) == (d + CRLF) + (h + body + (CRLF + d) + after)
  {
    var x := h + body;
    assert (d + CRLF + h) + body == d + CRLF + x;
    assert CRLF + (d + after) == (CRLF + d) + after;
  }

  lemma {:induction false} SerializeRest(items: seq<Part>, boundary: string)
    requires items != []
    ensures Serialize(items, boundary) + Finish(boundary) == (DASH + boundary + CRLF) + Rest(items, boundary)
    decreases |items|, 1
  {
    hide HeaderBlock, Serialize, Rest;
    var d, h, body := DASH + boundary, HeaderBlock(items[0].file), items[0].content;
    var after := if |items| == 1 then DASH + CRLF else CRLF + Rest(items[1..], boundary);
    SerializeTail(items, boundary);
    SerializeUnfold(items, boundary);
    RestUnfold(items, boundary);
    Regroup(d, h, body, after);
    assert CRLF + d == CRLF + DASH + boundary;
  }

  lemma SerializeUnfold(items: seq<Part>, boundary: string)
    requires items != []
    ensures Serialize(items, boundary) + Finish(boundary)
         == ((DASH + boundary + CRLF + HeaderBlock(items[0].file)) + items[0].content + CRLF)
            + (Serialize(items[1..], boundary) + Finish(boundary))
  {
    hide HeaderBlock, Finish;
    Assoc(Item(items[0], boundary), Serialize(items[1..], boundary), Finish(boundary));
  }

  lemma {:induction false} SerializeTail(items: seq<Part>, boundary: string)
    requires items != []
    ensures Serialize(items[1..], boundary) + Finish(boundary) ==
      (DASH + boundary) + if |items| == 1 then DASH + CRLF else CRLF + Rest(items[1..], boundary)
    decreases |items|, 0
  {
    if |items| > 1 {
      hide Serialize, Finish, Rest;
      SerializeRest(items[1..], boundary);
    }
  }

  /** The callbacks take every header of a form with `n` items. */
  ghost predicate AcceptsHeaders(c: Config, n: nat) { forall ps :: |ps| <= n ==> c.onHeader(ps) }

  lemma DispositionHasNoReturn(f: File)
    requires NameOk(f.name) && NameOk(f.filename)
    ensures '\r' !in Disposition(f)
  {
  }

  lemma TypeLineRead(f: File, t: string)
    requires IsTrimmed(t) && t != ""
    ensures ReadLine(f, "Content-Type: " + t) == LineResult(f.(contentType := t), true)
  {
    var line := "Content-Type: " + t;
    assert line == "Content-Type:" + (" " + t);
    StartsJoin("Content-Type:", CONTENT_TYPE, " " + t);
    TrimIs(" " + t, 1, |t| + 1);
  }

  lemma TypeLineFirst(t: string, rest: string)
    requires Find(t, CRLF) == |t|
    ensures Find("Content-Type: " + t + CRLF + rest, CRLF) == |t| + 14
  {
    var a := "Content-Type: ";
    if Find(a + t, CRLF) < |a + t| {
      var k := Find(a + t, CRLF);
      OccurrenceByte(a + t, CRLF, k, 0);
      OccursInSuffix(a, t, CRLF, k - 14);
    }
    FirstAfter(a + t, CRLF, rest);
  }

  /** One complete header line comes off the front. */
  lemma LineOff(c: Config, p: Parser, line: string, rest: string, g: File)
    requires p.Valid() && p.phase == Headers && p.buf == line + CRLF + rest
    requires 0 < |line| < HEADER_MAX && Find(p.buf, CRLF) == |line| && ReadLine(p.file, line) == LineResult(g, true)
    ensures FreeRun(c, p) == FreeRun(c, With(p.(file := g), rest))
    ensures Robust(c, p) == Robust(c, With(p.(file := g), rest)) && BadBlock(p.file, p.buf) == BadBlock(g, rest)
  {
    hide ReadLine, Find;
    assert p.buf[..|line|] == line && p.buf[|line| + 2..] == rest;
  }

  lemma BlankOff(c: Config, p: Parser, rest: string)
    requires p.Valid() && p.phase == Headers && p.buf == CRLF + rest && c.onHeader(p.out + [Part(p.file, "")])
    ensures var q := p.(phase := Content, out := p.out + [Part(p.file, "")], buf := rest);
            FreeRun(c, p) == FreeRun(c, q) && Robust(c, p) == Robust(c, q) && !BadBlock(p.file, p.buf)
  {
    assert OccursAt(p.buf, CRLF, 0);
    FindAt(p.buf, CRLF, 0);
    assert p.buf[2..] == rest;
  }

  lemma ContentOff(c: Config, p: Parser, content: string, rest: string)
    requires p.Valid() && p.phase == Content && p.buf == content + c.CrlfDashBoundary() + rest && c.AcceptsContent()
    requires Find(p.buf, c.CrlfDashBoundary()) == |content|
    ensures var q := p.Emit(content).(phase := Boundary, buf := rest);
            FreeRun(c, p) == FreeRun(c, q) && Robust(c, p) == Robust(c, q)
  {
    hide Find;
    assert p.buf[..|content|] == content && p.buf[|content| + |c.CrlfDashBoundary()|..] == rest;
  }

  /** One item comes off the front of a form, whatever follows it. */
  lemma ItemOff(c: Config, p: Parser, item: Part, rest: string)
    requires p.Valid() && p.phase == NewEntry && c.AcceptsContent() && '\r' !in c.boundary && ItemOk(c, item)
    requires p.buf == HeaderBlock(item.file) + item.content + c.CrlfDashBoundary() + rest
    requires c.onHeader(p.out + [Part(item.file, "")])
    ensures var q := p.(file := item.file, phase := Boundary, buf := rest, out := p.out + [item]);
            FreeRun(c, p) == FreeRun(c, q) && Robust(c, p) == Robust(c, q)
  {
    hide Robust, FreeRun, HeaderBlock, ItemOk, BadBlock, Find;
    var h := p.(file := NO_FILE, phase := Headers);
    var body := item.content + c.CrlfDashBoundary() + rest;
    assert p.buf == HeaderBlock(item.file) + body;
    HeadersOff(c, h, item, body);
    EntryStep(c, p);
    var q := p.(file := item.file, phase := Content, out := p.out + [Part(item.file, "")], buf := body);
    BodyFound(c, item, rest);
    ContentOff(c, q, item.content, rest);
    assert "" + item.content == item.content;
    assert q.Emit(item.content).out == p.out + [item];
  }

  lemma EntryStep(c: Config, p: Parser)
    requires p.Valid() && p.phase == NewEntry && p.buf != ""
    requires Find(p.buf, CRLF) <= HEADER_MAX && !BadBlock(NO_FILE, p.buf)
    ensures var h := p.(file := NO_FILE, phase := Headers); FreeRun(c, p) == FreeRun(c, h) && Robust(c, p) == Robust(c, h)
  {
    hide Find, BadBlock, LineTurn;
  }

  lemma BodyFound(c: Config, item: Part, rest: string)
    requires '\r' !in c.boundary && ItemOk(c, item)
    ensures Find(item.content + c.CrlfDashBoundary() + rest, c.CrlfDashBoundary()) == |item.content|
  {
    FirstAfter(item.content, c.CrlfDashBoundary(), rest);
  }

  lemma HeadersOff(c: Config, p: Parser, item: Part, rest: string)
    requires p.Valid() && p.phase == Headers && p.file == NO_FILE && p.buf == HeaderBlock(item.file) + rest
    requires ItemOk(c, item) && c.onHeader(p.out + [Part(item.file, "")])
    ensures var q := p.(file := item.file, phase := Content, out := p.out + [Part(item.file, "")], buf := rest);
            FreeRun(c, p) == FreeRun(c, q) && Robust(c, p) == Robust(c, q)
    ensures !BadBlock(NO_FILE, p.buf) && Find(p.buf, CRLF) <= HEADER_MAX
  {
    hide Robust, FreeRun, Disposition, TypeLine, ReadLine, BadBlock;
    var f := item.file;
    var g := f.(contentType := "");
    var line := Disposition(f);
    var types := if f.contentType == "" then "" else TypeLine(f) + CRLF;
    var after := types + CRLF + rest;
    assert p.buf == line + CRLF + after;
    DispositionExactly(f);
    DispositionHasNoReturn(f);
    NoReturn(line);
    FirstAfter(line, CRLF, after);
    DispositionNonEmpty(f);
    LineOff(c, p, line, after, g);
    var q := With(p.(file := g), after);
    if f.contentType != "" {
      TypeOff(c, q, f, CRLF + rest);
      BlankOff(c, With(q.(file := f), CRLF + rest), rest);
    } else {
      assert after == CRLF + rest;
      BlankOff(c, q, rest);
    }
  }

  lemma DispositionNonEmpty(f: File)
    ensures Disposition(f) != ""
  {
  }

  lemma TypeOff(c: Config, p: Parser, f: File, rest: string)
    requires p.Valid() && p.phase == Headers && p.file == f.(contentType := "") && f.contentType != ""
    requires p.buf == TypeLine(f) + CRLF + rest
    requires IsTrimmed(f.contentType) && Find(f.contentType, CRLF) == |f.contentType| && |TypeLine(f)| < HEADER_MAX
    ensures FreeRun(c, p) == FreeRun(c, With(p.(file := f), rest))
    ensures Robust(c, p) == Robust(c, With(p.(file := f), rest)) && BadBlock(p.file, p.buf) == BadBlock(f, rest)
  {
    hide Robust, FreeRun, ReadLine, Find, BadBlock;
    TypeLineRead(p.file, f.contentType);
    TypeLineFirst(f.contentType, rest);
    LineOff(c, p, TypeLine(f), rest, f);
  }

  lemma BoundaryOff(c: Config, p: Parser, rest: string)
    requires p.Valid() && p.phase == Boundary && p.buf == CRLF + rest
    ensures var q := p.(phase := NewEntry, buf := rest);
            FreeRun(c, p) == FreeRun(c, q) && Robust(c, p) == Robust(c, q)
  {
    assert p.buf[2..] == rest;
    assert CRLF[0] != DASH[0];
  }

  lemma CloseOff(c: Config, p: Parser)
    requires p.Valid() && p.phase == Boundary && p.buf == DASH + CRLF
    ensures Robust(c, p) && FreeRun(c, p) == Result(p.(buf := "", valid := true), true)
  {
    CloseThere(c, With(p, ""), p.buf);
    assert p.buf[2..] == CRLF;
    assert QuietTail(CRLF) by {
      forall k | 0 <= k <= 2 ensures QuietFrom(CRLF[k..]) {
        assert CRLF[2..] == "";
      }
    }
  }

  lemma RestUnfold(items: seq<Part>, boundary: string)
    requires items != []
    ensures Rest(items, boundary) == HeaderBlock(items[0].file) + items[0].content + (CRLF + DASH + boundary)
                                   + if |items| == 1 then DASH + CRLF else CRLF + Rest(items[1..], boundary)
  {
    hide HeaderBlock;
  }

  /** The parser after the first item of a form. */
  function AfterItem(p: Parser, item: Part, rest: string): Parser {
    p.(file := item.file, phase := Boundary, buf := rest, out := p.out + [item])
  }

  lemma FormItem(c: Config, p: Parser, items: seq<Part>, tail: string)
    requires p.Valid() && p.phase == NewEntry && c.AcceptsContent() && '\r' !in c.boundary && items != []
    requires ItemOk(c, items[0]) && AcceptsHeaders(c, |p.out| + |items|) && p.buf == Rest(items, c.boundary)
    requires tail == if |items| == 1 then DASH + CRLF else CRLF + Rest(items[1..], c.boundary)
    ensures var q := AfterItem(p, items[0], tail);
            FreeRun(c, p) == FreeRun(c, q) && Robust(c, p) == Robust(c, q)
  {
    hide Robust, FreeRun, HeaderBlock, ItemOk, Rest;
    RestUnfold(items, c.boundary);
    ItemOff(c, p, items[0], tail);
  }

  /** A serialized form is read back item by item, and is robust. */
  lemma {:induction false} FormOff(c: Config, p: Parser, items: seq<Part>)
    requires p.Valid() && p.phase == NewEntry && !p.valid && c.AcceptsContent() && '\r' !in c.boundary && items != []
    requires forall item :: item in items ==> ItemOk(c, item)
    requires AcceptsHeaders(c, |p.out| + |items|) && p.buf == Rest(items, c.boundary)
    ensures Robust(c, p) && See(FreeRun(c, p)) == View(true, true, p.out + items)
    decreases |items|
  {
    hide Robust, FreeRun, HeaderBlock, ItemOk, Rest, AcceptsHeaders;
    var tail := if |items| == 1 then DASH + CRLF else CRLF + Rest(items[1..], c.boundary);
    FormItem(c, p, items, tail);
    var q := AfterItem(p, items[0], tail);
    if |items| == 1 {
      CloseOff(c, q);
      assert items == [items[0]];
    } else {
      BoundaryOff(c, q, Rest(items[1..], c.boundary));
      FormOff(c, q.(phase := NewEntry, buf := Rest(items[1..], c.boundary)), items[1..]);
      Assoc(p.out, [items[0]], items[1..]);
      assert [items[0]] + items[1..] == items;
    }
  }

  /**
   * A serialized form, cut anywhere but inside its first delimiter line, gives back exactly its items in order
   * and ends valid.
   */
  lemma RoundTrip(c: Config, items: seq<Part>, pieces: seq<string>)
    requires items != [] && '\r' !in c.boundary && (forall item :: item in items ==> ItemOk(c, item))
    requires c.AcceptsContent() && AcceptsHeaders(c, |items|)
    requires Concat(pieces) == Serialize(items, c.boundary) + Finish(c.boundary)
    requires Whole(c.DashBoundaryCrlf(), pieces)
    ensures See(Feed(c, START, pieces)) == View(true, true, items)
  {
    hide Robust, FreeRun, ItemOk, Rest, Serialize, Finish, Run, Feed;
    var s, d := Concat(pieces), c.DashBoundaryCrlf();
    var rest := Rest(items, c.boundary);
    SerializeRest(items, c.boundary);
    assert s == d + rest;
    DelimiterFirst(d, rest);
    FormOff(c, With(AFTER, rest), items);
    CutIndependence(c, pieces);
    ParsePreamble(c, s);
    assert "" + rest == rest && [] + items == items;
    RunIs(c, With(AFTER, rest));
  }

  lemma DelimiterFirst(d: string, rest: string)
    requires d != ""
    ensures Find(d + rest, d) == 0 && (d + rest)[0 + |d|..] == rest
  {
    assert OccursAt(d + rest, d, 0);
  }
}

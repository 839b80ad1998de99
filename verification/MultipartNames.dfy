/** What header lines say: the name and the file name a disposition gives, for any parameters in any order. */
module MultipartNames {
  import opened Bytes
  import opened Text
  import opened MultipartSpec
  import Query

  // ----- How a line is written -----

  /** A parameter, with its value in quotes or without. */
  datatype Param = Param(key: string, value: string, quoted: bool)

  function Written(p: Param): string { p.key + "=" + if p.quoted then "\"" + p.value + "\"" else p.value }

  function Listed(ps: seq<Param>): string {
    if ps == [] then "" else Written(ps[0]) + if |ps| == 1 then "" else "; " + Listed(ps[1..])
  }

  /** Separators and line breaks are in neither part, and a value that needs quotes has them. */
  predicate ParamOk(p: Param) {
    && p.key != "" && !(p.key[0] == ' ' || 9 <= p.key[0] as int <= 13) && !IsBlank(p.key[|p.key| - 1]) && p.key[0] != '"'
    && ';' !in p.key && '=' !in p.key && IsOneLine(p.key)
    && ';' !in p.value && '=' !in p.value && IsOneLine(p.value)
    && (!p.quoted ==> IsTrimmed(p.value) && (p.value != "" ==> p.value[0] != '"'))
  }

  /** The value of the first parameter of that name. */
  function First(ps: seq<Param>, key: string): Option<string> {
    if ps == [] then None else if ps[0].key == key then Some(ps[0].value) else First(ps[1..], key)
  }

  /** A form-data disposition with the parameters `ps`. */
  predicate Disposes(line: string, ps: seq<Param>, a: string, s: string, b: string, t: string) {
    && line == a + (s + (b + (t + Listed(ps))))
    && CaseOf(a, "content-disposition:") && Spaces(s) && CaseOf(b, "form-data;") && Spaces(t)
    && ps != [] && forall i :: 0 <= i < |ps| ==> ParamOk(ps[i])
  }

  /** The mark in front of a percent-encoded file name, and something behind it. */
  predicate Marked(x: string) { |x| > 7 && CaseOf(x[..7], "utf-8''") }

  /** The file name the parameters give to a file named `had`: a `filename*` overrides a `filename`. */
  predicate GivesName(ps: seq<Param>, had: string, v: string) {
    match First(ps, "filename*")
    case Some(x) => Marked(x) && Query.Renders(v, x[7..], false)
    case None =>
      match First(ps, "filename")
      case Some(f) => v == f
      case None => v == had
  }

  /** The line names a part `n` and its file `v`. */
  ghost predicate Names(line: string, had: string, n: string, v: string) {
    exists ps, a, s, b, t :: Disposes(line, ps, a, s, b, t) && First(ps, "name") == Some(n) && GivesName(ps, had, v)
  }

  /** A disposition without a name, or with a `filename*` that is not marked. */
  ghost predicate Unacceptable(line: string) {
    exists ps, a, s, b, t ::
      && Disposes(line, ps, a, s, b, t)
      && (First(ps, "name").None? || (First(ps, "filename*").Some? && !Marked(First(ps, "filename*").value)))
  }

  /** The line is of neither of the two kinds. */
  predicate Unknown(line: string) { !Begins(line, "content-type:") && !Begins(line, "content-disposition:") }

  /** A content type with blanks around it. */
  predicate Types(line: string, a: string, l: string, v: string, r: string) {
    line == a + (l + v + r) && CaseOf(a, "content-type:") && AllBlank(l) && AllBlank(r) && IsTrimmed(v)
  }

  // ----- The parameters are read as they are written -----

  lemma PairOf(p: Param)
    requires ParamOk(p)
    ensures KeyValue(Written(p)) == Some((p.key, if p.quoted then "\"" + p.value + "\"" else p.value))
    ensures TrimQuotes(p.key) == p.key && TrimQuotes(if p.quoted then "\"" + p.value + "\"" else p.value) == p.value
    ensures ';' !in Written(p) && Written(p) != "" && IsTrimmed(Written(p)) && Written(p)[0] == p.key[0]
  {
    hide Pieces, Trim;
    var v := if p.quoted then "\"" + p.value + "\"" else p.value;
    PiecesOf(p.key, '=', v);
    PiecesOf(v, '=', "");
    TrimOfTrimmed(p.key);
    TrimOfTrimmed(v);
    assert p.quoted ==> v[1..|v| - 1] == p.value;
    assert NonEmpty(p.key) + NonEmpty(v) == if v == "" then [p.key] else [p.key, v];
  }

  function Texts(ps: seq<Param>): seq<string> { if ps == [] then [] else [Written(ps[0])] + Texts(ps[1..]) }

  lemma PaddedPiece(lead: string, x: string)
    requires AllBlank(lead) && x != "" && IsTrimmed(x)
    ensures Trim(lead + x) == x
  {
    var s := lead + x;
    assert s[..|lead|] == lead && s[|lead|..] == x && s[|s|..] == "";
    TrimIs(s, |lead|, |s|);
  }

  lemma {:induction false} ListedPieces(lead: string, ps: seq<Param>)
    requires AllBlank(lead) && ps != [] && forall i :: 0 <= i < |ps| ==> ParamOk(ps[i])
    ensures Pieces(lead + Listed(ps), ';') == Texts(ps)
    decreases |ps|
  {
    hide Pieces, Trim, ParamOk, Written;
    var x := Written(ps[0]);
    PairOf(ps[0]);
    PaddedPiece(lead, x);
    if |ps| == 1 {
      PiecesOf(lead + x, ';', "");
      assert Listed(ps) == x && Texts(ps) == [x] + [] == [x];
    } else {
      ListedPieces(" ", ps[1..]);
      PiecesOf(lead + x, ';', " " + Listed(ps[1..]));
      assert lead + Listed(ps) == (lead + x) + [';'] + (" " + Listed(ps[1..]));
    }
  }

  /** Looking a name up finds the first parameter of that name; a text seen before has another name. */
  lemma {:induction false} LookupFirst(ps: seq<Param>, seen: set<string>, key: string)
    requires forall i :: 0 <= i < |ps| ==> ParamOk(ps[i])
    requires forall i :: 0 <= i < |ps| && Written(ps[i]) in seen ==> ps[i].key != key
    ensures Lookup(Unquoted(RawPairs(Texts(ps), seen)), key) == First(ps, key)
    decreases |ps|
  {
    hide KeyValue, TrimQuotes, ParamOk, Written;
    if ps != [] {
      var x, rest := Written(ps[0]), ps[1..];
      PairOf(ps[0]);
      if x in seen {
        LookupFirst(rest, seen, key);
      } else {
        var v := if ps[0].quoted then "\"" + ps[0].value + "\"" else ps[0].value;
        var more := RawPairs(Texts(rest), seen + {x});
        assert RawPairs(Texts(ps), seen) == [(ps[0].key, v)] + more;
        assert ([(ps[0].key, v)] + more)[1..] == more;
        var found := [(ps[0].key, ps[0].value)] + Unquoted(more);
        assert found[1..] == Unquoted(more);
        assert Unquoted(RawPairs(Texts(ps), seen)) == found;
        if ps[0].key != key {
          forall i | 0 <= i < |rest| && Written(rest[i]) in seen + {x} ensures rest[i].key != key {
            PairOf(ps[i + 1]);
          }
          LookupFirst(rest, seen + {x}, key);
        }
      }
    }
  }

  lemma ListedParams(ps: seq<Param>, key: string)
    requires ps != [] && forall i :: 0 <= i < |ps| ==> ParamOk(ps[i])
    ensures Lookup(DispositionParams(Listed(ps)), key) == First(ps, key)
  {
    hide Pieces, ParamOk;
    ListedPieces("", ps);
    assert "" + Listed(ps) == Listed(ps);
    LookupFirst(ps, {}, key);
  }

  lemma {:induction false} ListedOneLine(ps: seq<Param>)
    requires ps != [] && forall i :: 0 <= i < |ps| ==> ParamOk(ps[i])
    ensures IsOneLine(Listed(ps)) && Listed(ps) != "" && ps[0].key != "" && Listed(ps)[0] == ps[0].key[0]
    decreases |ps|
  {
    PairOf(ps[0]);
    assert IsOneLine(Written(ps[0]));
    if |ps| > 1 {
      ListedOneLine(ps[1..]);
    }
  }

  // ----- What a line says -----

  /** What follows the name `a` of a disposition line and the spaces `s`. */
  lemma AfterName(line: string, a: string, s: string, y: string)
    requires line == a + (s + y) && CaseOf(a, "content-disposition:") && Spaces(s) && y != "" && !IsSpace(y[0])
    ensures !StartsWithIgnoreCase(line, CONTENT_TYPE) && StartsWithIgnoreCase(line, CONTENT_DISPOSITION)
    ensures SkipSpaces(line[|CONTENT_DISPOSITION|..]) == y
  {
    hide StartsWithIgnoreCase, SkipSpaces, IsSpace;
    StartsIs(line, "content-disposition:", CONTENT_DISPOSITION);
    StartsIs(line, "content-type:", CONTENT_TYPE);
    assert line[..20] == a && line[20..] == s + y;
    assert a[8] == line[..13][8];
    SkipsSpaces(s, y);
  }

  lemma AfterForm(y: string, b: string, t: string, x: string)
    requires y == b + (t + x) && CaseOf(b, "form-data;") && Spaces(t) && x != "" && !IsSpace(x[0])
    ensures StartsWithIgnoreCase(y, FORM_DATA) && SkipSpaces(y[|FORM_DATA|..]) == x && y != "" && !IsSpace(y[0])
  {
    hide StartsWithIgnoreCase, SkipSpaces;
    StartsIs(y, "form-data;", FORM_DATA);
    assert y[..10] == b && y[10..] == t + x && y[0] == b[0];
    SkipsSpaces(t, x);
  }

  lemma DisposesMatches(line: string, ps: seq<Param>, a: string, s: string, b: string, t: string)
    requires Disposes(line, ps, a, s, b, t)
    ensures !StartsWithIgnoreCase(line, CONTENT_TYPE) && MatchDisposition(line) == Some(Listed(ps))
  {
    hide Listed, StartsWithIgnoreCase, SkipSpaces, IsSpace, CaseOf, Spaces, ParamOk;
    var x := Listed(ps);
    ListedOneLine(ps);
    NoSpace(ps[0]);
    AfterForm(b + (t + x), b, t, x);
    AfterName(line, a, s, b + (t + x));
  }

  lemma NoSpace(p: Param)
    requires ParamOk(p)
    ensures p.key != "" && !IsSpace(p.key[0])
  {
  }

  lemma MarkedMatches(x: string)
    requires IsOneLine(x)
    ensures MatchExtended(x) == if Marked(x) then Some(x[7..]) else None
  {
    hide StartsWithIgnoreCase;
    StartsIs(x, "utf-8''", UTF8_MARK);
    if |x| > 7 {
      assert IsOneLine(x[7..]);
    }
  }

  lemma {:induction false} FirstOneLine(ps: seq<Param>, key: string)
    requires forall i :: 0 <= i < |ps| ==> ParamOk(ps[i])
    ensures First(ps, key).Some? ==> IsOneLine(First(ps, key).value)
    decreases |ps|
  {
    if ps != [] {
      FirstOneLine(ps[1..], key);
    }
  }

  /** The part's name and its file's name are what the line says. */
  lemma NamesRead(f: File, line: string, n: string, v: string)
    requires Names(line, f.filename, n, v)
    ensures ReadLine(f, line) == LineResult(f.(name := n, filename := v), true)
  {
    hide Listed, StartsWithIgnoreCase, MatchDisposition, DispositionParams, MatchExtended, Query.DecodeUrl, Query.Renders, ParamOk, First;
    var ps, a, s, b, t :| Disposes(line, ps, a, s, b, t) && First(ps, "name") == Some(n) && GivesName(ps, f.filename, v);
    DisposesMatches(line, ps, a, s, b, t);
    ListedParams(ps, "name");
    ListedParams(ps, "filename");
    ListedParams(ps, "filename*");
    FirstOneLine(ps, "filename*");
    if First(ps, "filename*").Some? {
      var x := First(ps, "filename*").value;
      MarkedMatches(x);
      Query.RenderedDecodes(v, x[7..], false);
    }
  }

  lemma UnacceptableRead(f: File, line: string)
    requires Unacceptable(line)
    ensures !ReadLine(f, line).ok
  {
    hide Listed, StartsWithIgnoreCase, MatchDisposition, DispositionParams, MatchExtended, Query.DecodeUrl, ParamOk, First;
    var ps, a, s, b, t :|
      && Disposes(line, ps, a, s, b, t)
      && (First(ps, "name").None? || (First(ps, "filename*").Some? && !Marked(First(ps, "filename*").value)));
    DisposesMatches(line, ps, a, s, b, t);
    ListedParams(ps, "name");
    ListedParams(ps, "filename*");
    FirstOneLine(ps, "filename*");
    if First(ps, "filename*").Some? {
      MarkedMatches(First(ps, "filename*").value);
    }
  }

  lemma UnknownRead(f: File, line: string)
    requires Unknown(line)
    ensures ReadLine(f, line) == LineResult(f, false)
  {
    hide StartsWithIgnoreCase;
    StartsIs(line, "content-disposition:", CONTENT_DISPOSITION);
    StartsIs(line, "content-type:", CONTENT_TYPE);
  }

  lemma TypeRead(f: File, line: string, a: string, l: string, v: string, r: string)
    requires Types(line, a, l, v, r)
    ensures ReadLine(f, line) == LineResult(f.(contentType := v), true)
  {
    hide StartsWithIgnoreCase, Trim;
    StartsIs(line, "content-type:", CONTENT_TYPE);
    var u := l + v + r;
    assert line[..13] == a && line[13..] == u;
    if v == "" {
      assert AllBlank(u);
      TrimBlank(u);
    } else {
      assert u[..|l|] == l && u[|l| + |v|..] == r && u[|l|..|l| + |v|] == v;
      TrimIs(u, |l|, |l| + |v|);
    }
  }

  // ----- A line with an encoded name -----

  lemma OneMore(p: Param, ps: seq<Param>)
    ensures Listed([p]) == Written(p) && (ps != [] ==> Listed([p] + ps) == Written(p) + "; " + Listed(ps))
    ensures forall key :: First([p] + ps, key) == if p.key == key then Some(p.value) else First(ps, key)
  {
    assert ([p] + ps)[1..] == ps;
  }

  const HEAD := "Content-Disposition: form-data; "

  lemma HeadParts()
    ensures HEAD == "Content-Disposition:" + (" " + ("form-data;" + " "))
    ensures CaseOf("Content-Disposition:", "content-disposition:") && CaseOf("form-data;", "form-data;") && Spaces(" ")
  {
  }

  lemma Regroup(a: string, s: string, b: string, t: string, x: string)
    ensures (a + (s + (b + t))) + x == a + (s + (b + (t + x)))
  {
  }

  lemma Disposed(ps: seq<Param>)
    requires ps != [] && forall i :: 0 <= i < |ps| ==> ParamOk(ps[i])
    ensures Disposes(HEAD + Listed(ps), ps, "Content-Disposition:", " ", "form-data;", " ")
  {
    hide Listed, ParamOk, CaseOf, Spaces, HEAD;
    HeadParts();
    Regroup("Content-Disposition:", " ", "form-data;", " ", Listed(ps));
  }

  lemma EncodedValue(e: string)
    requires e != "" && forall i :: 0 <= i < |e| ==> Query.CodeLetter(e[i])
    ensures ParamOk(Param("filename*", "UTF-8''" + e, false)) && Marked("UTF-8''" + e) && ("UTF-8''" + e)[7..] == e
  {
    hide Query.CodeLetter;
    var x := "UTF-8''" + e;
    assert x[..7] == "UTF-8''";
    forall i | 0 <= i < |x| ensures x[i] !in ";=\r\n" && !IsBlank(x[i]) {
      if i >= 7 {
        CodeLetterSafe(e[i - 7]);
      }
    }
  }

  lemma CodeLetterSafe(c: char)
    requires Query.CodeLetter(c)
    ensures c !in ";=\r\n" && !IsBlank(c)
  {
  }

  /** The parameter lists of a line with a name, and perhaps a plain file name, before a `filename*`. */
  function NameParams(n: string, plain: Option<string>, x: string): seq<Param> {
    [Param("name", n, true)] + (if plain.Some? then [Param("filename", plain.value, true)] else []) + [Param("filename*", x, false)]
  }

  lemma NameParamsRead(n: string, plain: Option<string>, x: string)
    ensures var ps := NameParams(n, plain, x);
            First(ps, "name") == Some(n) && First(ps, "filename*") == Some(x)
    ensures Listed(NameParams(n, plain, x))
         == "name=\"" + n + "\"" + (if plain.Some? then "; filename=\"" + plain.value + "\"" else "") + ("; filename*=" + x)
  {
    hide First, Listed;
    var p, ext := Param("name", n, true), Param("filename*", x, false);
    OneMore(ext, []);
    assert [ext] + [] == [ext];
    WrittenTexts(n, x);
    if plain.Some? {
      var mid := Param("filename", plain.value, true);
      WrittenTexts(plain.value, x);
      OneMore(mid, [ext]);
      OneMore(p, [mid] + [ext]);
      assert NameParams(n, plain, x) == [p] + ([mid] + [ext]);
      Five(Written(p), "; ", Written(mid), Written(ext));
    } else {
      OneMore(p, [ext]);
      assert NameParams(n, plain, x) == [p] + [ext];
      assert Written(p) + "" == Written(p);
      Assoc(Written(p), "; ", Written(ext));
    }
  }

  lemma WrittenTexts(v: string, x: string)
    ensures Written(Param("name", v, true)) == "name=\"" + v + "\"" && Written(Param("filename*", x, false)) == "filename*=" + x
    ensures "; " + Written(Param("filename", v, true)) == "; filename=\"" + v + "\""
    ensures "; " + Written(Param("filename*", x, false)) == "; filename*=" + x
  {
    assert "; " + "filename=\"" == "; filename=\"" && "; " + "filename*=" == "; filename*=";
    assert "filename" + "=" + ("\"" + v + "\"") == "filename=\"" + v + "\"";
    assert "; " + ("filename=\"" + v + "\"") == ("; " + "filename=\"") + v + "\"";
    assert "name" + "=" + ("\"" + v + "\"") == "name=\"" + v + "\"";
    assert "; " + ("filename*=" + x) == ("; " + "filename*=") + x;
  }

  lemma Five(a: string, s: string, b: string, c: string)
    ensures a + s + (b + s + c) == a + (s + b) + (s + c)
  {
  }

  /**
   * The file name of a line with the percent-encoded bytes `v`: whatever they are, they are read back, and they override a
   * plain file name.
   */
  lemma ExtendedName(f: File, n: string, plain: Option<string>, v: string)
    requires v != "" && Query.IsByteString(v) && ';' !in n && '=' !in n && IsOneLine(n)
    requires plain.Some? ==> ';' !in plain.value && '=' !in plain.value && IsOneLine(plain.value)
    ensures var line := "Content-Disposition: form-data; "
                        + ("name=\"" + n + "\"" + (if plain.Some? then "; filename=\"" + plain.value + "\"" else "")
                           + ("; filename*=" + ("UTF-8''" + Query.EncodeParam(v))));
            ReadLine(f, line) == LineResult(f.(name := n, filename := v), true)
  {
    hide ReadLine, Query.Renders, Query.EncodeParam, Listed, First, Disposes, ParamOk, Marked, NameParams;
    var e := Query.EncodeParam(v);
    var x := "UTF-8''" + e;
    Query.EncodedRenders(v, false);
    EncodedValue(e);
    var ps := NameParams(n, plain, x);
    NameParamsRead(n, plain, x);
    NameParamsOk(n, plain, x);
    Disposed(ps);
    NamesRead(f, HEAD + Listed(ps), n, v);
  }

  lemma NameParamsOk(n: string, plain: Option<string>, x: string)
    requires ';' !in n && '=' !in n && IsOneLine(n) && ParamOk(Param("filename*", x, false))
    requires plain.Some? ==> ';' !in plain.value && '=' !in plain.value && IsOneLine(plain.value)
    ensures var ps := NameParams(n, plain, x); ps != [] && forall i :: 0 <= i < |ps| ==> ParamOk(ps[i])
  {
    assert ParamOk(Param("name", n, true));
    assert plain.Some? ==> ParamOk(Param("filename", plain.value, true));
  }
}

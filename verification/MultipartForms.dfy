/** Which forms survive the round trip under every cut: exactly those whose items the parser can read back. */
module MultipartForms {
  import opened Bytes
  import opened Text
  import opened MultipartSpec
  import opened MultipartCuts
  import opened MultipartRoundTrip
  import opened MultipartContents
  import Query

  // ----- What the header parser can produce -----

  /** A content type the parser can give. */
  predicate TypeOk(t: string) { IsTrimmed(t) && Find(t, CRLF) == |t| }

  /** A file name that is plain, or shorter than `n`. */
  predicate Small(f: File, n: nat) { NameOk(f.filename) || |f.filename| < n }

  lemma UnquotedKeeps(pairs: seq<(string, string)>, c: char)
    requires forall p :: p in pairs ==> c !in p.1
    ensures forall p :: p in Unquoted(pairs) ==> c !in p.1
  {
  }

  lemma ParamsKeep(s: string, c: char)
    requires c == ';' || c !in s
    ensures forall p :: p in DispositionParams(s) ==> c !in p.1
  {
    hide Pieces, RawPairs, Unquoted;
    PiecesKeep(s, ';', c);
    PiecesNonEmpty(s, ';');
    PairValues(Pieces(s, ';'), {}, c, |s|);
    UnquotedKeeps(RawPairs(Pieces(s, ';'), {}), c);
  }

  /** The values of a line's parameters are plain and no longer than the line. */
  lemma ParamsPlain(s: string)
    requires IsOneLine(s)
    ensures forall p :: p in DispositionParams(s) ==> NameOk(p.1) && |p.1| <= |s|
  {
    hide Pieces, RawPairs, Unquoted;
    ParamsKeep(s, '\r');
    ParamsKeep(s, '\n');
    NoReserved(s, |s|, {});
    assert DispositionParams(s) == Unquoted(RawPairs(Pieces(s, ';'), {}));
  }

  lemma {:induction false} TrimLeftPart(s: string) returns (l: nat)
    ensures l <= |s| && TrimLeft(s) == s[l..] && (l < |s| ==> !IsBlank(s[l]))
  {
    if s != "" && IsBlank(s[0]) {
      l := TrimLeftPart(s[1..]);
      l := l + 1;
    } else {
      l := 0;
    }
  }

  lemma {:induction false} TrimRightPart(s: string) returns (r: nat)
    ensures r <= |s| && TrimRight(s) == s[..r] && (r > 0 ==> !IsBlank(s[r - 1]))
  {
    if s != "" && IsBlank(s[|s| - 1]) {
      r := TrimRightPart(s[..|s| - 1]);
    } else {
      r := |s|;
    }
  }

  lemma PartFree(s: string, l: nat, r: nat)
    requires l <= r <= |s| && Find(s, CRLF) == |s|
    ensures Find(s[l..r], CRLF) == r - l
  {
    var k := Find(s[l..r], CRLF);
    if k < r - l {
      OccurrenceFits(s[l..r], CRLF, k);
      Slices(s, l, r, k, k + 2);
      assert OccursAt(s, CRLF, l + k);
    }
  }

  /** A content type is trimmed and one line. */
  lemma TypePlain(s: string)
    requires Find(s, CRLF) == |s|
    ensures TypeOk(Trim(s))
  {
    hide Find;
    var l := TrimLeftPart(s);
    var r := TrimRightPart(s[l..]);
    assert s[l..][..r] == s[l..l + r];
    PartFree(s, l, l + r);
    if r > 0 {
      assert Trim(s)[0] == s[l] && Trim(s)[r - 1] == s[l..][r - 1];
    }
  }

  lemma MatchShort(line: string)
    ensures MatchDisposition(line).Some? ==> IsOneLine(MatchDisposition(line).value) && |MatchDisposition(line).value| <= |line|
  {
    if StartsWithIgnoreCase(line, CONTENT_DISPOSITION) {
      var t := line[|CONTENT_DISPOSITION|..];
      SkipShort(t);
      if StartsWithIgnoreCase(SkipSpaces(t), FORM_DATA) {
        SkipShort(SkipSpaces(t)[|FORM_DATA|..]);
      }
    }
  }

  lemma {:induction false} SkipShort(s: string)
    ensures |SkipSpaces(s)| <= |s|
  {
    if s != "" && IsSpace(s[0]) {
      SkipShort(s[1..]);
    }
  }

  /** The file name that parameters give: plain, or decoded from a value that starts with the mark of the encoding. */
  lemma ParamsSmall(f: File, params: Params, n: nat)
    requires Small(f, n) && forall p :: p in params ==> NameOk(p.1)
    requires forall p :: p in params && p.0 == "filename*" ==> |p.1| < n + 7
    ensures var g := ReadParams(f, params).file; Small(g, n) && (NameOk(f.name) ==> NameOk(g.name)) && g.contentType == f.contentType
  {
    hide NameOk, Query.DecodeUrl;
    LookupIn(params, "name");
    LookupIn(params, "filename");
    LookupIn(params, "filename*");
    var v := Lookup(params, "filename*");
    if v.Some? && MatchExtended(v.value).Some? {
      Query.DecodeShortens(MatchExtended(v.value).value, false);
    }
  }

  /** What a header line can make of a file. */
  lemma LineKeeps(f: File, line: string, n: nat)
    requires Find(line, CRLF) == |line| && Small(f, n) && |line| < n + 7
    ensures var g := ReadLine(f, line).file;
            Small(g, n) && (NameOk(f.name) ==> NameOk(g.name)) && (TypeOk(f.contentType) ==> TypeOk(g.contentType))
  {
    hide NameOk, TypeOk, Find, Trim, DispositionParams, MatchDisposition, ReadParams;
    if StartsWithIgnoreCase(line, CONTENT_TYPE) {
      PartFree(line, |CONTENT_TYPE|, |line|);
      assert line[|CONTENT_TYPE|..|line|] == line[|CONTENT_TYPE|..];
      TypePlain(line[|CONTENT_TYPE|..]);
    } else {
      MatchShort(line);
      var m := MatchDisposition(line);
      if m.Some? {
        ParamsPlain(m.value);
        ParamsSmall(f, DispositionParams(m.value), n);
      }
    }
  }

  // ----- The file of the next part -----

  /** The files of the parts reported so far. */
  function Files(out: seq<Part>): (r: seq<File>)
    ensures |r| == |out| && forall i :: 0 <= i < |out| ==> r[i] == out[i].file
  {
    seq(|out|, i requires 0 <= i < |out| => out[i].file)
  }

  lemma TurnKeepsFiles(c: Config, p: Parser)
    requires p.Valid()
    ensures Files(p.out) <= Files(FreeTurn(c, p).p.out)
  {
    hide Find, ReadLine;
  }

  /** What a run has reported keeps its file. */
  lemma {:induction false} RunKeepsFiles(c: Config, p: Parser)
    requires p.Valid()
    ensures Files(p.out) <= Files(FreeRun(c, p).p.out)
    decreases |p.buf|, Rank(p)
  {
    hide FreeTurn, Files;
    if p.buf != "" {
      TurnKeepsFiles(c, p);
      if FreeTurn(c, p).Go? {
        RunKeepsFiles(c, FreeTurn(c, p).p);
      }
    }
  }

  /** If the run reports one more part, `f` is its file. */
  predicate Reports(c: Config, p: Parser, f: File)
    requires p.Valid()
  {
    var out := FreeRun(c, p).p.out;
    |out| > |p.out| && out[|p.out|].file == f
  }

  lemma BlankReports(c: Config, p: Parser, f: File)
    requires p.Valid() && p.phase == Headers && CRLF <= p.buf
    ensures Reports(c, p, f) ==> p.file == f
  {
    hide Files;
    assert OccursAt(p.buf, CRLF, 0);
    FindAt(p.buf, CRLF, 0);
    var t := LineTurn(c, p);
    RunKeepsFiles(c, With(t.p, if t.Go? then t.p.buf else ""));
    FreeRunEmpty(c, With(t.p, ""));
    FilesAt(t.p.out, FreeRun(c, p).p.out, |p.out|);
  }

  lemma FilesAt(a: seq<Part>, b: seq<Part>, k: nat)
    requires Files(a) <= Files(b) && k < |a|
    ensures k < |b| && b[k].file == a[k].file
  {
    assert Files(a)[k] == Files(b)[k];
  }

  /** A line that is not empty: the part is reported after it, or not at all. */
  lemma LineReports(c: Config, p: Parser, f: File)
    requires p.Valid() && p.phase == Headers && 0 < Find(p.buf, CRLF) < |p.buf|
    ensures var pos := Find(p.buf, CRLF);
            var r := ReadLine(p.file, p.buf[..pos]);
            Reports(c, p, f) ==> r.ok && Reports(c, p.(file := r.file, buf := p.buf[pos + 2..]), f)
  {
    hide ReadLine;
  }

  /** Whatever the lines are, the next part's name is plain and its content type trimmed and one line. */
  lemma {:induction false} BlockPlain(c: Config, p: Parser, f: File)
    requires p.Valid() && p.phase == Headers && NameOk(p.file.name) && TypeOk(p.file.contentType) && Reports(c, p, f)
    ensures NameOk(f.name) && TypeOk(f.contentType)
    decreases |p.buf|
  {
    hide NameOk, TypeOk, ReadLine, Reports, Find, Small, FreeRun;
    var pos := Find(p.buf, CRLF);
    LineThere(c, p, f);
    if pos == 0 {
      BlankReports(c, p, f);
    } else {
      LineReports(c, p, f);
      var line := p.buf[..pos];
      var n := |line| + |p.file.filename| + 1;
      OneLineFree(p.buf);
      SmallEnough(p.file, n);
      LineKeeps(p.file, line, n);
      BlockPlain(c, p.(file := ReadLine(p.file, line).file, buf := p.buf[pos + 2..]), f);
    }
  }

  lemma SmallEnough(f: File, n: nat)
    ensures |f.filename| < n || NameOk(f.filename) <==> Small(f, n)
  {
  }

  /** A report needs a complete line. */
  lemma LineThere(c: Config, p: Parser, f: File)
    requires p.Valid() && p.phase == Headers && Reports(c, p, f)
    ensures var pos := Find(p.buf, CRLF); pos + 2 <= |p.buf| && (pos == 0 ==> CRLF <= p.buf)
  {
    hide ReadLine;
    var pos := Find(p.buf, CRLF);
    if pos < |p.buf| {
      OccurrenceFits(p.buf, CRLF, pos);
    }
  }

  lemma OneLineFree(s: string)
    ensures var pos := Find(s, CRLF); Find(s[..pos], CRLF) == pos
  {
    var pos := Find(s, CRLF);
    assert s == s[..pos] + s[pos..];
    FindExtends(s[..pos], s[pos..], CRLF);
  }

  /** The line of the content type and the empty one. */
  function TypeLines(f: File): string { if f.contentType == "" then "" else TypeLine(f) + CRLF }

  /** What comes after the disposition line changes no file name. */
  lemma EndSmall(c: Config, p: Parser, g: File, rest: string, n: nat, f: File)
    requires p.Valid() && p.phase == Headers && Find(g.contentType, CRLF) == |g.contentType|
    requires p.buf == TypeLines(g) + CRLF + rest && Small(p.file, n) && Reports(c, p, f)
    ensures Small(f, n)
  {
    hide ReadLine, Reports, Find, Small, FreeRun;
    if g.contentType == "" {
      assert p.buf == CRLF + rest;
      BlankReports(c, p, f);
    } else {
      var line := TypeLine(g);
      assert p.buf == "Content-Type: " + g.contentType + CRLF + (CRLF + rest);
      TypeLineFirst(g.contentType, CRLF + rest);
      LineReports(c, p, f);
      assert p.buf[..|line|] == line && p.buf[|line| + 2..] == CRLF + rest;
      var q := p.(file := ReadLine(p.file, line).file, buf := CRLF + rest);
      TypeKeepsName(p.file, g.contentType);
      BlankReports(c, q, f);
      SameSmall(p.file, f, n);
    }
  }

  lemma TypeKeepsName(f: File, t: string)
    ensures ReadLine(f, "Content-Type: " + t).file.filename == f.filename
  {
    hide StartsWithIgnoreCase, Trim;
    assert "Content-Type: " + t == "Content-Type:" + (" " + t);
    StartsJoin("Content-Type:", CONTENT_TYPE, " " + t);
  }

  lemma SameSmall(f: File, g: File, n: nat)
    requires f.filename == g.filename
    ensures Small(f, n) <==> Small(g, n)
  {
  }

  lemma QuoteEnds(t: string, rest: string)
    requires Find(t, CRLF) == |t|
    ensures Find(t + "\"" + CRLF + rest, CRLF) == |t| + 1
  {
    var u := t + "\"";
    if Find(u, CRLF) < |u| {
      var k := Find(u, CRLF);
      OccurrenceFits(u, CRLF, k);
      OccurrenceByte(u, CRLF, k, 1);
      OccursInPrefix(t, "\"", CRLF, k);
    }
    FirstAfter(u, CRLF, rest);
  }

  /** The rest of a file name with line breaks in it, as header lines. */
  lemma {:induction false} TailSmall(c: Config, p: Parser, t: string, g: File, rest: string, n: nat, f: File)
    requires p.Valid() && p.phase == Headers && Find(g.contentType, CRLF) == |g.contentType| && |t| <= n
    requires p.buf == t + "\"" + CRLF + (TypeLines(g) + CRLF + rest) && Small(p.file, n) && Reports(c, p, f)
    ensures Small(f, n)
    decreases |t|
  {
    hide ReadLine, Reports, Find, Small, TypeLines, FreeRun;
    var after := TypeLines(g) + CRLF + rest;
    var pos := Find(t, CRLF);
    LineThere(c, p, f);
    if pos < |t| {
      OccurrenceFits(t, CRLF, pos);
      var tail := "\"" + CRLF + after;
      assert p.buf == t + tail;
      FindExtends(t, tail, CRLF);
      if pos == 0 {
        BlankReports(c, p, f);
      } else {
        LineReports(c, p, f);
        OneLineFree(t);
        LineKeeps(p.file, t[..pos], n);
        assert p.buf[..pos] == t[..pos] && p.buf[pos + 2..] == t[pos + 2..] + "\"" + CRLF + after;
        TailSmall(c, p.(file := ReadLine(p.file, t[..pos]).file, buf := p.buf[pos + 2..]), t[pos + 2..], g, rest, n, f);
      }
    } else {
      QuoteEnds(t, after);
      LineReports(c, p, f);
      var line := t + "\"";
      OneLineFree(p.buf);
      assert p.buf[..|t| + 1] == line && p.buf[|t| + 3..] == after;
      LineKeeps(p.file, line, n);
      EndSmall(c, p.(file := ReadLine(p.file, line).file, buf := after), g, rest, n, f);
    }
  }

  /** The disposition line up to the file name. */
  function Lead(n: string): string {
    CONTENT_DISPOSITION + " " + (FORM_DATA + " " + (NameParam(n) + "; filename=\""))
  }

  lemma Joins(a: string, b: string, c: string, u: string)
    ensures a + " " + (b + " " + c) + u == a + " " + (b + " " + (c + u))
  {
  }

  lemma LeadIs(n: string, u: string)
    ensures Lead(n) + u == CONTENT_DISPOSITION + " " + (FORM_DATA + " " + (NameParam(n) + [';'] + OpenParam(u)))
  {
    hide NameParam;
    var x := NameParam(n);
    Joins(CONTENT_DISPOSITION, FORM_DATA, x + "; filename=\"", u);
    assert "; filename=\"" == [';'] + " filename=\"";
    assert x + "; filename=\"" + u == x + [';'] + OpenParam(u);
  }

  /** A disposition line that ends in or after the file name: what it makes of the file name is plain or short. */
  lemma OpenSmall(name: string, u: string, n: nat)
    requires NameOk(name) && |u| <= n + 1
    ensures Small(ReadLine(NO_FILE, Lead(name) + u).file, n)
  {
    hide Lead, StartsWithIgnoreCase, MatchDisposition, LaterPairs, ReadParams, DispositionParams, OpenParam;
    var t := NameParam(name) + [';'] + OpenParam(u);
    LeadIs(name, u);
    assert t[0] == 'n';
    DispositionText(t);
    if IsOneLine(t) {
      ParamsPlain(t);
      NameThen(name, OpenParam(u));
      OpenFirst(u, {NameParam(name)});
      var ps := LaterPairs(OpenParam(u), {NameParam(name)});
      assert ps == [ps[0]] + ps[1..];
      ParamsSmall(NO_FILE, DispositionParams(t), n);
    }
  }

  lemma ShiftFind(a: string, s: string)
    requires '\r' !in a
    ensures Find(a + s, CRLF) == |a| + Find(s, CRLF)
  {
    forall k: nat | k < |a| ensures !OccursAt(a + s, CRLF, k) {
      if OccursAt(a + s, CRLF, k) {
        OccurrenceStarts(a + s, CRLF, k);
      }
    }
    FindDrops(a, s, CRLF);
  }

  /** A file name with a line break in it. */
  lemma BrokenName(c: Config, p: Parser, g: File, rest: string, f: File)
    requires p.Valid() && p.phase == Headers && p.file == NO_FILE
    requires p.buf == Lead(g.name) + (g.filename + ("\"" + CRLF + (TypeLines(g) + CRLF + rest)))
    requires NameOk(g.name) && TypeOk(g.contentType) && Find(g.filename, CRLF) < |g.filename| && Reports(c, p, f)
    ensures Small(f, |g.filename|)
  {
    hide ReadLine, Reports, Find, Small, TypeLines, FreeRun, Lead, NameOk;
    var a, t, tail := Lead(g.name), g.filename, "\"" + CRLF + (TypeLines(g) + CRLF + rest);
    var pos := Find(t, CRLF);
    LeadFree(g.name);
    ShiftFind(a, t + tail);
    FindExtends(t, tail, CRLF);
    OccurrenceFits(t, CRLF, pos);
    LineReports(c, p, f);
    LineOfJoin(a, t, tail, pos);
    OpenSmall(g.name, t[..pos], |t|);
    TailSmall(c, p.(file := ReadLine(NO_FILE, a + t[..pos]).file, buf := t[pos + 2..] + tail), t[pos + 2..], g, rest, |t|, f);
  }

  lemma LineOfJoin(a: string, t: string, tail: string, pos: nat)
    requires pos + 2 <= |t|
    ensures var s := a + (t + tail);
            |a| + pos + 2 <= |s| && s[..|a| + pos] == a + t[..pos] && s[|a| + pos + 2..] == t[pos + 2..] + tail
    ensures forall x, y :: tail == "\"" + x + y ==> t[pos + 2..] + tail == t[pos + 2..] + "\"" + x + y
  {
    forall x, y | tail == "\"" + x + y ensures t[pos + 2..] + tail == t[pos + 2..] + "\"" + x + y {
      assert t[pos + 2..] + ("\"" + x + y) == t[pos + 2..] + "\"" + x + y;
    }
  }

  /** A file name on one line. */
  lemma WholeName(c: Config, p: Parser, g: File, rest: string, f: File)
    requires p.Valid() && p.phase == Headers && p.file == NO_FILE
    requires p.buf == Lead(g.name) + (g.filename + ("\"" + CRLF + (TypeLines(g) + CRLF + rest)))
    requires NameOk(g.name) && TypeOk(g.contentType) && Find(g.filename, CRLF) == |g.filename| && Reports(c, p, f)
    ensures Small(f, |g.filename|)
  {
    hide ReadLine, Reports, Find, Small, TypeLines, FreeRun, Lead, NameOk;
    var a, t, after := Lead(g.name), g.filename, TypeLines(g) + CRLF + rest;
    var tail := t + "\"" + CRLF + after;
    assert t + ("\"" + CRLF + after) == tail;
    LeadFree(g.name);
    ShiftFind(a, tail);
    QuoteEnds(t, after);
    LineReports(c, p, f);
    var line := a + (t + "\"");
    assert p.buf[..|line|] == line && p.buf[|line| + 2..] == after;
    OpenSmall(g.name, t + "\"", |t|);
    EndSmall(c, p.(file := ReadLine(NO_FILE, line).file, buf := after), g, rest, |t|, f);
  }

  /** A printed header block whose name and content type are plain: the file name it gives is plain or shorter than it was. */
  lemma BlockSmall(c: Config, p: Parser, g: File, rest: string, f: File)
    requires p.Valid() && p.phase == Headers && p.file == NO_FILE && p.buf == HeaderBlock(g) + rest
    requires NameOk(g.name) && TypeOk(g.contentType) && g.filename != "" && Reports(c, p, f)
    ensures Small(f, |g.filename|)
  {
    hide Reports, Find, Small, TypeLines, FreeRun, Lead, HeaderBlock, NameOk;
    BlockIs(g, rest);
    if Find(g.filename, CRLF) < |g.filename| {
      BrokenName(c, p, g, rest, f);
    } else {
      WholeName(c, p, g, rest, f);
    }
  }

  lemma LeadFree(n: string)
    requires NameOk(n)
    ensures '\r' !in Lead(n) && Lead(n) != ""
  {
  }

  lemma BlockIs(g: File, rest: string)
    requires g.filename != ""
    ensures HeaderBlock(g) + rest == Lead(g.name) + (g.filename + ("\"" + CRLF + (TypeLines(g) + CRLF + rest)))
  {
    hide TypeLine, Disposition, NameParam;
    var u := g.filename + "\"";
    DispositionParts(g);
    Joins(CONTENT_DISPOSITION, FORM_DATA, NameParam(g.name) + "; filename=\"", u);
    assert ParamText(g) == NameParam(g.name) + "; filename=\"" + u;
    assert Disposition(g) == Lead(g.name) + u;
  }

  // ----- What a form that came back must have been -----

  /** A file that its header block gives back is plain. */
  lemma FilePlain(c: Config, p: Parser, f: File, rest: string)
    requires p.Valid() && p.phase == Headers && p.file == NO_FILE && p.buf == HeaderBlock(f) + rest && Reports(c, p, f)
    ensures NameOk(f.name) && NameOk(f.filename) && TypeOk(f.contentType)
  {
    hide HeaderBlock, Reports;
    assert TypeOk("") && NameOk("");
    BlockPlain(c, p, f);
    if f.filename != "" {
      BlockSmall(c, p, f, rest, f);
    }
  }

  /** The lines of a robust header block are short. */
  lemma LinesShort(c: Config, p: Parser, f: File, rest: string)
    requires p.Valid() && p.phase == Headers && p.file == NO_FILE && p.buf == HeaderBlock(f) + rest && Robust(c, p)
    requires NameOk(f.name) && NameOk(f.filename) && TypeOk(f.contentType)
    ensures |Disposition(f)| < HEADER_MAX && (f.contentType != "" ==> |TypeLine(f)| < HEADER_MAX)
  {
    hide Disposition, TypeLine, ReadLine, Find, NameOk, Robust, FreeRun, BadBlock, TypeLines;
    var line, after := Disposition(f), TypeLines(f) + CRLF + rest;
    BlockLines(f, rest);
    DispositionHasNoReturn(f);
    NoReturn(line);
    FirstAfter(line, CRLF, after);
    ShortLine(c, p, |line|);
    DispositionExactly(f);
    DispositionNonEmpty(f);
    LineOff(c, p, line, after, f.(contentType := ""));
    if f.contentType != "" {
      ShortType(c, With(p.(file := f.(contentType := "")), after), f, rest);
    }
  }

  lemma ShortType(c: Config, p: Parser, f: File, rest: string)
    requires p.Valid() && p.phase == Headers && p.buf == TypeLines(f) + CRLF + rest && Robust(c, p)
    requires f.contentType != "" && TypeOk(f.contentType)
    ensures |TypeLine(f)| < HEADER_MAX
  {
    hide Find, Robust;
    TypeLineFirst(f.contentType, CRLF + rest);
    assert p.buf == "Content-Type: " + f.contentType + CRLF + (CRLF + rest);
    ShortLine(c, p, |TypeLine(f)|);
  }

  lemma BlockLines(f: File, rest: string)
    ensures HeaderBlock(f) + rest == Disposition(f) + CRLF + (TypeLines(f) + CRLF + rest)
  {
    hide Disposition, TypeLine;
  }

  lemma ShortLine(c: Config, p: Parser, n: nat)
    requires p.Valid() && p.phase == Headers && Robust(c, p) && n == Find(p.buf, CRLF) < |p.buf|
    ensures n < HEADER_MAX
  {
  }

  /** A robust and accepted block of header lines is robust from its first line on. */
  lemma EntryRobust(c: Config, p: Parser)
    requires p.Valid() && p.phase == NewEntry && !p.valid && p.buf != "" && Robust(c, p) && FreeRun(c, p).ok
    ensures var h := p.(file := NO_FILE, phase := Headers); Robust(c, h) && FreeRun(c, h) == FreeRun(c, p)
  {
    hide BadBlock, Find, LineTurn;
    var h := p.(file := NO_FILE, phase := Headers);
    if BadBlock(NO_FILE, p.buf) {
      BadRun(c, h);
    }
  }

  /** An item that came back from a robust body is one the parser can read back. */
  lemma ItemForced(c: Config, p: Parser, item: Part, rest: string)
    requires p.Valid() && p.phase == NewEntry && !p.valid && c.AcceptsContent() && c.onHeader(p.out + [Part(item.file, "")])
    requires p.buf == HeaderBlock(item.file) + item.content + c.CrlfDashBoundary() + rest
    requires Robust(c, p) && FreeRun(c, p).ok && p.out + [item] <= FreeRun(c, p).p.out
    ensures ItemOk(c, item)
  {
    hide HeaderBlock, Robust, FreeRun, Disposition, TypeLine, NameOk, Find, Clean;
    var f, body := item.file, item.content + c.CrlfDashBoundary() + rest;
    assert p.buf == HeaderBlock(f) + body;
    BlockNonEmpty(f);
    EntryRobust(c, p);
    var h := p.(file := NO_FILE, phase := Headers);
    assert FreeRun(c, p).p.out[|p.out|] == (p.out + [item])[|p.out|] == item;
    FilePlain(c, h, f, body);
    LinesShort(c, h, f, body);
    TypeLineLength(f);
    HeaderIsOk(c, f);
    if !Clean(c, item) {
      ItemCutShort(c, p, item, rest);
    }
    OkWhenClean(c, item);
  }

  lemma BlockNonEmpty(f: File)
    ensures HeaderBlock(f) != ""
  {
  }

  lemma TypeLineLength(f: File)
    ensures f.contentType == "" ==> |TypeLine(f)| < HEADER_MAX
  {
  }

  lemma HeaderIsOk(c: Config, f: File)
    requires NameOk(f.name) && NameOk(f.filename) && TypeOk(f.contentType)
    requires |Disposition(f)| < HEADER_MAX && |TypeLine(f)| < HEADER_MAX
    ensures HeaderOk(c, f)
  {
    hide Disposition, TypeLine, NameOk;
    assert Find("", c.CrlfDashBoundary()) == 0;
  }

  lemma {:induction false} FormForced(c: Config, p: Parser, items: seq<Part>)
    requires p.Valid() && p.phase == NewEntry && !p.valid && c.AcceptsContent() && '\r' !in c.boundary && items != []
    requires AcceptsHeaders(c, |p.out| + |items|) && p.buf == Rest(items, c.boundary)
    requires Robust(c, p) && FreeRun(c, p).ok && FreeRun(c, p).p.out == p.out + items
    ensures forall item :: item in items ==> ItemOk(c, item)
    decreases |items|
  {
    hide Robust, FreeRun, ItemOk, HeaderBlock, Rest;
    RestUnfold(items, c.boundary);
    var item, tail := items[0], if |items| == 1 then DASH + CRLF else CRLF + Rest(items[1..], c.boundary);
    assert p.buf == HeaderBlock(item.file) + item.content + c.CrlfDashBoundary() + tail;
    Assoc(p.out, [item], items[1..]);
    assert [item] + items[1..] == items;
    ItemForced(c, p, item, tail);
    if |items| > 1 {
      FormItem(c, p, items, tail);
      var q := AfterItem(p, item, tail);
      BoundaryOff(c, q, Rest(items[1..], c.boundary));
      FormForced(c, q.(phase := NewEntry, buf := Rest(items[1..], c.boundary)), items[1..]);
    }
  }

  /**
   * The law of the form codec, for every list of items: a serialized form comes back whole, under every cut that keeps its
   * first delimiter line whole, if and only if the parser can read back each item.
   */
  lemma RoundTripExactly(c: Config, items: seq<Part>)
    requires items != [] && '\r' !in c.boundary && c.AcceptsContent() && AcceptsHeaders(c, |items|)
    ensures (forall item :: item in items ==> ItemOk(c, item)) <==>
      forall pieces :: Whole(c.DashBoundaryCrlf(), pieces)
                       && Concat(pieces) == Serialize(items, c.boundary) + Finish(c.boundary) ==>
        See(Feed(c, START, pieces)) == View(true, true, items)
  {
    hide Robust, FreeRun, ItemOk, Rest, Serialize, Finish, Run, Feed, Parse, Find, Whole, Concat, RobustBody;
    var d, s := c.DashBoundaryCrlf(), Serialize(items, c.boundary) + Finish(c.boundary);
    if forall item :: item in items ==> ItemOk(c, item) {
      forall pieces | Whole(d, pieces) && Concat(pieces) == s ensures See(Feed(c, START, pieces)) == View(true, true, items) {
        RoundTrip(c, items, pieces);
      }
    } else {
      var pieces := LosingCut(c, items);
    }
  }

  /** A cut under which a form with another item does not come back. */
  lemma LosingCut(c: Config, items: seq<Part>) returns (pieces: seq<string>)
    requires items != [] && '\r' !in c.boundary && c.AcceptsContent() && AcceptsHeaders(c, |items|)
    requires exists item :: item in items && !ItemOk(c, item)
    ensures Whole(c.DashBoundaryCrlf(), pieces) && Concat(pieces) == Serialize(items, c.boundary) + Finish(c.boundary)
    ensures See(Feed(c, START, pieces)) != View(true, true, items)
  {
    hide Robust, FreeRun, ItemOk, Rest, Serialize, Finish, Run, Feed, Parse, Find, Whole, Concat, RobustBody;
    var s, rest := Serialize(items, c.boundary) + Finish(c.boundary), Rest(items, c.boundary);
    pieces := [s];
    OnePiece(c, items);
    BodyAfter(c, items);
    RunIs(c, With(AFTER, rest));
    assert [] + items == items;
    if See(Parse(c, START, s)) == View(true, true, items) {
      if RobustBody(c, s) {
        FormForced(c, With(AFTER, rest), items);
        assert false;
      }
      pieces := BreakingBody(c, s);
    }
  }

  /** A single call is a cut too. */
  lemma OnePiece(c: Config, items: seq<Part>)
    requires items != []
    ensures var s := Serialize(items, c.boundary) + Finish(c.boundary);
            && Whole(c.DashBoundaryCrlf(), [s]) && Concat([s]) == s
            && See(Feed(c, START, [s])) == See(Parse(c, START, s))
  {
    hide Parse, Serialize, Finish, Find, Rest;
    var s, d := Serialize(items, c.boundary) + Finish(c.boundary), c.DashBoundaryCrlf();
    SerializeRest(items, c.boundary);
    DelimiterFirst(d, Rest(items, c.boundary));
    assert [s][1..] == [] && s + "" == s;
  }

  lemma BodyAfter(c: Config, items: seq<Part>)
    requires items != []
    ensures var s, rest := Serialize(items, c.boundary) + Finish(c.boundary), Rest(items, c.boundary);
            && Parse(c, START, s) == Run(c, With(AFTER, rest))
            && RobustBody(c, s) == Robust(c, With(AFTER, rest))
  {
    hide Parse, Serialize, Finish, Find, Rest, Robust, Run;
    var s, d, rest := Serialize(items, c.boundary) + Finish(c.boundary), c.DashBoundaryCrlf(), Rest(items, c.boundary);
    SerializeRest(items, c.boundary);
    DelimiterFirst(d, rest);
    ParsePreamble(c, s);
    ParseAfter(c, rest);
  }

  // ----- A body whose cuts matter -----

  /** An empty part and the closing delimiter of a form with boundary `b`, and an epilogue of one line. */
  const LOUD_START := DASH + "b" + CRLF + (CRLF + (CRLF + DASH + "b" + DASH))
  const LOUD_END := CRLF + ("x" + CRLF)

  /** The parser when the closing delimiter of that part has come. */
  const CLOSED := AFTER.(phase := Boundary, valid := true, out := [Part(NO_FILE, "")])

  lemma JoinFound(d: string, tail: string)
    requires d != ""
    ensures Find(d + tail, d) == 0
  {
    assert OccursAt(d + tail, d, 0);
    FindAt(d + tail, d, 0);
  }

  lemma UpToClose(c: Config, tail: string)
    requires c.AcceptsContent() && AcceptsHeaders(c, 1) && DASH <= tail
    ensures FreeRun(c, With(AFTER, CRLF + (c.CrlfDashBoundary() + tail))) == Result(CLOSED, true)
  {
    hide Find, FreeRun, Robust, BadBlock, Config.CrlfDashBoundary;
    var d := c.CrlfDashBoundary();
    var p := With(AFTER, CRLF + (d + tail));
    JoinFound(CRLF, d + tail);
    assert AFTER.out + [Part(NO_FILE, "")] == [Part(NO_FILE, "")];
    BlankOff(c, p.(phase := Headers), d + tail);
    EntryStep(c, p);
    EmptyPart(c, tail);
  }

  lemma EmptyPart(c: Config, tail: string)
    requires c.AcceptsContent() && DASH <= tail
    ensures FreeRun(c, Parser(Content, false, NO_FILE, c.CrlfDashBoundary() + tail, [Part(NO_FILE, "")])) == Result(CLOSED, true)
  {
    hide Find, FreeRun, Robust;
    var d := c.CrlfDashBoundary();
    var q := Parser(Content, false, NO_FILE, d + tail, [Part(NO_FILE, "")]);
    JoinFound(d, tail);
    assert "" + d + tail == d + tail;
    ContentOff(c, q, "", tail);
    EmitNothing(q);
    CloseThere(c, q.(phase := Boundary), tail);
  }

  lemma EpilogueRefused(c: Config)
    ensures !Run(c, With(CLOSED, LOUD_END)).ok
  {
    hide Robust, Find, Run, FreeRun, ReadLine;
    RunIs(c, With(CLOSED, LOUD_END));
    BoundaryOff(c, With(CLOSED, LOUD_END), "x" + CRLF);
    ShiftFind("x", CRLF);
    JoinFound(CRLF, "");
    assert CRLF + "" == CRLF;
    OneBadLine(c);
  }

  lemma OneBadLine(c: Config)
    requires Find("x" + CRLF, CRLF) == 1
    ensures !FreeRun(c, CLOSED.(phase := NewEntry, buf := "x" + CRLF)).ok
  {
    hide Find;
    var h := CLOSED.(phase := Headers, buf := "x" + CRLF);
    assert h.buf[..1] == "x";
    assert !ReadLine(NO_FILE, "x").ok;
    assert !LineTurn(c, h).Go?;
  }

  /** One call takes it; cut after the closing delimiter it is refused. */
  lemma LoudEpilogue(c: Config)
    requires c.boundary == "b" && c.AcceptsContent() && AcceptsHeaders(c, 1)
    ensures See(Parse(c, START, LOUD_START + LOUD_END)) == View(true, true, [Part(NO_FILE, "")])
    ensures Whole(c.DashBoundaryCrlf(), [LOUD_START, LOUD_END]) && Concat([LOUD_START, LOUD_END]) == LOUD_START + LOUD_END
    ensures !Feed(c, START, [LOUD_START, LOUD_END]).ok && !RobustBody(c, LOUD_START + LOUD_END)
  {
    hide Find, FreeRun, Robust, Run, RobustBody, Parse, Feed, Whole, Concat;
    var d, e := c.DashBoundaryCrlf(), c.CrlfDashBoundary();
    LoudCall(c, DASH);
    LoudCall(c, DASH + LOUD_END);
    assert LOUD_START + LOUD_END == d + (CRLF + (e + (DASH + LOUD_END)));
    JoinFound(d, CRLF + (e + DASH));
    TwoPieces(d, LOUD_START, LOUD_END);
    EpilogueRefused(c);
    ClosedCall(c);
    assert [LOUD_START, LOUD_END][1..] == [LOUD_END];
    FeedFirst(c, START, [LOUD_START, LOUD_END]);
    FeedFirst(c, CLOSED, [LOUD_END]);
    CutIndependenceExactly(c, LOUD_START + LOUD_END);
  }

  lemma TwoPieces(d: string, a: string, b: string)
    requires d != "" && Find(a, d) < |a|
    ensures Concat([a, b]) == a + b && Whole(d, [a, b])
  {
    hide Find;
    assert [a, b][1..] == [b] && [b][1..] == [];
    ConcatFirst([a, b]);
    ConcatFirst([b]);
    assert b + Concat([]) == b;
  }

  lemma LoudCall(c: Config, tail: string)
    requires c.AcceptsContent() && AcceptsHeaders(c, 1) && DASH <= tail
    ensures Parse(c, START, c.DashBoundaryCrlf() + (CRLF + (c.CrlfDashBoundary() + tail))) == Result(CLOSED, true)
  {
    hide Find, FreeRun, Robust, Run, Parse;
    var d, rest := c.DashBoundaryCrlf(), CRLF + (c.CrlfDashBoundary() + tail);
    DelimiterFirst(d, rest);
    ParsePreamble(c, d + rest);
    ParseAfter(c, rest);
    RunIs(c, With(AFTER, rest));
    UpToClose(c, tail);
  }

  lemma ClosedCall(c: Config)
    ensures Parse(c, CLOSED, LOUD_END) == Run(c, With(CLOSED, LOUD_END))
  {
    hide Run;
    assert "" + LOUD_END == LOUD_END;
  }
}

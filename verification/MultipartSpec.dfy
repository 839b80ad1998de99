/** What `MultipartFormDataParser` computes, as functions on its state. */
module MultipartSpec {
  import opened Bytes
  import opened Text
  import Query

  const HEADER_MAX := 8192

  datatype File = File(name: string, filename: string, contentType: string)
  const NO_FILE := File("", "", "")

  /** One header callback with the content callbacks that followed it, as the server's receivers store them. */
  datatype Part = Part(file: File, content: string)

  /** The boundary and the answers of the two callbacks, given everything received so far. */
  datatype Config = Config(boundary: string, onHeader: seq<Part> -> bool, onContent: seq<Part> -> bool)
  {
    function DashBoundaryCrlf(): string { DASH + boundary + CRLF }
    function CrlfDashBoundary(): string { CRLF + DASH + boundary }
    ghost predicate AcceptsContent() { forall ps :: onContent(ps) }
  }

  /** `state_`: 0 to 4. */
  datatype Phase = Preamble | NewEntry | Headers | Content | Boundary

  /** The parser's fields, the unread bytes of its buffer, and what its callbacks have received. */
  datatype Parser = Parser(phase: Phase, valid: bool, file: File, buf: string, out: seq<Part>)
  {
    predicate Valid() { phase == Content ==> out != [] }
    function Drop(n: nat): Parser
      requires n <= |buf|
    {
      this.(buf := buf[n..])
    }
    function Emit(d: string): Parser
    {
      if out == [] then this
      else this.(out := out[|out| - 1 := out[|out| - 1].(content := out[|out| - 1].content + d)])
    }
  }
  const START := Parser(Preamble, false, NO_FILE, "", [])

  datatype Turn = Go(p: Parser) | Stop(p: Parser, ok: bool)

  // ----- Header lines -----

  /** `.*` matches no line terminator. */
  predicate IsOneLine(s: string) { '\r' !in s && '\n' !in s }

  const CONTENT_TYPE := "content-type:"
  const CONTENT_DISPOSITION := "Content-Disposition:"
  const FORM_DATA := "form-data;"
  const UTF8_MARK := "UTF-8''"

  /** The capture of `^Content-Disposition:\s*form-data;\s*(.*)$`, ignoring case. */
  function MatchDisposition(line: string): Option<string>
  {
    if !StartsWithIgnoreCase(line, CONTENT_DISPOSITION) then None else
      var t := SkipSpaces(line[|CONTENT_DISPOSITION|..]);
      if !StartsWithIgnoreCase(t, FORM_DATA) then None else
        var rest := SkipSpaces(t[|FORM_DATA|..]);
        if IsOneLine(rest) then Some(rest) else None
  }

  /** The capture of `^UTF-8''(.+?)$`, ignoring case. */
  function MatchExtended(v: string): Option<string>
  {
    if StartsWithIgnoreCase(v, UTF8_MARK) && |v| > |UTF8_MARK| && IsOneLine(v[|UTF8_MARK|..])
    then Some(v[|UTF8_MARK|..]) else None
  }

  /** A multimap, as its pairs in the order they were put in. */
  type Params = seq<(string, string)>

  function Lookup(params: Params, key: string): Option<string>
  {
    if params == [] then None
    else if params[0].0 == key then Some(params[0].1)
    else Lookup(params[1..], key)
  }

  function Unquoted(pairs: seq<(string, string)>): Params
  {
    if pairs == [] then [] else [(TrimQuotes(pairs[0].0), TrimQuotes(pairs[0].1))] + Unquoted(pairs[1..])
  }

  function DispositionParams(s: string): Params { Unquoted(RawPairs(Pieces(s, ';'), {})) }

  /** The file information after a non-empty header line, and whether the line is acceptable. */
  datatype LineResult = LineResult(file: File, ok: bool)

  function ReadParams(f: File, params: Params): LineResult
  {
    match Lookup(params, "name")
    case None => LineResult(f, false)
    case Some(name) =>
      var plain := Lookup(params, "filename");
      var g := f.(name := name, filename := if plain.Some? then plain.value else f.filename);
      match Lookup(params, "filename*")
      case None => LineResult(g, true)
      case Some(v) =>
        match MatchExtended(v)
        case None => LineResult(g, false)
        case Some(e) => LineResult(g.(filename := Query.DecodeUrl(e, false)), true)
  }

  function ReadLine(f: File, line: string): LineResult
  {
    if StartsWithIgnoreCase(line, CONTENT_TYPE) then
      LineResult(f.(contentType := Trim(line[|CONTENT_TYPE|..])), true)
    else
      match MatchDisposition(line)
      case None => LineResult(f, false)
      case Some(rest) => ReadParams(f, DispositionParams(rest))
  }

  // ----- One turn of the parser's loop in each state -----

  function PreambleTurn(c: Config, p: Parser): Turn
  {
    var d := c.DashBoundaryCrlf();
    var q := p.Drop(Find(p.buf, d));
    if |d| > |q.buf| then Stop(q, true)
    else if !(d <= q.buf) then Stop(q, false)
    else Go(q.Drop(|d|).(phase := NewEntry))
  }

  /** One header line: `Go` leaves the parser in `Headers`, or in `Content` after the empty line. */
  function LineTurn(c: Config, p: Parser): Turn
  {
    var pos := Find(p.buf, CRLF);
    if pos >= |p.buf| then Stop(p, true)
    else if pos == 0 then
      var q := p.(out := p.out + [Part(p.file, "")]);
      if !c.onHeader(q.out) then Stop(q.(valid := false), false)
      else Go(q.Drop(2).(phase := Content))
    else
      var r := ReadLine(p.file, p.buf[..pos]);
      if r.ok then Go(p.(file := r.file).Drop(pos + 2)) else Stop(p.(file := r.file, valid := false), false)
  }

  /** The inner loop: lines until the empty one, an unfinished one or a bad one. */
  function Lines(c: Config, p: Parser): (t: Turn)
    requires p.phase == Headers
    ensures t.Go? ==> |t.p.buf| < |p.buf| && t.p.phase == Content && t.p.out != []
    ensures t.Stop? ==> t.p.phase == Headers
    decreases |p.buf|
  {
    match LineTurn(c, p)
    case Stop(q, ok) => Stop(q, ok)
    case Go(q) => if q.phase == Headers then Lines(c, q) else Go(q)
  }

  lemma UnfinishedLine(c: Config, p: Parser)
    requires p.phase == Headers && Find(p.buf, CRLF) == |p.buf|
    ensures Lines(c, p) == Stop(p, true)
  {
  }

  function HeadersTurn(c: Config, p: Parser): Turn
    requires p.phase == Headers
  {
    if Find(p.buf, CRLF) > HEADER_MAX then Stop(p, false) else Lines(c, p)
  }

  function ContentTurn(c: Config, p: Parser): Turn
  {
    var d := c.CrlfDashBoundary();
    if |d| > |p.buf| then Stop(p, true) else
      var pos := Find(p.buf, d);
      if pos < |p.buf| then
        var q := p.Emit(p.buf[..pos]);
        if !c.onContent(q.out) then Stop(q.(valid := false), false)
        else Go(q.Drop(pos + |d|).(phase := Boundary))
      else
        var len := |p.buf| - |d|;
        if len == 0 then Stop(p, true) else
          var q := p.Emit(p.buf[..len]);
          if !c.onContent(q.out) then Stop(q.(valid := false), false) else Stop(q.Drop(len), true)
  }

  /** The closing `--` empties the buffer and leaves the state as it is. */
  function BoundaryTurn(c: Config, p: Parser): Turn
  {
    if |p.buf| < 2 then Stop(p, true)
    else if CRLF <= p.buf then Go(p.Drop(2).(phase := NewEntry))
    else if DASH <= p.buf then Go(p.Drop(|p.buf|).(valid := true))
    else Stop(p, true)
  }

  function OneTurn(c: Config, p: Parser): (t: Turn)
    requires p.Valid()
    ensures t.p.Valid()
    ensures t.Go? ==> |t.p.buf| < |p.buf| || (p.phase == NewEntry && t.p == p.(file := NO_FILE, phase := Headers))
  {
    match p.phase
    case Preamble => PreambleTurn(c, p)
    case NewEntry => Go(p.(file := NO_FILE, phase := Headers))
    case Headers => HeadersTurn(c, p)
    case Content => ContentTurn(c, p)
    case Boundary => BoundaryTurn(c, p)
  }

  datatype Result = Result(p: Parser, ok: bool)

  function Rank(p: Parser): nat { if p.phase == NewEntry then 1 else 0 }

  function Run(c: Config, p: Parser): (r: Result)
    requires p.Valid()
    ensures r.p.Valid()
    decreases |p.buf|, Rank(p)
  {
    if p.buf == "" then Result(p, true) else
      match OneTurn(c, p)
      case Stop(q, ok) => Result(q, ok)
      case Go(q) => Run(c, q)
  }

  /** One call of `parse`. */
  function Parse(c: Config, p: Parser, piece: string): (r: Result)
    requires p.Valid()
    ensures r.p.Valid()
  {
    Run(c, p.(buf := p.buf + piece))
  }

  /** One call for each piece, up to the first that fails: what the body reader does. */
  function Feed(c: Config, p: Parser, pieces: seq<string>): (r: Result)
    requires p.Valid()
    ensures r.p.Valid()
    decreases |pieces|
  {
    if pieces == [] then Result(p, true) else
      var r := Parse(c, p, pieces[0]);
      if r.ok then Feed(c, r.p, pieces[1..]) else r
  }
}

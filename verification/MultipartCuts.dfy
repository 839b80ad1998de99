/** When the way a body is cut into `parse` calls does not matter, and when it does. */
module MultipartCuts {
  import opened Bytes
  import opened MultipartSpec

  /** What the caller can see: the last answer, `is_valid`, and what the callbacks received. */
  datatype View = View(ok: bool, valid: bool, out: seq<Part>)

  function See(r: Result): View { View(r.ok, r.p.valid, r.p.out) }

  // ----- A call, one header line at a time -----

  /** A turn that takes one header line; the length check is made where a block of header lines begins. */
  function FreeTurn(c: Config, p: Parser): (t: Turn)
    requires p.Valid()
    ensures t.p.Valid()
    ensures t.Go? ==> |t.p.buf| < |p.buf| || (p.phase == NewEntry && t.p == p.(file := NO_FILE, phase := Headers))
  {
    match p.phase
    case NewEntry =>
      var h := p.(file := NO_FILE, phase := Headers);
      if Find(p.buf, CRLF) > HEADER_MAX then Stop(h, false) else Go(h)
    case Headers => LineTurn(c, p)
    case _ => OneTurn(c, p)
  }

  function FreeRun(c: Config, p: Parser): (r: Result)
    requires p.Valid()
    decreases |p.buf|, Rank(p)
  {
    if p.buf == "" then Result(p, true) else
      match FreeTurn(c, p)
      case Stop(q, ok) => Result(q, ok)
      case Go(q) => FreeRun(c, q)
  }

  /** The line at the front can be cut anywhere without reaching the length check. */
  predicate LineFits(buf: string) {
    var pos := Find(buf, CRLF);
    if pos < |buf| then pos < HEADER_MAX else |buf| <= HEADER_MAX
  }

  /** Read as header lines, `s` shows nothing to the caller. */
  predicate QuietLines(f: File, s: string)
    decreases |s|
  {
    && LineFits(s)
    && var pos := Find(s, CRLF);
       pos < |s| ==>
         pos > 0 && ReadLine(f, s[..pos]).ok && QuietLines(ReadLine(f, s[..pos]).file, s[pos + 2..])
  }

  predicate QuietFrom(s: string) {
    CRLF <= s ==> QuietLines(NO_FILE, s[2..])
  }

  /** No line end in the epilogue is followed by something the parser would report. */
  predicate QuietTail(s: string) { forall k :: 0 <= k <= |s| ==> QuietFrom(s[k..]) }

  predicate Closes(p: Parser) { p.phase == Boundary && DASH <= p.buf }

  /** A header line is refused before an empty line comes. */
  predicate BadBlock(f: File, s: string)
    decreases |s|
  {
    var pos := Find(s, CRLF);
    0 < pos < |s| && (!ReadLine(f, s[..pos]).ok || BadBlock(ReadLine(f, s[..pos]).file, s[pos + 2..]))
  }

  /** Every header line fits, but for those of the block in which the call fails, and the epilogue is quiet. */
  predicate Robust(c: Config, p: Parser)
    requires p.Valid()
    decreases |p.buf|, Rank(p)
  {
    p.buf == "" || (p.phase == NewEntry && BadBlock(NO_FILE, p.buf)) ||
    ( && (p.phase == Headers ==> LineFits(p.buf))
      && (Closes(p) ==> QuietTail(p.buf[2..]))
      && match FreeTurn(c, p)
         case Stop(_, _) => true
         case Go(q) => Robust(c, q))
  }

  function With(p: Parser, s: string): Parser { p.(buf := s) }

  // ----- A turn sees only what it consumes -----

  lemma LineFitsPrefix(x: string, y: string)
    requires LineFits(x + y)
    ensures LineFits(x)
  {
    FindExtends(x, y, CRLF);
    var pos := Find(x + y, CRLF);
    if pos < |x + y| && pos + 2 <= |x| {
      OccursInPrefix(x, y, CRLF, pos);
    }
  }

  /** A line is read the same way whatever follows it. */
  lemma LineTurnExtends(c: Config, p: Parser, x: string, y: string)
    requires p.phase == Headers
    ensures var t := LineTurn(c, With(p, x));
            match t
            case Go(q) => LineTurn(c, With(p, x + y)) == Go(With(q, q.buf + y))
            case Stop(q, ok) =>
              if ok then q == With(p, x) else LineTurn(c, With(p, x + y)) == Stop(With(q, q.buf + y), false)
  {
    hide ReadLine;
    FindExtends(x, y, CRLF);
    var pos := Find(x, CRLF);
    if pos < |x| {
      assert (x + y)[..pos] == x[..pos];
      assert (x + y)[pos + 2..] == x[pos + 2..] + y;
    }
  }

  lemma EmitTwice(p: Parser, d: string, e: string)
    ensures p.Emit(d).Emit(e) == p.Emit(d + e)
  {
    if p.out != [] {
      var last := p.out[|p.out| - 1].content;
      assert (last + d) + e == last + (d + e);
      assert p.Emit(d).Emit(e).out == p.Emit(d + e).out;
    }
  }

  lemma EmitNothing(p: Parser)
    ensures p.Emit("") == p
  {
    if p.out != [] {
      var last := p.out[|p.out| - 1].content;
      assert last + "" == last;
      assert p.Emit("").out == p.out;
    }
  }

  lemma FindEarly(x: string, y: string, d: string)
    requires d != "" && |d| <= |x| == Find(x, d)
    ensures var len := |x| - |d|; Find(x + y, d) == len + Find(x[len..] + y, d)
  {
    var len := |x| - |d|;
    var e, t := x[..len], x[len..] + y;
    assert x + y == e + t;
    if Find(x + y, d) < len {
      OccursInPrefix(x, y, d, Find(x + y, d));
      assert false;
    }
    FindDrops(e, t, d);
  }

  /** The parser after handing over its next `n` bytes. */
  function Handed(p: Parser, n: nat): Parser
    requires n <= |p.buf|
  {
    p.Emit(p.buf[..n]).Drop(n)
  }

  lemma HandedTwice(p: Parser, m: nat, n: nat)
    requires m <= n <= |p.buf|
    ensures Handed(p, n) == Handed(Handed(p, m), n - m)
  {
    EmitTwice(p, p.buf[..m], p.buf[m..][..n - m]);
    Tails(p.buf, m, n - m);
    assert p.buf[..n] == p.buf[..m] + p.buf[m..n];
  }

  lemma ContentTurnIs(c: Config, p: Parser)
    requires p.phase == Content && c.AcceptsContent() && |c.CrlfDashBoundary()| <= |p.buf|
    ensures var d := c.CrlfDashBoundary(); var pos := Find(p.buf, d);
            ContentTurn(c, p) ==
              if pos < |p.buf| then Go(Handed(p, pos).Drop(|d|).(phase := Boundary))
              else Stop(Handed(p, |p.buf| - |d|), true)
  {
    var d := c.CrlfDashBoundary();
    if Find(p.buf, d) < |p.buf| {
      Tails(p.buf, Find(p.buf, d), |d|);
    } else if |p.buf| == |d| {
      EmitNothing(p);
    }
  }

  /** Content handed over early is content handed over: the delimiter is still found at the same place. */
  lemma ContentEarly(c: Config, p: Parser, x: string, y: string)
    requires p.phase == Content && c.AcceptsContent()
    requires |c.CrlfDashBoundary()| <= |x| == Find(x, c.CrlfDashBoundary())
    ensures var len := |x| - |c.CrlfDashBoundary()|;
            ContentTurn(c, With(p, x + y)) == ContentTurn(c, With(p.Emit(x[..len]), x[len..] + y))
  {
    hide ContentTurn, Find, Handed;
    var d := c.CrlfDashBoundary();
    var len := |x| - |d|;
    var z := With(p, x + y);
    HandedIs(p, x, y, len);
    FindEarly(x, y, d);
    ContentTurnIs(c, z);
    ContentTurnIs(c, Handed(z, len));
    var pos := Find(z.buf, d);
    HandedTwice(z, len, if pos < |z.buf| then pos else |z.buf| - |d|);
  }

  lemma HandedIs(p: Parser, x: string, y: string, n: nat)
    requires n <= |x|
    ensures Handed(With(p, x + y), n) == With(p.Emit(x[..n]), x[n..] + y)
  {
    assert (x + y)[..n] == x[..n] && (x + y)[n..] == x[n..] + y;
  }

  lemma ContentFound(c: Config, p: Parser, x: string, y: string)
    requires p.phase == Content && c.AcceptsContent() && Find(x, c.CrlfDashBoundary()) < |x|
    ensures ContentTurn(c, With(p, x)).Go?
    ensures var q := ContentTurn(c, With(p, x)).p; ContentTurn(c, With(p, x + y)) == Go(With(q, q.buf + y))
  {
    var d := c.CrlfDashBoundary();
    FindExtends(x, y, d);
    var pos := Find(x, d);
    assert (x + y)[..pos] == x[..pos];
    assert (x + y)[pos + |d|..] == x[pos + |d|..] + y;
  }

  /** What a turn on `x` says about the turn on `x + y`, for a parser that is past the preamble and not closed. */
  lemma TurnExtends(c: Config, p: Parser, x: string, y: string)
    requires p.Valid() && p.phase != Preamble && p.phase != NewEntry && c.AcceptsContent() && x != ""
    ensures var t := FreeTurn(c, With(p, x));
            match t
            case Go(q) =>
              var rest := if Closes(With(p, x)) then "" else q.buf + y;
              FreeTurn(c, With(p, x + y)) == Go(With(q, rest))
            case Stop(q, ok) =>
              if ok then FreeTurn(c, With(p, x + y)) == FreeTurn(c, With(q, q.buf + y)) && q.phase == p.phase
              else FreeTurn(c, With(p, x + y)) == Stop(With(q, q.buf + y), false)
  {
    match p.phase
    case Headers =>
      hide LineTurn;
      LineTurnExtends(c, p, x, y);
    case Content =>
      hide ContentTurn;
      ContentExtends(c, p, x, y);
    case Boundary =>
      BoundaryExtends(c, p, x, y);
  }

  lemma ContentExtends(c: Config, p: Parser, x: string, y: string)
    requires p.phase == Content && c.AcceptsContent()
    ensures var t := ContentTurn(c, With(p, x));
            if t.Go? then ContentTurn(c, With(p, x + y)) == Go(With(t.p, t.p.buf + y))
            else t.ok && t.p.phase == Content && ContentTurn(c, With(p, x + y)) == ContentTurn(c, With(t.p, t.p.buf + y))
  {
    hide Find;
    var d := c.CrlfDashBoundary();
    if |d| <= |x| {
      if Find(x, d) < |x| {
        ContentFound(c, p, x, y);
      } else {
        ContentTurnIs(c, With(p, x));
        ContentEarly(c, p, x, y);
      }
    }
  }

  lemma BoundaryExtends(c: Config, p: Parser, x: string, y: string)
    requires p.phase == Boundary
    ensures var t := BoundaryTurn(c, With(p, x));
            if t.Go? then BoundaryTurn(c, With(p, x + y)) == Go(With(t.p, if Closes(With(p, x)) then "" else t.p.buf + y))
            else t == Stop(With(p, x), true)
  {
    if |x| >= 2 {
      PrefixOfJoin(CRLF, x, y);
      PrefixOfJoin(DASH, x, y);
      assert CRLF[0] != DASH[0];
      assert x[|x|..] == (x + y)[|x + y|..] == "";
      assert (x + y)[2..] == x[2..] + y;
    }
  }

  // ----- Past the closing delimiter -----

  lemma QuietPrefix(f: File, x: string, y: string)
    requires QuietLines(f, x + y)
    ensures QuietLines(f, x)
    decreases |x|
  {
    LineFitsPrefix(x, y);
    FindExtends(x, y, CRLF);
    var pos := Find(x, CRLF);
    if pos < |x| {
      assert (x + y)[..pos] == x[..pos] && (x + y)[pos + 2..] == x[pos + 2..] + y;
      QuietPrefix(ReadLine(f, x[..pos]).file, x[pos + 2..], y);
    }
  }

  lemma QuietTailSuffix(x: string, y: string)
    requires QuietTail(x + y)
    ensures QuietTail(y)
  {
    hide QuietFrom;
    forall k | 0 <= k <= |y| ensures QuietFrom(y[k..]) {
      assert (x + y)[|x| + k..] == y[k..];
    }
  }

  lemma QuietTailPrefix(x: string, y: string)
    requires QuietTail(x + y)
    ensures QuietTail(x)
  {
    hide QuietFrom;
    forall k | 0 <= k <= |x| ensures QuietFrom(x[k..]) {
      assert (x + y)[k..] == x[k..] + y;
      QuietFromPrefix(x[k..], y);
    }
  }

  lemma QuietFromPrefix(x: string, y: string)
    requires QuietFrom(x + y)
    ensures QuietFrom(x)
  {
    hide QuietLines;
    if CRLF <= x {
      PrefixOfJoin(CRLF, x, y);
      assert (x + y)[2..] == x[2..] + y;
      QuietPrefix(NO_FILE, x[2..], y);
    }
  }

  /** A closed parser with `y` still to come, none of which will show. */
  predicate Quiet(p: Parser, y: string) {
    && p.valid
    && match p.phase
       case Boundary => QuietTail(p.buf + y)
       case NewEntry => QuietLines(NO_FILE, p.buf + y)
       case Headers => QuietLines(p.file, p.buf + y)
       case _ => false
  }

  lemma LinesQuiet(c: Config, p: Parser, y: string)
    requires p.phase == Headers && Quiet(p, y)
    ensures var t := Lines(c, p); t.Stop? && t.ok && t.p.out == p.out && Quiet(t.p, y)
    decreases |p.buf|
  {
    hide ReadLine, LineFits, Find;
    var x := p.buf;
    QuietPrefix(p.file, x, y);
    FindExtends(x, y, CRLF);
    var pos := Find(x, CRLF);
    if pos < |x| {
      assert (x + y)[..pos] == x[..pos] && (x + y)[pos + 2..] == x[pos + 2..] + y;
      LinesQuiet(c, p.(file := ReadLine(p.file, x[..pos]).file).Drop(pos + 2), y);
    }
  }

  lemma RunQuiet(c: Config, p: Parser, y: string)
    requires p.Valid() && Quiet(p, y)
    ensures var r := Run(c, p); r.ok && r.p.out == p.out && Quiet(r.p, y)
    decreases |p.buf|, Rank(p)
  {
    if p.buf != "" {
      match p.phase
      case NewEntry => RunQuiet(c, p.(file := NO_FILE, phase := Headers), y);
      case Headers =>
        LineFitsPrefix(p.buf, y);
        LinesQuiet(c, p, y);
      case Boundary =>
        BoundaryQuiet(c, p, y);
        var t := BoundaryTurn(c, p);
        if t.Go? {
          RunQuiet(c, t.p, y);
        }
    }
  }

  lemma BoundaryQuiet(c: Config, p: Parser, y: string)
    requires p.phase == Boundary && Quiet(p, y)
    ensures var t := BoundaryTurn(c, p); (t.Stop? ==> t.ok) && t.p.out == p.out && Quiet(t.p, y)
  {
    hide QuietLines;
    if |p.buf| >= 2 {
      PrefixOfJoin(CRLF, p.buf, y);
      if CRLF <= p.buf {
        assert (p.buf + y)[0..] == p.buf + y;
        assert (p.buf + y)[2..] == p.buf[2..] + y;
        assert QuietFrom((p.buf + y)[0..]);
      } else if DASH <= p.buf {
        QuietTailSuffix(p.buf, y);
        assert "" + y == y;
      }
    }
  }

  /** Nothing after a quiet epilogue's start changes what the caller sees. */
  lemma FeedQuiet(c: Config, p: Parser, pieces: seq<string>)
    requires p.Valid() && Quiet(p, Concat(pieces))
    ensures See(Feed(c, p, pieces)) == View(true, true, p.out)
    decreases |pieces|
  {
    if pieces != [] {
      var y := Concat(pieces[1..]);
      assert p.buf + (pieces[0] + y) == (p.buf + pieces[0]) + y;
      RunQuiet(c, With(p, p.buf + pieces[0]), y);
      FeedQuiet(c, Parse(c, p, pieces[0]).p, pieces[1..]);
    }
  }

  lemma LinesFree(c: Config, p: Parser)
    requires p.phase == Headers && p.Valid() && p.buf != ""
    ensures var t := Lines(c, p); FreeRun(c, p) == if t.Go? then FreeRun(c, t.p) else Result(t.p, t.ok)
    decreases |p.buf|
  {
    hide ReadLine;
    var t := LineTurn(c, p);
    if t.Go? && t.p.phase == Headers {
      if t.p.buf == "" {
        UnfinishedLine(c, t.p);
      } else {
        LinesFree(c, t.p);
      }
    }
  }

  /** A call is its lines one at a time, unless it wakes up in a line that is too long. */
  lemma RunIs(c: Config, p: Parser)
    requires p.Valid()
    ensures Run(c, p) == if p.phase == Headers && Find(p.buf, CRLF) > HEADER_MAX then Result(p, false) else FreeRun(c, p)
    decreases |p.buf|, Rank(p)
  {
    hide Lines, PreambleTurn, ContentTurn, BoundaryTurn, LineTurn, Find;
    if p.buf != "" {
      if p.phase == Headers {
        LinesFree(c, p);
      }
      var t := OneTurn(c, p);
      if t.Go? {
        NextPhase(c, p);
        RunIs(c, t.p);
      }
    }
  }

  lemma NextPhase(c: Config, p: Parser)
    requires p.Valid() && OneTurn(c, p).Go?
    ensures OneTurn(c, p).p.phase == Headers <==> p.phase == NewEntry
  {
    hide Lines, Find;
  }

  // ----- The block in which a call fails -----

  /** A parser in a block of header lines that will be refused whatever the cuts of `y`, with nothing more to report. */
  predicate Doomed(p: Parser, y: string) {
    && p.phase == Headers && !p.valid && Find(p.buf, CRLF) == |p.buf|
    && (BadBlock(p.file, p.buf + y) || |p.buf| <= HEADER_MAX < Find(p.buf + y, CRLF))
  }

  /** Still in the header lines, with nothing reported. */
  predicate WaitsIn(q: Parser, p: Parser) { q.phase == Headers && !q.valid && q.out == p.out }

  lemma BadRun(c: Config, p: Parser)
    requires p.Valid() && p.phase == Headers && !p.valid && BadBlock(p.file, p.buf)
    ensures See(FreeRun(c, p)) == View(false, false, p.out)
    decreases |p.buf|
  {
    hide ReadLine;
    var t := LineTurn(c, p);
    if t.Go? {
      BadRun(c, t.p);
    }
  }

  /** The front of such a block is refused too, or it waits for the rest. */
  lemma BadCut(c: Config, p: Parser, x: string, y: string)
    requires p.Valid() && p.phase == Headers && !p.valid && BadBlock(p.file, x + y)
    ensures var r := FreeRun(c, With(p, x));
            if r.ok then Doomed(r.p, y) && WaitsIn(r.p, p) else See(r) == View(false, false, p.out)
    decreases |x|
  {
    hide ReadLine, Find;
    FindExtends(x, y, CRLF);
    var pos := Find(x, CRLF);
    if x != "" && pos < |x| {
      assert (x + y)[..pos] == x[..pos] && (x + y)[pos + 2..] == x[pos + 2..] + y;
      var t := LineTurn(c, With(p, x));
      if t.Go? {
        BadCut(c, t.p, t.p.buf, y);
      }
    }
  }

  /** A block whose first line is too long, from its start. */
  lemma LongCut(c: Config, p: Parser, x: string, y: string)
    requires p.Valid() && p.phase == NewEntry && !p.valid && x != "" && Find(x + y, CRLF) > HEADER_MAX
    ensures See(FreeRun(c, With(p, x + y))) == View(false, false, p.out)
    ensures var r := FreeRun(c, With(p, x));
            if r.ok then Doomed(r.p, y) && WaitsIn(r.p, p) else See(r) == View(false, false, p.out)
  {
    hide ReadLine, Find, BadBlock;
    FindExtends(x, y, CRLF);
  }

  lemma DoomedFeed(c: Config, p: Parser, pieces: seq<string>)
    requires p.Valid() && Doomed(p, Concat(pieces))
    ensures See(Feed(c, p, pieces)) == View(false, false, p.out)
    decreases |pieces|
  {
    hide Run, FreeRun, BadBlock, Find;
    if pieces == [] {
      assert p.buf + "" == p.buf;
      NotBad(p.file, p.buf);
    } else {
      var x, y := p.buf + pieces[0], Concat(pieces[1..]);
      assert p.buf + (pieces[0] + y) == x + y;
      RunIs(c, With(p, x));
      if Find(x, CRLF) <= HEADER_MAX {
        DoomedStep(c, p, x, y);
        var r := FreeRun(c, With(p, x));
        if r.ok {
          DoomedFeed(c, r.p, pieces[1..]);
        }
      }
    }
  }

  lemma NotBad(f: File, s: string)
    requires Find(s, CRLF) == |s|
    ensures !BadBlock(f, s)
  {
  }

  lemma DoomedStep(c: Config, p: Parser, x: string, y: string)
    requires p.Valid() && p.phase == Headers && !p.valid && Find(x, CRLF) <= HEADER_MAX
    requires BadBlock(p.file, x + y) || Find(x + y, CRLF) > HEADER_MAX
    ensures var r := FreeRun(c, With(p, x));
            if r.ok then Doomed(r.p, y) && WaitsIn(r.p, p) else See(r) == View(false, false, p.out)
  {
    hide ReadLine, Find, BadBlock;
    if BadBlock(p.file, x + y) {
      BadCut(c, p, x, y);
    } else {
      FindExtends(x, y, CRLF);
    }
  }

  // ----- Cutting a body once -----

  lemma FreeCutClosing(c: Config, p: Parser, x: string, y: string)
    requires p.Valid() && !p.valid && Closes(With(p, x)) && Robust(c, With(p, x + y))
    ensures Robust(c, With(p, x))
    ensures var r := FreeRun(c, With(p, x));
            r == FreeRun(c, With(p, x + y)) == Result(With(p, "").(valid := true), true) && Quiet(r.p, y)
  {
    hide LineTurn, ContentTurn, PreambleTurn, BoundaryTurn, LineFits, QuietTail, Run, FreeRun;
    PrefixOfJoin(DASH, x, y);
    CloseThere(c, p, x);
    CloseThere(c, p, x + y);
    assert (x + y)[2..] == x[2..] + y;
    QuietTailPrefix(x[2..], y);
    QuietTailSuffix(x[2..], y);
    assert "" + y == y;
  }

  /** The body goes on after `x` from where `r` left the parser. */
  predicate TakenUp(c: Config, p: Parser, x: string, y: string, r: Result)
    requires p.Valid() && r.p.Valid()
  {
    && Robust(c, With(p, x)) && Robust(c, With(r.p, r.p.buf + y))
    && FreeRun(c, With(p, x + y)) == FreeRun(c, With(r.p, r.p.buf + y))
  }

  /** What `x` and then `y` come to, when `x` ends in `r`, against both in one call. */
  predicate TakesOver(c: Config, p: Parser, x: string, y: string, r: Result)
    requires p.Valid()
  {
    var s := FreeRun(c, With(p, x + y));
    if !r.ok then See(r) == See(s)
    else
      && r.p.Valid()
      && if r.p.valid then See(r) == See(s) && Quiet(r.p, y)
         else r.p.phase != Preamble
              && (TakenUp(c, p, x, y, r) || (Doomed(r.p, y) && See(s) == View(false, false, r.p.out)))
  }

  /** The second piece of a robust body takes over where the first ended, or both ways lead to the same refusal. */
  lemma FreeCut(c: Config, p: Parser, x: string, y: string)
    requires p.Valid() && p.phase != Preamble && !p.valid && c.AcceptsContent() && Robust(c, With(p, x + y))
    ensures TakesOver(c, p, x, y, FreeRun(c, With(p, x)))
    decreases |x|, Rank(p)
  {
    if x == "" {
      assert x + y == y;
    } else if p.phase == NewEntry {
      EntryCut(c, p, x, y);
    } else {
      hide FreeTurn, FreeRun, Robust, TakesOver;
      TurnExtends(c, p, x, y);
      var t := FreeTurn(c, With(p, x));
      if t.Stop? {
        StopCut(c, p, x, y);
      } else if Closes(With(p, x)) {
        FreeCutClosing(c, p, x, y);
        ClosedOver(c, p, x, y);
      } else {
        StepCut(c, p, x, y, t.p);
        FreeCut(c, t.p, t.p.buf, y);
        StepOver(c, p, x, y, t.p);
      }
    }
  }

  lemma StopCut(c: Config, p: Parser, x: string, y: string)
    requires p.Valid() && p.phase != Preamble && p.phase != NewEntry && !p.valid && c.AcceptsContent() && x != ""
    requires Robust(c, With(p, x + y)) && FreeTurn(c, With(p, x)).Stop?
    ensures TakesOver(c, p, x, y, FreeRun(c, With(p, x)))
  {
    hide FreeTurn, LineFits, QuietTail, BadBlock, Doomed, Quiet;
    TurnExtends(c, p, x, y);
    var t := FreeTurn(c, With(p, x));
    if t.ok {
      Waiting(c, p, x);
      PrefixRobust(c, p, x, y);
      assert With(p, x).buf == x;
    }
  }

  /** A turn that waits changes nothing but the content handed over. */
  lemma Waiting(c: Config, p: Parser, x: string)
    requires p.Valid() && p.phase != Preamble && p.phase != NewEntry && c.AcceptsContent() && x != ""
    requires FreeTurn(c, With(p, x)).Stop? && FreeTurn(c, With(p, x)).ok
    ensures var q := FreeTurn(c, With(p, x)).p;
            && q.valid == p.valid && q.phase == p.phase && q.buf != "" && !Closes(With(p, x))
            && (p.phase != Content ==> q == With(p, x))
  {
    hide ReadLine, Find;
  }

  lemma PrefixRobust(c: Config, p: Parser, x: string, y: string)
    requires p.Valid() && p.phase != Preamble && p.phase != NewEntry && x != ""
    requires Robust(c, With(p, x + y)) && FreeTurn(c, With(p, x)).Stop? && !Closes(With(p, x))
    ensures Robust(c, With(p, x))
  {
    hide FreeTurn, LineFits, QuietTail;
    if p.phase == Headers {
      LineFitsPrefix(x, y);
    }
  }

  lemma ClosedOver(c: Config, p: Parser, x: string, y: string)
    requires p.Valid() && FreeRun(c, With(p, x)) == FreeRun(c, With(p, x + y)) && FreeRun(c, With(p, x)).ok
    requires FreeRun(c, With(p, x)).p == With(p, "").(valid := true) && Quiet(FreeRun(c, With(p, x)).p, y)
    ensures TakesOver(c, p, x, y, FreeRun(c, With(p, x)))
  {
    hide FreeRun, Quiet;
  }

  /** A turn that goes on goes on in the same way whatever follows. */
  lemma StepCut(c: Config, p: Parser, x: string, y: string, q: Parser)
    requires p.Valid() && p.phase != Preamble && p.phase != NewEntry && !p.valid && c.AcceptsContent() && x != ""
    requires Robust(c, With(p, x + y)) && FreeTurn(c, With(p, x)) == Go(q) && !Closes(With(p, x))
    ensures q.Valid() && q.phase != Preamble && !q.valid && |q.buf| < |x|
    ensures Robust(c, With(q, q.buf + y)) && (Robust(c, q) ==> Robust(c, With(p, x)))
    ensures FreeRun(c, With(p, x)) == FreeRun(c, q) && FreeRun(c, With(p, x + y)) == FreeRun(c, With(q, q.buf + y))
  {
    hide LineTurn, ContentTurn, PreambleTurn, BoundaryTurn, LineFits, QuietTail, BadBlock;
    TurnExtends(c, p, x, y);
    if p.phase == Headers {
      LineFitsPrefix(x, y);
    }
    if |x| >= 2 {
      PrefixOfJoin(DASH, x, y);
    }
    GoesOn(c, With(p, x));
  }

  lemma GoesOn(c: Config, p: Parser)
    requires p.Valid() && p.phase != Preamble && FreeTurn(c, p).Go? && !Closes(p)
    ensures FreeTurn(c, p).p.phase != Preamble && FreeTurn(c, p).p.valid == p.valid
    ensures p.phase == Boundary ==> |p.buf| >= 2
  {
    hide ReadLine, Find;
  }

  lemma StepOver(c: Config, p: Parser, x: string, y: string, q: Parser)
    requires p.Valid() && q.Valid() && (Robust(c, q) ==> Robust(c, With(p, x)))
    requires FreeRun(c, With(p, x)) == FreeRun(c, q) && FreeRun(c, With(p, x + y)) == FreeRun(c, With(q, q.buf + y))
    requires TakesOver(c, q, q.buf, y, FreeRun(c, With(q, q.buf)))
    ensures TakesOver(c, p, x, y, FreeRun(c, With(p, x)))
  {
    hide FreeRun, Quiet, Robust, Doomed;
    assert With(q, q.buf) == q;
  }

  lemma EntryCut(c: Config, p: Parser, x: string, y: string)
    requires p.Valid() && p.phase == NewEntry && !p.valid && c.AcceptsContent() && Robust(c, With(p, x + y)) && x != ""
    ensures TakesOver(c, p, x, y, FreeRun(c, With(p, x)))
    decreases |x|, Rank(p), 0
  {
    hide LineTurn, BadBlock, Find, LineFits, Doomed, QuietTail;
    var h := p.(file := NO_FILE, phase := Headers);
    if Find(x + y, CRLF) > HEADER_MAX {
      LongCut(c, p, x, y);
    } else if BadBlock(NO_FILE, x + y) {
      BadRun(c, With(h, x + y));
      BadCut(c, h, x, y);
    } else {
      LineFitsPrefix(x, y);
      FitsIsShort(x);
      FreeCut(c, h, x, y);
    }
  }

  lemma FitsIsShort(s: string)
    requires LineFits(s)
    ensures Find(s, CRLF) <= HEADER_MAX
  {
  }

  /** The same for a call, which looks at the line it wakes up in. */
  lemma CallCut(c: Config, p: Parser, x: string, y: string)
    requires p.Valid() && p.phase != Preamble && !p.valid && c.AcceptsContent() && Robust(c, With(p, x + y))
    ensures Run(c, With(p, x)) == FreeRun(c, With(p, x))
    ensures TakesOver(c, p, x, y, Run(c, With(p, x)))
  {
    hide Robust, Run, FreeRun, TakesOver, Find;
    FreeCut(c, p, x, y);
    RunIs(c, With(p, x));
    if p.phase == Headers {
      RobustLine(c, p, x, y);
    }
  }

  /** However a robust body is cut, the caller sees what one call would show. */
  lemma CutsAgree(c: Config, p: Parser, pieces: seq<string>)
    requires p.Valid() && p.phase != Preamble && !p.valid && c.AcceptsContent()
    requires Robust(c, With(p, p.buf + Concat(pieces))) && FreeRun(c, p) == Result(p, true)
    ensures See(Feed(c, p, pieces)) == See(FreeRun(c, With(p, p.buf + Concat(pieces))))
    decreases |pieces|
  {
    hide Robust, Doomed, FreeRun, Quiet, Run, Feed, Find, Concat;
    if pieces == [] {
      FeedNothing(c, p);
    } else {
      var x, y := p.buf + pieces[0], Concat(pieces[1..]);
      ConcatFirst(pieces);
      Assoc(p.buf, pieces[0], y);
      FeedFirst(c, p, pieces);
      CallCut(c, p, x, y);
      var r := Run(c, With(p, x));
      if r.ok {
        if r.p.valid {
          FeedQuiet(c, r.p, pieces[1..]);
        } else if TakenUp(c, p, x, y, r) {
          Settled(c, p, x);
          CutsAgree(c, r.p, pieces[1..]);
        } else {
          DoomedFeed(c, r.p, pieces[1..]);
        }
      }
    }
  }

  lemma FeedNothing(c: Config, p: Parser)
    requires p.Valid()
    ensures Feed(c, p, []) == Result(p, true) && Concat([]) == "" && p.buf + "" == p.buf
  {
  }

  lemma RobustLine(c: Config, p: Parser, x: string, y: string)
    requires p.Valid() && p.phase == Headers && Robust(c, With(p, x + y))
    ensures Find(x, CRLF) <= HEADER_MAX
  {
    hide Find, LineFits;
    if x + y != "" {
      LineFitsPrefix(x, y);
      FitsIsShort(x);
    }
  }

  /** A call that waits for more would wait again. */
  lemma Settled(c: Config, p: Parser, x: string)
    requires p.Valid() && p.phase != Preamble && !p.valid && c.AcceptsContent() && Robust(c, With(p, x))
    ensures var r := FreeRun(c, With(p, x)); r.ok && !r.p.valid ==> r.p.Valid() && FreeRun(c, r.p) == r
  {
    hide Robust, Doomed, FreeRun, Quiet;
    var r := FreeRun(c, With(p, x));
    assert x + "" == x && r.p.buf + "" == r.p.buf;
    FreeCut(c, p, x, "");
  }

  // ----- The preamble -----

  /** The parser just after the first delimiter line. */
  const AFTER := START.(phase := NewEntry)

  /** No piece ends inside the first delimiter line `d`. */
  predicate Whole(d: string, pieces: seq<string>)
    requires d != ""
  {
    pieces == [] || Find(pieces[0], d) < |pieces[0]|
    || (Find(Concat(pieces), d) >= |pieces[0]| && Whole(d, pieces[1..]))
  }

  /** The pieces that remain after the first delimiter line a piece holds whole. */
  function Entry(d: string, pieces: seq<string>): Option<seq<string>>
    requires d != ""
  {
    if pieces == [] then None else
      var i := Find(pieces[0], d);
      if i < |pieces[0]| then Some([pieces[0][i + |d|..]] + pieces[1..]) else Entry(d, pieces[1..])
  }

  /** The preamble is passed over up to the first delimiter line, or dropped. */
  lemma PreambleTurnIs(c: Config, x: string)
    ensures var d := c.DashBoundaryCrlf(); var i := Find(x, d);
            PreambleTurn(c, With(START, x)) == if i < |x| then Go(With(AFTER, x[i + |d|..])) else Stop(START, true)
  {
    var d := c.DashBoundaryCrlf();
    var i := Find(x, d);
    if i < |x| {
      Tails(x, i, |d|);
    } else {
      assert x[|x|..] == "";
    }
  }

  lemma RunOnce(c: Config, p: Parser)
    requires p.Valid() && p.phase == Preamble && p.buf != ""
    ensures var t := PreambleTurn(c, p); Run(c, p) == if t.Go? then Run(c, t.p) else Result(t.p, t.ok)
  {
    hide PreambleTurn;
  }

  lemma ParsePreamble(c: Config, x: string)
    ensures var d := c.DashBoundaryCrlf(); var i := Find(x, d);
            Parse(c, START, x) ==
              if i < |x| then Parse(c, AFTER, x[i + |d|..]) else Result(START, true)
  {
    hide Run, PreambleTurn, Find;
    var d := c.DashBoundaryCrlf();
    assert "" + x == x;
    if x == "" {
      FreeRunEmpty(c, START);
      RunIs(c, START);
    } else {
      PreambleTurnIs(c, x);
      RunOnce(c, With(START, x));
      var i := Find(x, d);
      if i < |x| {
        assert "" + x[i + |d|..] == x[i + |d|..];
      }
    }
  }

  lemma FeedFirst(c: Config, p: Parser, pieces: seq<string>)
    requires p.Valid() && pieces != []
    ensures Feed(c, p, pieces) ==
      (var r := Parse(c, p, pieces[0]); if r.ok then Feed(c, r.p, pieces[1..]) else r)
  {
    hide Parse;
  }

  lemma EntryFirst(d: string, pieces: seq<string>)
    requires d != "" && pieces != []
    ensures var i := Find(pieces[0], d);
            Entry(d, pieces) ==
              if i < |pieces[0]| then Some([pieces[0][i + |d|..]] + pieces[1..]) else Entry(d, pieces[1..])
  {
    hide Find;
  }

  lemma {:induction false} FeedPreamble(c: Config, pieces: seq<string>)
    ensures match Entry(c.DashBoundaryCrlf(), pieces)
            case None => Feed(c, START, pieces) == Result(START, true)
            case Some(ps) => Feed(c, START, pieces) == Feed(c, AFTER, ps)
    decreases |pieces|
  {
    if pieces != [] {
      hide Parse, Find, Feed, Entry, Run, Concat, Config.DashBoundaryCrlf;
      var d := c.DashBoundaryCrlf();
      ParsePreamble(c, pieces[0]);
      FeedFirst(c, START, pieces);
      var i := Find(pieces[0], d);
      EntryFirst(d, pieces);
      if i < |pieces[0]| {
        var ps := [pieces[0][i + |d|..]] + pieces[1..];
        assert ps[1..] == pieces[1..];
        FeedFirst(c, AFTER, ps);
      } else {
        FeedPreamble(c, pieces[1..]);
      }
    }
  }

  /** The parser finds the first delimiter line of the stream exactly when no piece ends inside it. */
  lemma EntryPlace(d: string, pieces: seq<string>)
    requires d != ""
    ensures var s := Concat(pieces); var f := Find(s, d);
            Whole(d, pieces) <==>
              match Entry(d, pieces)
              case None => f == |s|
              case Some(ps) => f < |s| && Concat(ps) == s[f + |d|..]
    ensures Entry(d, pieces).Some? ==> |Concat(Entry(d, pieces).value)| + |d| <= |Concat(pieces)|
  {
    hide Find, Whole, Entry, Concat;
    if pieces == [] {
      EntryNowhere(d);
    } else {
      var x, rest := pieces[0], pieces[1..];
      assert Concat(pieces) == x + Concat(rest) by { ConcatFirst(pieces); }
      EntryPlace(d, rest);
      FindExtends(x, Concat(rest), d);
      if Find(x, d) < |x| {
        EntryHere(d, pieces);
      } else {
        EntryLater(d, pieces);
        if Find(x + Concat(rest), d) >= |x| {
          FindDrops(x, Concat(rest), d);
          SuffixOfJoin(x, Concat(rest), Find(Concat(rest), d) + |d|);
        }
      }
    }
  }

  lemma ConcatFirst(pieces: seq<string>)
    requires pieces != []
    ensures Concat(pieces) == pieces[0] + Concat(pieces[1..])
  {
  }

  lemma EntryNowhere(d: string)
    requires d != ""
    ensures Concat([]) == "" && Find("", d) == 0 && Whole(d, []) && Entry(d, []) == None
  {
  }

  lemma SuffixOfJoin(x: string, y: string, n: nat)
    ensures n <= |y| ==> (x + y)[|x| + n..] == y[n..]
  {
  }

  lemma EntryHere(d: string, pieces: seq<string>)
    requires d != "" && pieces != [] && Find(pieces[0], d) < |pieces[0]|
    ensures var f := Find(pieces[0], d); var e := Entry(d, pieces);
            Whole(d, pieces) && e.Some? && Concat(e.value) == Concat(pieces)[f + |d|..]
  {
    hide Find;
    var x, y, n := pieces[0], Concat(pieces[1..]), Find(pieces[0], d) + |d|;
    var ps := [x[n..]] + pieces[1..];
    assert ps[1..] == pieces[1..];
    assert (x + y)[n..] == x[n..] + y;
  }

  lemma EntryLater(d: string, pieces: seq<string>)
    requires d != "" && pieces != [] && Find(pieces[0], d) == |pieces[0]|
    ensures Entry(d, pieces) == Entry(d, pieces[1..])
    ensures Whole(d, pieces) <==> Find(Concat(pieces), d) >= |pieces[0]| && Whole(d, pieces[1..])
  {
    hide Find;
  }

  /** Every header line fits, and the epilogue is quiet, in what follows the first delimiter line. */
  predicate RobustBody(c: Config, s: string) {
    var d := c.DashBoundaryCrlf();
    var f := Find(s, d);
    f < |s| ==> Robust(c, With(AFTER, s[f + |d|..]))
  }

  /** Two ways of cutting a body differ only if a piece ends inside the first delimiter line, a header line is too long or the epilogue is read. */
  lemma CutIndependence(c: Config, pieces: seq<string>)
    requires c.AcceptsContent() && Whole(c.DashBoundaryCrlf(), pieces) && RobustBody(c, Concat(pieces))
    ensures See(Feed(c, START, pieces)) == See(Parse(c, START, Concat(pieces)))
  {
    hide Run, Robust, FreeRun, Parse, Feed, Entry, Whole;
    var d, s := c.DashBoundaryCrlf(), Concat(pieces);
    FeedPreamble(c, pieces);
    EntryPlace(d, pieces);
    ParsePreamble(c, s);
    if Entry(d, pieces).Some? {
      BodyCuts(c, Entry(d, pieces).value);
    }
  }

  lemma BodyCuts(c: Config, pieces: seq<string>)
    requires c.AcceptsContent() && Robust(c, With(AFTER, Concat(pieces)))
    ensures See(Feed(c, AFTER, pieces)) == See(Parse(c, AFTER, Concat(pieces)))
  {
    hide Run, Robust, FreeRun, Feed;
    var rest := Concat(pieces);
    assert "" + rest == rest;
    FreeRunEmpty(c, AFTER);
    CutsAgree(c, AFTER, pieces);
    RunIs(c, With(AFTER, rest));
  }

  lemma FreeRunEmpty(c: Config, p: Parser)
    requires p.Valid() && p.buf == ""
    ensures FreeRun(c, p) == Result(p, true)
  {
  }

  // ----- The other half: a body that is not robust has a cut that shows -----

  lemma LinesGrow(c: Config, p: Parser)
    requires p.phase == Headers
    ensures |Lines(c, p).p.out| >= |p.out|
    decreases |p.buf|
  {
    hide ReadLine;
    var t := LineTurn(c, p);
    if t.Go? && t.p.phase == Headers {
      LinesGrow(c, t.p);
    }
  }

  lemma RunGrows(c: Config, p: Parser)
    requires p.Valid()
    ensures |Run(c, p).p.out| >= |p.out|
    decreases |p.buf|, Rank(p)
  {
    hide Lines, Find;
    if p.buf != "" {
      if p.phase == Headers {
        LinesGrow(c, p);
      }
      var t := OneTurn(c, p);
      if t.Go? {
        RunGrows(c, t.p);
      }
    }
  }

  lemma FeedGrows(c: Config, p: Parser, pieces: seq<string>)
    requires p.Valid()
    ensures |Feed(c, p, pieces).p.out| >= |p.out|
    decreases |pieces|
  {
    if pieces != [] {
      RunGrows(c, p.(buf := p.buf + pieces[0]));
      FeedGrows(c, Parse(c, p, pieces[0]).p, pieces[1..]);
    }
  }

  /** The cuts to show: not empty, not starting with an empty piece. */
  ghost predicate Cuts(ps: seq<string>, s: string) { ps != [] && ps[0] != "" && Concat(ps) == s }

  lemma CutsCons(x: string, ps: seq<string>, s: string)
    requires x != "" && Concat(ps) == s
    ensures Cuts([x] + ps, x + s)
  {
    assert ([x] + ps)[1..] == ps;
  }

  lemma FeedCons(c: Config, p: Parser, x: string, ps: seq<string>)
    requires p.Valid() && p.buf == ""
    ensures Feed(c, p, [x] + ps) ==
      (var r := Run(c, With(p, x)); if r.ok then Feed(c, r.p, ps) else r)
  {
    hide Run;
    assert ([x] + ps)[1..] == ps && "" + x == x;
  }

  /** An unfinished line of at most the limit waits in the buffer. */
  lemma WaitAtLine(c: Config, p: Parser)
    requires p.phase == Headers && p.buf != "" && Find(p.buf, CRLF) == |p.buf|
    ensures Run(c, p) == Result(p, |p.buf| <= HEADER_MAX)
  {
    UnfinishedLine(c, p);
  }

  /** A line of the limit or more fails when the parser wakes up inside it. */
  lemma LongLine(c: Config, p: Parser, s: string) returns (ps: seq<string>)
    requires p.phase == Headers && p.Valid() && p.buf == "" && !LineFits(s)
    ensures Cuts(ps, s) && !Feed(c, p, ps).ok && Feed(c, p, ps).p.out == p.out
  {
    hide Run, Feed;
    var n := HEADER_MAX;
    var a, b, e := s[..n], s[n..n + 1], s[n + 1..];
    ps := [a] + ([b] + [e]);
    assert ps == [a, b, e];
    assert s == a + (b + e) && s[..n + 1] == a + b && e + "" == e;
    assert [e][1..] == [] && ([b] + [e])[1..] == [e];
    assert Concat([e]) == e + Concat([]) == e;
    assert Concat([b] + [e]) == b + e;
    CutsCons(a, [b] + [e], b + e);
    NoEarlyEnd(s, n);
    NoEarlyEnd(s, n + 1);
    FeedCons(c, p, a, [b] + [e]);
    WaitAtLine(c, With(p, a));
    WaitAtLine(c, With(p, a + b));
    FeedTwo(c, With(p, a), b, [e]);
  }

  lemma FeedTwo(c: Config, p: Parser, x: string, ps: seq<string>)
    requires p.Valid() && !Run(c, With(p, p.buf + x)).ok
    ensures Feed(c, p, [x] + ps) == Run(c, With(p, p.buf + x))
  {
    hide Run;
    assert ([x] + ps)[0] == x;
  }

  lemma NoEarlyEnd(s: string, n: nat)
    requires !LineFits(s) && n <= HEADER_MAX + 1
    ensures n <= |s| && Find(s[..n], CRLF) == n
  {
    var pos := Find(s, CRLF);
    var x, y := s[..n], s[n..];
    assert s == x + y;
    FindExtends(x, y, CRLF);
  }

  /** A closed parser that reads something it reports: either a call fails or a part appears. */
  lemma LoudLines(c: Config, p: Parser, s: string) returns (ps: seq<string>)
    requires p.phase == Headers && p.Valid() && p.buf == "" && !QuietLines(p.file, s)
    ensures Cuts(ps, s)
    ensures !Feed(c, p, ps).ok || |Feed(c, p, ps).p.out| > |p.out|
    decreases |s|
  {
    if !LineFits(s) {
      ps := LongLine(c, p, s);
      return;
    }
    hide Run, Feed, QuietLines;
    var pos := Find(s, CRLF);
    var x, y := s[..pos + 2], s[pos + 2..];
    assert s == x + y && x[..pos] == s[..pos];
    OneLine(s, pos);
    OneLineRun(c, With(p, x));
    var t := LineTurn(c, With(p, x));
    FeedCons(c, p, x, [y]);
    assert y + "" == y && Concat([y]) == y;
    CutsCons(x, [y], y);
    ps := [x] + [y];
    if t.Go? {
      if pos == 0 {
        FeedGrows(c, t.p, [y]);
      } else {
        QuietStep(p.file, s);
        var qs := LoudLines(c, t.p, y);
        FeedCons(c, p, x, qs);
        CutsCons(x, qs, y);
        ps := [x] + qs;
      }
    }
  }

  lemma QuietStep(f: File, s: string)
    requires LineFits(s) && 0 < Find(s, CRLF) < |s| && ReadLine(f, s[..Find(s, CRLF)]).ok
    ensures QuietLines(f, s) == QuietLines(ReadLine(f, s[..Find(s, CRLF)]).file, s[Find(s, CRLF) + 2..])
  {
  }

  lemma OneLine(s: string, pos: nat)
    requires pos == Find(s, CRLF) < |s|
    ensures Find(s[..pos + 2], CRLF) == pos
  {
    var x, y := s[..pos + 2], s[pos + 2..];
    assert s == x + y;
    FindExtends(x, y, CRLF);
    OccursInPrefix(x, y, CRLF, pos);
  }

  /** A call that ends with a line's end stops after that line. */
  lemma OneLineRun(c: Config, p: Parser)
    requires p.phase == Headers && p.Valid() && Find(p.buf, CRLF) + 2 == |p.buf| && Find(p.buf, CRLF) < HEADER_MAX
    ensures var t := LineTurn(c, p); Run(c, p) == Result(t.p, t.Go?) && (t.Go? ==> t.p.buf == "")
  {
    hide ReadLine;
    var pos := Find(p.buf, CRLF);
    assert p.buf[pos + 2..] == "";
    var t := LineTurn(c, p);
    if t.Go? && t.p.phase == Headers {
      UnfinishedLine(c, t.p);
    }
  }

  lemma NewEntryFeed(c: Config, p: Parser, ps: seq<string>)
    requires p.Valid() && p.phase == NewEntry && p.buf == "" && ps != [] && ps[0] != ""
    ensures Feed(c, p, ps) == Feed(c, p.(file := NO_FILE, phase := Headers), ps)
  {
    assert "" + ps[0] == ps[0];
    assert Run(c, With(p, ps[0])) == Run(c, With(p.(file := NO_FILE, phase := Headers), ps[0]));
  }

  /** An epilogue cut before a loud line end. */
  lemma LoudTail(c: Config, p: Parser, s: string) returns (ps: seq<string>)
    requires p.phase == Boundary && p.valid && p.buf == "" && !QuietFrom(s)
    ensures Concat(ps) == s
    ensures !Feed(c, p, ps).ok || |Feed(c, p, ps).p.out| > |p.out|
  {
    hide Feed, QuietLines;
    var q := p.(phase := NewEntry);
    var h := q.(file := NO_FILE, phase := Headers);
    var qs := LoudLines(c, h, s[2..]);
    assert s == CRLF + s[2..];
    CutsCons(CRLF, qs, s[2..]);
    FeedCons(c, p, CRLF, qs);
    assert CRLF[2..] == "";
    assert BoundaryTurn(c, With(p, CRLF)) == Go(q);
    NewEntryFeed(c, q, qs);
    ps := [CRLF] + qs;
  }

  lemma CloseThere(c: Config, p: Parser, x: string)
    requires p.Valid() && Closes(With(p, x))
    ensures FreeTurn(c, With(p, x)) == Go(With(p, "").(valid := true))
    ensures Run(c, With(p, x)) == FreeRun(c, With(p, x)) == Result(With(p, "").(valid := true), true)
  {
    assert x[|x|..] == "";
    assert CRLF[0] != DASH[0];
    assert OneTurn(c, With(p, x)) == Go(With(p, "").(valid := true));
  }

  /** A turn that goes on needs only the bytes it consumes. */
  lemma TurnAlone(c: Config, p: Parser, s: string) returns (n: nat)
    requires p.Valid() && p.phase != Preamble && c.AcceptsContent() && s != ""
    requires FreeTurn(c, With(p, s)).Go? && !Closes(With(p, s)) && (p.phase == Headers ==> LineFits(s))
    ensures n <= |s| && FreeTurn(c, With(p, s)).p.buf == s[n..] && (n == 0 <==> p.phase == NewEntry)
    ensures n > 0 ==> Run(c, With(p, s[..n])) == Result(With(FreeTurn(c, With(p, s)).p, ""), true)
  {
    hide LineTurn, ContentTurn, Run, Find;
    match p.phase
    case NewEntry =>
      n := 0;
    case Headers =>
      n := Find(s, CRLF) + 2;
      HeaderAlone(c, p, s);
    case Content =>
      n := Find(s, c.CrlfDashBoundary()) + |c.CrlfDashBoundary()|;
      ContentAlone(c, p, s);
    case Boundary =>
      n := 2;
      BoundaryAlone(c, p, s);
  }

  lemma HeaderAlone(c: Config, p: Parser, s: string)
    requires p.phase == Headers && LineFits(s) && LineTurn(c, With(p, s)).Go?
    ensures var n := Find(s, CRLF) + 2;
            && n <= |s| && LineTurn(c, With(p, s)).p.buf == s[n..]
            && Run(c, With(p, s[..n])) == Result(With(LineTurn(c, With(p, s)).p, ""), true)
  {
    hide Run, ReadLine;
    var pos := Find(s, CRLF);
    var x, y := s[..pos + 2], s[pos + 2..];
    assert s == x + y && x[..pos] == s[..pos];
    OneLine(s, pos);
    OneLineRun(c, With(p, x));
    LineTurnExtends(c, p, x, y);
  }

  lemma ContentAlone(c: Config, p: Parser, s: string)
    requires p.phase == Content && p.Valid() && c.AcceptsContent() && ContentTurn(c, With(p, s)).Go?
    ensures var d := c.CrlfDashBoundary(); var n := Find(s, d) + |d|;
            && n <= |s| && ContentTurn(c, With(p, s)).p.buf == s[n..]
            && Run(c, With(p, s[..n])) == Result(With(ContentTurn(c, With(p, s)).p, ""), true)
  {
    var d := c.CrlfDashBoundary();
    var pos := Find(s, d);
    var n := pos + |d|;
    var x, y := s[..n], s[n..];
    assert s == x + y;
    FindExtends(x, y, d);
    OccursInPrefix(x, y, d, pos);
    hide Find;
    ContentFound(c, p, x, y);
    ContentTurnIs(c, With(p, x));
    assert x[pos..][|d|..] == "";
  }

  lemma BoundaryAlone(c: Config, p: Parser, s: string)
    requires p.phase == Boundary && BoundaryTurn(c, With(p, s)).Go? && !Closes(With(p, s))
    ensures 2 <= |s| && BoundaryTurn(c, With(p, s)).p.buf == s[2..]
    ensures Run(c, With(p, s[..2])) == Result(With(BoundaryTurn(c, With(p, s)).p, ""), true)
  {
    assert s[..2][2..] == "";
  }

  lemma FreeRunGrows(c: Config, p: Parser)
    requires p.Valid()
    ensures |FreeRun(c, p).p.out| >= |p.out|
  {
    if p.phase == Headers && Find(p.buf, CRLF) > HEADER_MAX {
      GrowsInLines(c, p);
    } else {
      RunIs(c, p);
      RunGrows(c, p);
    }
  }

  lemma GrowsInLines(c: Config, p: Parser)
    requires p.Valid() && p.phase == Headers
    ensures |FreeRun(c, p).p.out| >= |p.out|
  {
    if p.buf != "" {
      hide Lines, Run, FreeRun;
      LinesFree(c, p);
      LinesGrow(c, p);
      var t := Lines(c, p);
      if t.Go? {
        RunIs(c, t.p);
        RunGrows(c, t.p);
      }
    }
  }

  /** A block that is not refused before its empty line: the call reports it, or waits in it. */
  lemma BlockShows(c: Config, p: Parser)
    requires p.Valid() && p.phase == Headers && !BadBlock(p.file, p.buf)
    ensures var r := FreeRun(c, p); r.ok || |r.p.out| > |p.out|
    decreases |p.buf|
  {
    hide ReadLine, Find;
    if p.buf != "" {
      var t := LineTurn(c, p);
      if t.Go? {
        if t.p.phase == Headers {
          BlockShows(c, t.p);
        } else {
          FreeRunGrows(c, t.p);
        }
      }
    }
  }

  /** A body that is not robust has a cut that shows. */
  lemma BreakingCut(c: Config, p: Parser, s: string) returns (ps: seq<string>)
    requires p.Valid() && p.phase != Preamble && !p.valid && p.buf == "" && c.AcceptsContent()
    requires !Robust(c, With(p, s)) && (p.phase == Headers ==> !BadBlock(p.file, s))
    ensures Cuts(ps, s) && See(Feed(c, p, ps)) != See(FreeRun(c, With(p, s)))
    decreases |s|, Rank(p)
  {
    hide Feed, Run, QuietTail, LineFits, BadBlock;
    var f := With(p, s);
    if p.phase == Headers && !LineFits(s) {
      ps := LongLine(c, p, s);
      BlockShows(c, f);
    } else if Closes(f) {
      CloseThere(c, p, s);
      ps := BreakingTail(c, p, s);
    } else {
      var n := TurnAlone(c, p, s);
      var q := FreeTurn(c, f).p;
      if p.phase == Headers && q.phase == Headers {
        BadLater(c, f);
      }
      ps := BreakingRest(c, p, s, n, With(q, ""));
    }
  }

  lemma BadLater(c: Config, p: Parser)
    requires p.Valid() && p.phase == Headers && LineTurn(c, p).Go? && LineTurn(c, p).p.phase == Headers
    ensures BadBlock(p.file, p.buf) == BadBlock(LineTurn(c, p).p.file, LineTurn(c, p).p.buf)
  {
    hide ReadLine, Find;
  }

  lemma BreakingTail(c: Config, p: Parser, s: string) returns (ps: seq<string>)
    requires p.Valid() && p.phase == Boundary && !p.valid && p.buf == ""
    requires Closes(With(p, s)) && !QuietTail(s[2..])
    ensures Cuts(ps, s) && See(Feed(c, p, ps)) != See(FreeRun(c, With(p, s)))
  {
    hide Feed, QuietFrom, Run, FreeRun, FreeTurn;
    CloseThere(c, p, s);
    var k :| 0 <= k <= |s[2..]| && !QuietFrom(s[2..][k..]);
    CloseThere(c, p, s[..2 + k]);
    Tails(s, 2, k);
    var qs := LoudTail(c, p.(valid := true), s[2 + k..]);
    FeedCons(c, p, s[..2 + k], qs);
    CutsCons(s[..2 + k], qs, s[2 + k..]);
    assert s == s[..2 + k] + s[2 + k..];
    ps := [s[..2 + k]] + qs;
  }

  lemma BreakingRest(c: Config, p: Parser, s: string, n: nat, q: Parser) returns (ps: seq<string>)
    requires p.Valid() && p.phase != Preamble && !p.valid && p.buf == "" && c.AcceptsContent() && s != ""
    requires n <= |s| && FreeTurn(c, With(p, s)) == Go(With(q, s[n..])) && q.buf == ""
    requires q.Valid() && q.phase != Preamble && !q.valid
    requires n == 0 <==> p.phase == NewEntry
    requires n > 0 ==> Run(c, With(p, s[..n])) == Result(q, true)
    requires !Robust(c, With(q, s[n..])) && (q.phase == Headers ==> !BadBlock(q.file, s[n..]))
    ensures Cuts(ps, s) && See(Feed(c, p, ps)) != See(FreeRun(c, With(p, s)))
    decreases |s|, Rank(p), 0
  {
    hide Robust, Run, Feed;
    ps := BreakingCut(c, q, s[n..]);
    assert FreeRun(c, With(p, s)) == FreeRun(c, With(q, s[n..]));
    if n == 0 {
      assert s[0..] == s;
      NewEntryFeed(c, p, ps);
    } else {
      FeedCons(c, p, s[..n], ps);
      CutsCons(s[..n], ps, s[n..]);
      assert s == s[..n] + s[n..];
      ps := [s[..n]] + ps;
    }
  }

  /**
   * Exactly when the cuts of a body do not matter, whether one call takes it or refuses it: the caller sees the same under
   * every cut that keeps the first delimiter line whole if and only if the header lines fit, but for those of a block in
   * which the single call fails, and the epilogue is quiet.
   */
  lemma CutIndependenceExactly(c: Config, s: string)
    requires c.AcceptsContent()
    ensures RobustBody(c, s) <==>
      forall pieces :: Whole(c.DashBoundaryCrlf(), pieces) && Concat(pieces) == s ==>
        See(Feed(c, START, pieces)) == See(Parse(c, START, s))
  {
    hide RobustBody, Whole, Concat, Feed, Parse;
    if RobustBody(c, s) {
      forall pieces | Whole(c.DashBoundaryCrlf(), pieces) && Concat(pieces) == s
        ensures See(Feed(c, START, pieces)) == See(Parse(c, START, s))
      {
        CutIndependence(c, pieces);
      }
    } else {
      var pieces := BreakingBody(c, s);
    }
  }

  /** The cut that shows. */
  lemma BreakingBody(c: Config, s: string) returns (pieces: seq<string>)
    requires c.AcceptsContent() && !RobustBody(c, s)
    ensures Whole(c.DashBoundaryCrlf(), pieces) && Concat(pieces) == s
    ensures See(Feed(c, START, pieces)) != See(Parse(c, START, s))
  {
    hide Run, FreeRun, Robust, Feed, Find, Whole, Entry, Concat, FreeTurn, Parse, RobustBody;
    var d := c.DashBoundaryCrlf();
    var f := BodyStart(c, s);
    var x, rest := s[..f + |d|], s[f + |d|..];
    var ps := BreakingCut(c, AFTER, rest);
    FirstEnds(s, d);
    pieces := [x + ps[0]] + ps[1..];
    JoinedFeed(c, x, ps);
  }

  lemma BodyStart(c: Config, s: string) returns (f: nat)
    requires !RobustBody(c, s)
    ensures var d := c.DashBoundaryCrlf();
            && f == Find(s, d) && f + |d| <= |s| && s == s[..f + |d|] + s[f + |d|..]
            && var rest := s[f + |d|..];
            !Robust(c, With(AFTER, rest)) && Parse(c, START, s) == FreeRun(c, With(AFTER, rest))
  {
    hide Run, FreeRun, Robust, Find;
    var d := c.DashBoundaryCrlf();
    f := Find(s, d);
    var rest := s[f + |d|..];
    ParsePreamble(c, s);
    assert "" + rest == rest;
    RunIs(c, With(AFTER, rest));
  }

  lemma JoinedFeed(c: Config, x: string, ps: seq<string>)
    requires var d := c.DashBoundaryCrlf(); ps != [] && Find(x, d) + |d| == |x|
    ensures var pieces := [x + ps[0]] + ps[1..];
            && Concat(pieces) == x + Concat(ps) && Whole(c.DashBoundaryCrlf(), pieces)
            && Feed(c, START, pieces) == Feed(c, AFTER, ps)
  {
    hide Find, Feed, Whole, Entry, Concat;
    EntryJoin(c.DashBoundaryCrlf(), x, ps);
    FeedPreamble(c, [x + ps[0]] + ps[1..]);
  }

  lemma FirstEnds(s: string, d: string)
    requires d != "" && Find(s, d) < |s|
    ensures var f := Find(s, d); Find(s[..f + |d|], d) == f
  {
    var f := Find(s, d);
    var x, y := s[..f + |d|], s[f + |d|..];
    assert s == x + y;
    FindExtends(x, y, d);
    OccursInPrefix(x, y, d, f);
  }

  lemma EntryJoin(d: string, x: string, ps: seq<string>)
    requires d != "" && ps != [] && Find(x, d) + |d| == |x|
    ensures var pieces := [x + ps[0]] + ps[1..];
            Concat(pieces) == x + Concat(ps) && Entry(d, pieces) == Some(ps) && Whole(d, pieces)
  {
    hide Find, Whole, Entry, Concat;
    var pieces := [x + ps[0]] + ps[1..];
    FindExtends(x, ps[0], d);
    EntryHere(d, pieces);
    EntryFirst(d, pieces);
    assert pieces[0][|x|..] == ps[0];
    assert pieces[1..] == ps[1..] && [ps[0]] + ps[1..] == ps;
    ConcatFirst(pieces);
    ConcatFirst(ps);
    Assoc(x, ps[0], Concat(ps[1..]));
  }
}

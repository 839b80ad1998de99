/** What a success of the form parser means: for the receiver's callbacks, and for the stream. */
module MultipartReceiver {
  import opened Bytes
  import opened MultipartSpec

  // ----- Accepted means that every callback agreed -----

  /** What the two callbacks were asked about part `k`: its file alone, and its content when all of it was there. */
  predicate HeaderAgreed(c: Config, out: seq<Part>, k: nat)
    requires k < |out|
  {
    c.onHeader(out[..k] + [Part(out[k].file, "")])
  }

  predicate ContentAgreed(c: Config, out: seq<Part>, k: nat)
    requires k < |out|
  {
    c.onContent(out[..k + 1])
  }

  /** Every header was accepted, and the content of every part that has some or is finished. */
  predicate Agreed(c: Config, phase: Phase, out: seq<Part>) {
    && (forall k :: 0 <= k < |out| ==> HeaderAgreed(c, out, k))
    && (forall k :: 0 <= k < |out| && (k < |out| - 1 || out[k].content != "" || phase != Content) ==> ContentAgreed(c, out, k))
  }

  lemma OneMoreAgrees(c: Config, out: seq<Part>, x: Part, k: nat)
    requires k < |out|
    ensures HeaderAgreed(c, out + [x], k) == HeaderAgreed(c, out, k) && ContentAgreed(c, out + [x], k) == ContentAgreed(c, out, k)
  {
    assert (out + [x])[..k] == out[..k] && (out + [x])[..k + 1] == out[..k + 1];
  }

  lemma NewPartAgrees(c: Config, out: seq<Part>, f: File)
    requires Agreed(c, Headers, out) && c.onHeader(out + [Part(f, "")])
    ensures Agreed(c, Content, out + [Part(f, "")])
  {
    hide HeaderAgreed, ContentAgreed;
    var more := out + [Part(f, "")];
    LastHeader(c, out, f);
    forall k: nat | k < |out| ensures HeaderAgreed(c, more, k) && ContentAgreed(c, more, k) {
      OneMoreAgrees(c, out, Part(f, ""), k);
    }
  }

  lemma LastHeader(c: Config, out: seq<Part>, f: File)
    requires c.onHeader(out + [Part(f, "")])
    ensures HeaderAgreed(c, out + [Part(f, "")], |out|)
  {
    var more := out + [Part(f, "")];
    assert more[..|out|] == out && more[|out|].file == f;
  }

  lemma {:induction false} LinesAgree(c: Config, p: Parser)
    requires p.phase == Headers && Agreed(c, Headers, p.out)
    ensures var t := Lines(c, p); t.Go? || t.ok ==> Agreed(c, t.p.phase, t.p.out)
    decreases |p.buf|
  {
    hide ReadLine, Agreed, Find;
    var pos := Find(p.buf, CRLF);
    if pos < |p.buf| {
      if pos == 0 {
        if c.onHeader(p.out + [Part(p.file, "")]) {
          NewPartAgrees(c, p.out, p.file);
        }
      } else {
        var r := ReadLine(p.file, p.buf[..pos]);
        if r.ok {
          LinesAgree(c, p.(file := r.file).Drop(pos + 2));
        }
      }
    }
  }

  lemma SamePart(c: Config, out: seq<Part>, content: string, k: nat)
    requires out != [] && k < |out|
    ensures var last := |out| - 1; var more := out[last := out[last].(content := content)];
            HeaderAgreed(c, more, k) == HeaderAgreed(c, out, k) && (k < last ==> ContentAgreed(c, more, k) == ContentAgreed(c, out, k))
  {
    var last := |out| - 1;
    var more := out[last := out[last].(content := content)];
    assert more[..k] == out[..k] && more[k].file == out[k].file;
    assert k < last ==> more[..k + 1] == out[..k + 1];
  }

  /** Content that was accepted. */
  lemma EmitAgrees(c: Config, p: Parser, d: string, phase: Phase)
    requires Agreed(c, Content, p.out) && p.out != [] && c.onContent(p.Emit(d).out)
    ensures Agreed(c, phase, p.Emit(d).out)
  {
    hide HeaderAgreed, ContentAgreed;
    var last := |p.out| - 1;
    var more := p.Emit(d).out;
    forall k: nat | k < |more| ensures HeaderAgreed(c, more, k) && (k < last ==> ContentAgreed(c, more, k)) {
      SamePart(c, p.out, p.out[last].content + d, k);
    }
    AllContent(c, more);
  }

  lemma AllContent(c: Config, out: seq<Part>)
    requires out != [] && c.onContent(out)
    ensures ContentAgreed(c, out, |out| - 1)
  {
    assert out[..|out|] == out;
  }

  lemma TurnAgrees(c: Config, p: Parser)
    requires p.Valid() && Agreed(c, p.phase, p.out)
    ensures var t := OneTurn(c, p); t.Go? || t.ok ==> Agreed(c, t.p.phase, t.p.out)
  {
    hide Find, Lines, HeaderAgreed, ContentAgreed;
    if p.phase == Headers && Find(p.buf, CRLF) <= HEADER_MAX {
      LinesAgree(c, p);
    } else if p.phase == Content {
      ContentTurnAgrees(c, p);
    }
  }

  lemma ContentTurnAgrees(c: Config, p: Parser)
    requires p.Valid() && p.phase == Content && Agreed(c, Content, p.out)
    ensures var t := ContentTurn(c, p); t.Go? || t.ok ==> Agreed(c, t.p.phase, t.p.out)
  {
    hide Agreed, Find, Parser.Emit;
    var d := c.CrlfDashBoundary();
    if |d| <= |p.buf| {
      var pos := Find(p.buf, d);
      var x := p.buf[..if pos < |p.buf| then pos else |p.buf| - |d|];
      if c.onContent(p.Emit(x).out) {
        EmitAgrees(c, p, x, Boundary);
        EmitAgrees(c, p, x, Content);
      }
      EmitKeeps(p, x);
    }
  }

  lemma EmitKeeps(p: Parser, d: string)
    ensures p.Emit(d).buf == p.buf && p.Emit(d).phase == p.phase && p.Emit(d).valid == p.valid
  {
  }

  lemma {:induction false} RunAgrees(c: Config, p: Parser)
    requires p.Valid() && Agreed(c, p.phase, p.out) && Run(c, p).ok
    ensures Agreed(c, Run(c, p).p.phase, Run(c, p).p.out)
    decreases |p.buf|, Rank(p)
  {
    hide OneTurn, Agreed;
    if p.buf != "" {
      TurnAgrees(c, p);
      TurnShrinks(c, p);
      if OneTurn(c, p).Go? {
        RunAgrees(c, OneTurn(c, p).p);
      }
    }
  }

  lemma TurnShrinks(c: Config, p: Parser)
    requires p.Valid()
    ensures var t := OneTurn(c, p);
            t.p.Valid() && (t.Go? ==> |t.p.buf| < |p.buf| || (|t.p.buf| == |p.buf| && Rank(t.p) < Rank(p)))
  {
    hide Lines, Find;
  }

  lemma {:induction false} FeedAgrees(c: Config, p: Parser, pieces: seq<string>)
    requires p.Valid() && Agreed(c, p.phase, p.out) && Feed(c, p, pieces).ok
    ensures Agreed(c, Feed(c, p, pieces).p.phase, Feed(c, p, pieces).p.out)
    decreases |pieces|
  {
    hide Run, Agreed;
    if pieces != [] {
      var q := p.(buf := p.buf + pieces[0]);
      RunAgrees(c, q);
      FeedAgrees(c, Run(c, q).p, pieces[1..]);
    }
  }

  /**
   * A body that is accepted, however it is cut: each header callback agreed, and each content callback that brought a part
   * to its end. So a body whose callbacks refuse anything of this is refused.
   */
  lemma AcceptedAgreed(c: Config, pieces: seq<string>)
    requires Feed(c, START, pieces).ok
    ensures var out := Feed(c, START, pieces).p.out;
            && (forall k: nat :: k < |out| ==> HeaderAgreed(c, out, k))
            && (forall k: nat :: k < |out| && (k < |out| - 1 || out[k].content != "") ==> ContentAgreed(c, out, k))
  {
    hide Feed;
    FeedAgrees(c, START, pieces);
  }

  // ----- Valid means that the closing delimiter was there -----

  predicate EndsIn(z: string, d: string) { |z| >= |d| && z[|z| - |d|..] == d }

  ghost predicate Closed(c: Config, s: string) { exists k: nat :: OccursAt(s, c.CrlfDashBoundary() + DASH, k) }

  /** `z` is what has been consumed of the stream. */
  ghost predicate Tracks(c: Config, p: Parser, z: string) {
    && (p.phase == Boundary ==> p.valid || EndsIn(z, c.CrlfDashBoundary()))
    && (p.valid ==> Closed(c, z + p.buf))
  }

  /** A turn takes a part off the front of the buffer. */
  predicate TakesOff(p: Parser, q: Parser) {
    |q.buf| <= |p.buf| && q.buf == p.buf[|p.buf| - |q.buf|..]
  }

  lemma LineTakesOff(c: Config, p: Parser)
    requires p.phase == Headers
    ensures var q := LineTurn(c, p).p; TakesOff(p, q) && (q.phase == Headers || q.phase == Content) && (q.valid ==> p.valid)
  {
    hide ReadLine, Find;
  }

  lemma TakesOffTwice(p: Parser, q: Parser, r: Parser)
    requires TakesOff(p, q) && TakesOff(q, r)
    ensures TakesOff(p, r)
  {
    var n := |p.buf| - |q.buf|;
    assert p.buf[n..][|q.buf| - |r.buf|..] == p.buf[n + (|q.buf| - |r.buf|)..];
  }

  lemma {:induction false} LinesTakeOff(c: Config, p: Parser)
    requires p.phase == Headers
    ensures var q := Lines(c, p).p; TakesOff(p, q) && q.phase != Boundary && (q.valid ==> p.valid)
    decreases |p.buf|
  {
    LineTakesOff(c, p);
    var t := LineTurn(c, p);
    if t.Go? && t.p.phase == Headers {
      LineShrinks(c, p);
      hide LineTurn, TakesOff;
      LinesTakeOff(c, t.p);
      TakesOffTwice(p, t.p, Lines(c, t.p).p);
    }
  }

  lemma LineShrinks(c: Config, p: Parser)
    ensures LineTurn(c, p).Go? ==> |LineTurn(c, p).p.buf| < |p.buf|
  {
    hide ReadLine, Find;
  }

  lemma PreambleTakesOff(c: Config, p: Parser)
    ensures var q := PreambleTurn(c, p).p; TakesOff(p, q) && q.valid == p.valid && (q.phase == p.phase || q.phase == NewEntry)
  {
    hide Find;
    var d := c.DashBoundaryCrlf();
    var i := Find(p.buf, d);
    if |d| <= |p.buf| - i {
      assert p.buf[i..][|d|..] == p.buf[i + |d|..];
    }
  }

  lemma ContentTakesOff(c: Config, p: Parser)
    ensures var q := ContentTurn(c, p).p; var n := |p.buf| - |q.buf|;
            && TakesOff(p, q) && (q.valid ==> p.valid)
            && (q.phase == p.phase || (q.phase == Boundary && EndsIn(p.buf[..n], c.CrlfDashBoundary())))
  {
    hide Parser.Emit, Find, EndsIn;
    var d := c.CrlfDashBoundary();
    if |d| <= |p.buf| {
      var pos := Find(p.buf, d);
      EmitKeeps(p, p.buf[..if pos < |p.buf| then pos else |p.buf| - |d|]);
      if pos < |p.buf| {
        EndsAtDelimiter(p.buf, d);
      }
    }
  }

  lemma EndsAtDelimiter(s: string, d: string)
    requires d != "" && Find(s, d) < |s|
    ensures Find(s, d) + |d| <= |s| && EndsIn(s[..Find(s, d) + |d|], d)
  {
    var pos := Find(s, d);
    assert s[..pos + |d|][pos..] == s[pos..pos + |d|] == d;
  }

  lemma TurnTakesOff(c: Config, p: Parser)
    requires p.Valid()
    ensures TakesOff(p, OneTurn(c, p).p)
  {
    hide Find, Lines, PreambleTurn, ContentTurn;
    PreambleTakesOff(c, p);
    ContentTakesOff(c, p);
    if p.phase == Headers {
      LinesTakeOff(c, p);
    }
  }

  lemma TurnTracks(c: Config, p: Parser, z: string) returns (y: string)
    requires p.Valid() && Tracks(c, p, z)
    ensures y + OneTurn(c, p).p.buf == z + p.buf && Tracks(c, OneTurn(c, p).p, y)
  {
    hide Find, Lines, PreambleTurn, ContentTurn, EndsIn, Closed, OneTurn;
    var q := OneTurn(c, p).p;
    TurnTakesOff(c, p);
    var n := |p.buf| - |q.buf|;
    y := z + p.buf[..n];
    assert p.buf[..n] + p.buf[n..] == p.buf;
    Assoc(z, p.buf[..n], p.buf[n..]);
    TurnCloses(c, p, z);
  }

  /** Only content leads to a delimiter, and only a delimiter with two dashes behind it closes. */
  lemma TurnCloses(c: Config, p: Parser, z: string)
    requires p.Valid() && Tracks(c, p, z)
    ensures var q := OneTurn(c, p).p; var n := |p.buf| - |q.buf|;
            && 0 <= n <= |p.buf| && (q.valid ==> Closed(c, z + p.buf))
            && (q.phase == Boundary ==> q.valid || EndsIn(z + p.buf[..n], c.CrlfDashBoundary()))
  {
    hide Find, Lines, PreambleTurn, ContentTurn, EndsIn, Closed;
    match p.phase
    case Preamble => PreambleTakesOff(c, p);
    case NewEntry =>
    case Headers => LinesTakeOff(c, p);
    case Content =>
      ContentTakesOff(c, p);
      var q := ContentTurn(c, p).p;
      if q.phase == Boundary {
        EndsLater(z, p.buf[..|p.buf| - |q.buf|], c.CrlfDashBoundary());
      }
    case Boundary =>
      if DASH <= p.buf && !p.valid {
        CloseTracks(c, p, z);
      }
      assert z + p.buf[..0] == z;
  }

  lemma EndsLater(z: string, x: string, d: string)
    requires EndsIn(x, d)
    ensures EndsIn(z + x, d)
  {
    assert (z + x)[|z + x| - |d|..] == x[|x| - |d|..];
  }

  lemma CloseTracks(c: Config, p: Parser, z: string)
    requires EndsIn(z, c.CrlfDashBoundary()) && DASH <= p.buf
    ensures Closed(c, z + p.buf)
  {
    var d, s := c.CrlfDashBoundary(), z + p.buf;
    var k: nat := |z| - |d|;
    assert s[k..|z|] == z[k..] == d && s[|z|..|z| + 2] == p.buf[..2] == DASH;
    assert s[k..k + |d + DASH|] == s[k..|z|] + s[|z|..|z| + 2];
    assert OccursAt(s, d + DASH, k);
  }

  lemma {:induction false} RunTracks(c: Config, p: Parser, z: string) returns (y: string)
    requires p.Valid() && Tracks(c, p, z)
    ensures y + Run(c, p).p.buf == z + p.buf && Tracks(c, Run(c, p).p, y)
    decreases |p.buf|, Rank(p)
  {
    hide OneTurn, Tracks;
    y := z;
    if p.buf != "" {
      y := TurnTracks(c, p, z);
      TurnShrinks(c, p);
      if OneTurn(c, p).Go? {
        y := RunTracks(c, OneTurn(c, p).p, y);
      }
    }
  }

  lemma MoreTracks(c: Config, p: Parser, z: string, piece: string)
    requires Tracks(c, p, z)
    ensures Tracks(c, p.(buf := p.buf + piece), z) && z + (p.buf + piece) == (z + p.buf) + piece
  {
    Assoc(z, p.buf, piece);
    if p.valid {
      var d := c.CrlfDashBoundary() + DASH;
      var k: nat :| OccursAt(z + p.buf, d, k);
      assert ((z + p.buf) + piece)[k..k + |d|] == (z + p.buf)[k..k + |d|];
      assert OccursAt((z + p.buf) + piece, d, k);
    }
  }

  lemma {:induction false} FeedTracks(c: Config, p: Parser, z: string, pieces: seq<string>)
    requires p.Valid() && Tracks(c, p, z)
    ensures Feed(c, p, pieces).p.valid ==> Closed(c, (z + p.buf) + Concat(pieces))
    decreases |pieces|
  {
    hide Run, Closed;
    if pieces == [] {
      assert (z + p.buf) + "" == z + p.buf;
    } else {
      MoreTracks(c, p, z, pieces[0]);
      var q := p.(buf := p.buf + pieces[0]);
      var y := RunTracks(c, q, z);
      var r := Run(c, q);
      Assoc(z + p.buf, pieces[0], Concat(pieces[1..]));
      if r.ok {
        FeedTracks(c, r.p, y, pieces[1..]);
      } else if r.p.valid {
        StaysClosed(c, y + r.p.buf, Concat(pieces[1..]));
      }
    }
  }

  lemma StaysClosed(c: Config, s: string, rest: string)
    requires Closed(c, s)
    ensures Closed(c, s + rest)
  {
    var d := c.CrlfDashBoundary() + DASH;
    var k: nat :| OccursAt(s, d, k);
    assert (s + rest)[k..k + |d|] == s[k..k + |d|];
    assert OccursAt(s + rest, d, k);
  }

  /** A body that is found complete holds a delimiter with the two closing dashes, however it is cut. */
  lemma ValidIsClosed(c: Config, pieces: seq<string>)
    requires Feed(c, START, pieces).p.valid
    ensures exists k: nat :: OccursAt(Concat(pieces), c.CrlfDashBoundary() + DASH, k)
  {
    hide Feed;
    FeedTracks(c, START, "", pieces);
    assert ("" + "") + Concat(pieces) == Concat(pieces);
    assert Closed(c, Concat(pieces));
  }
}

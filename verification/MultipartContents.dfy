/** Which contents survive the form-data round trip. */
module MultipartContents {
  import opened Bytes
  import opened MultipartSpec
  import opened MultipartCuts
  import opened MultipartRoundTrip

  /** The header lines of a file can be read back. */
  predicate HeaderOk(c: Config, f: File) { ItemOk(c, Part(f, "")) }

  /** The content does not contain the delimiter. */
  predicate Clean(c: Config, item: Part) { Find(item.content, c.CrlfDashBoundary()) == |item.content| }

  lemma OkWhenClean(c: Config, item: Part)
    ensures ItemOk(c, item) <==> HeaderOk(c, item.file) && Clean(c, item)
  {
    assert Find("", c.CrlfDashBoundary()) == 0;
  }

  /** The parts that the rest of a run cannot change any more. */
  function Fixed(p: Parser): seq<Part>
    requires p.Valid()
  {
    if p.phase == Content then p.out[..|p.out| - 1] else p.out
  }

  lemma TurnKeeps(c: Config, p: Parser)
    requires p.Valid()
    ensures var t := FreeTurn(c, p); if t.Go? then Fixed(p) <= Fixed(t.p) else Fixed(p) <= t.p.out
  {
    hide Find, ReadLine;
  }

  lemma {:induction false} RunKeeps(c: Config, p: Parser)
    requires p.Valid()
    ensures Fixed(p) <= FreeRun(c, p).p.out
    decreases |p.buf|, Rank(p)
  {
    hide FreeTurn;
    if p.buf != "" {
      TurnKeeps(c, p);
      if FreeTurn(c, p).Go? {
        RunKeeps(c, FreeTurn(c, p).p);
      }
    }
  }

  /** An item whose content holds the delimiter is cut short there, for good. */
  lemma ItemCutShort(c: Config, p: Parser, item: Part, rest: string)
    requires p.Valid() && p.phase == NewEntry && c.AcceptsContent() && HeaderOk(c, item.file) && !Clean(c, item)
    requires p.buf == HeaderBlock(item.file) + item.content + c.CrlfDashBoundary() + rest
    requires c.onHeader(p.out + [Part(item.file, "")])
    ensures var out := FreeRun(c, p).p.out;
            |out| > |p.out| && |out[|p.out|].content| < |item.content|
  {
    hide FreeRun, HeaderBlock, ItemOk, Robust, BadBlock, Find;
    var d := c.CrlfDashBoundary();
    var body := item.content + d + rest;
    assert p.buf == HeaderBlock(item.file) + body;
    HeadersOff(c, p.(file := NO_FILE, phase := Headers), Part(item.file, ""), body);
    EntryStep(c, p);
    var q := p.(file := item.file, phase := Content, out := p.out + [Part(item.file, "")], buf := body);
    var pos := Find(item.content, d);
    assert body == item.content + (d + rest);
    FindExtends(item.content, d + rest, d);
    var head, tail := body[..pos], body[pos + |d|..];
    DelimiterAt(body, d, pos);
    ContentOff(c, q, head, tail);
    var u := q.Emit(head).(phase := Boundary, buf := tail);
    RunKeeps(c, u);
    assert u.out[|p.out|].content == "" + head;
    assert FreeRun(c, p).p.out[|p.out|] == u.out[|p.out|];
  }

  lemma DelimiterAt(s: string, d: string, pos: nat)
    requires OccursAt(s, d, pos)
    ensures s == s[..pos] + d + s[pos + |d|..]
  {
  }

  /** A form with such an item does not come back. */
  lemma {:induction false} FormBreaks(c: Config, p: Parser, items: seq<Part>)
    requires p.Valid() && p.phase == NewEntry && c.AcceptsContent() && '\r' !in c.boundary && items != []
    requires (forall item :: item in items ==> HeaderOk(c, item.file)) && exists item :: item in items && !Clean(c, item)
    requires AcceptsHeaders(c, |p.out| + |items|) && p.buf == Rest(items, c.boundary)
    ensures FreeRun(c, p).p.out != p.out + items
    decreases |items|
  {
    hide FreeRun, Robust, ItemOk, HeaderBlock, Rest;
    RestUnfold(items, c.boundary);
    var tail := if |items| == 1 then DASH + CRLF else CRLF + Rest(items[1..], c.boundary);
    assert p.buf == HeaderBlock(items[0].file) + items[0].content + c.CrlfDashBoundary() + tail;
    if !Clean(c, items[0]) {
      ItemCutShort(c, p, items[0], tail);
      assert (p.out + items)[|p.out|] == items[0];
    } else {
      OkWhenClean(c, items[0]);
      ItemOff(c, p, items[0], tail);
      var q := AfterItem(p, items[0], tail);
      BoundaryOff(c, q, Rest(items[1..], c.boundary));
      FormBreaks(c, q.(phase := NewEntry, buf := Rest(items[1..], c.boundary)), items[1..]);
      Assoc(p.out, [items[0]], items[1..]);
      assert [items[0]] + items[1..] == items;
    }
  }

  /** With headers that survive, a form comes back from one call if and only if no content holds the delimiter. */
  lemma ContentsExactly(c: Config, items: seq<Part>)
    requires items != [] && '\r' !in c.boundary && forall item :: item in items ==> HeaderOk(c, item.file)
    requires c.AcceptsContent() && AcceptsHeaders(c, |items|)
    ensures See(Parse(c, START, Serialize(items, c.boundary) + Finish(c.boundary))) == View(true, true, items)
       <==> forall item :: item in items ==> Clean(c, item)
  {
    hide Robust, FreeRun, ItemOk, Rest, Serialize, Finish, Run, Clean, HeaderOk, Feed, Parse, Find;
    var s := Serialize(items, c.boundary) + Finish(c.boundary);
    var d := c.DashBoundaryCrlf();
    var rest := Rest(items, c.boundary);
    SerializeRest(items, c.boundary);
    DelimiterFirst(d, rest);
    ParsePreamble(c, s);
    ParseAfter(c, rest);
    RunIs(c, With(AFTER, rest));
    if forall item :: item in items ==> Clean(c, item) {
      forall item | item in items ensures ItemOk(c, item) {
        OkWhenClean(c, item);
      }
      FormOff(c, With(AFTER, rest), items);
    } else {
      FormBreaks(c, With(AFTER, rest), items);
    }
    assert [] + items == items;
  }

  lemma ParseAfter(c: Config, rest: string)
    ensures Parse(c, AFTER, rest) == Run(c, With(AFTER, rest))
  {
    assert "" + rest == rest;
  }
}

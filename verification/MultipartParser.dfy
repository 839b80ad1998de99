/** `MultipartFormDataParser` itself: fields, compacting buffer and loops, against `MultipartSpec`. */
module MultipartParser {
  import opened Bytes
  import opened Text
  import opened MultipartSpec
  import N = MultipartNames
  import Query

  /** The header and content callbacks of a server, with what they have stored. */
  class Receiver {
    var parts: seq<Part>
    const onHeader: seq<Part> -> bool
    const onContent: seq<Part> -> bool

    constructor (onHeader: seq<Part> -> bool, onContent: seq<Part> -> bool)
      ensures parts == [] && this.onHeader == onHeader && this.onContent == onContent
    {
      parts := [];
      this.onHeader, this.onContent := onHeader, onContent;
    }

    method Header(file: File) returns (ok: bool)
      modifies this
      ensures parts == old(parts) + [Part(file, "")] && ok == onHeader(parts)
    {
      parts := parts + [Part(file, "")];
      ok := onHeader(parts);
    }

    method Content(d: string) returns (ok: bool)
      requires parts != []
      modifies this
      ensures parts == START.(out := old(parts)).Emit(d).out && ok == onContent(parts)
    {
      var last := parts[|parts| - 1];
      parts := parts[|parts| - 1 := last.(content := last.content + d)];
      ok := onContent(parts);
    }
  }

  /** One piece of the loop over `kvs`. */
  lemma PairStep(kvs: seq<string>, i: nat, seen: set<string>, params: Params)
    requires i < |kvs|
    ensures var kv := KeyValue(kvs[i]);
            params + Unquoted(RawPairs(kvs[i..], seen)) ==
              if kvs[i] in seen then params + Unquoted(RawPairs(kvs[i + 1..], seen))
              else if kv.None? then params + Unquoted(RawPairs(kvs[i + 1..], seen + {kvs[i]}))
              else params + [(TrimQuotes(kv.value.0), TrimQuotes(kv.value.1))] + Unquoted(RawPairs(kvs[i + 1..], seen + {kvs[i]}))
  {
    hide KeyValue, TrimQuotes;
    assert kvs[i..][0] == kvs[i] && kvs[i..][1..] == kvs[i + 1..];
    var rest := RawPairs(kvs[i + 1..], seen + {kvs[i]});
    var kv := KeyValue(kvs[i]);
    if kv.None? {
      assert [] + rest == rest;
    } else {
      assert ([kv.value] + rest)[1..] == rest;
    }
  }

  method ParseDispositionParams(s: string) returns (params: Params)
    ensures params == DispositionParams(s)
  {
    hide Unquoted, RawPairs, KeyValue, TrimQuotes;
    params := [];
    var cache: set<string> := {};
    var kvs := Split(s, ';');
    assert kvs[0..] == kvs && [] + Unquoted(RawPairs(kvs, {})) == Unquoted(RawPairs(kvs, {}));
    for i := 0 to |kvs|
      invariant DispositionParams(s) == params + Unquoted(RawPairs(kvs[i..], cache))
    {
      PairStep(kvs, i, cache, params);
      if kvs[i] !in cache {
        cache := cache + {kvs[i]};
        var key, val := SplitKeyValue(kvs[i]);
        if key != "" {
          params := params + [(TrimQuotes(key), TrimQuotes(val))];
        }
      }
    }
    NoPairsLeft(kvs[|kvs|..], cache);
    assert params + [] == params;
  }

  lemma NoPairsLeft(kvs: seq<string>, seen: set<string>)
    requires kvs == []
    ensures Unquoted(RawPairs(kvs, seen)) == []
  {
  }

  lemma LineSays(f: File, line: string)
    ensures forall n, v :: N.Names(line, f.filename, n, v) ==> ReadLine(f, line) == LineResult(f.(name := n, filename := v), true)
    ensures forall a, l, v, r :: N.Types(line, a, l, v, r) ==> ReadLine(f, line) == LineResult(f.(contentType := v), true)
    ensures N.Unacceptable(line) || N.Unknown(line) ==> !ReadLine(f, line).ok
  {
    hide ReadLine, N.Names, N.Types, N.Unacceptable, N.Unknown;
    forall n, v | N.Names(line, f.filename, n, v) ensures ReadLine(f, line) == LineResult(f.(name := n, filename := v), true) {
      N.NamesRead(f, line, n, v);
    }
    forall a, l, v, r | N.Types(line, a, l, v, r) ensures ReadLine(f, line) == LineResult(f.(contentType := v), true) {
      N.TypeRead(f, line, a, l, v, r);
    }
    if N.Unacceptable(line) {
      N.UnacceptableRead(f, line);
    }
    if N.Unknown(line) {
      N.UnknownRead(f, line);
    }
  }

  lemma BoundaryIs(c: Config, p: Parser)
    ensures BoundaryTurn(c, p) ==
      if |p.buf| < 2 then Stop(p, true)
      else if OccursAt(p.buf, CRLF, 0) then Go(p.Drop(2).(phase := NewEntry))
      else if OccursAt(p.buf, DASH, 0) then Go(p.Drop(|p.buf|).(valid := true))
      else Stop(p, true)
  {
    hide OccursAt;
    OccursFirst(p.buf, CRLF);
    OccursFirst(p.buf, DASH);
  }

  lemma OccursFirst(w: string, s: string)
    ensures OccursAt(w, s, 0) <==> s <= w
  {
    assert w[0..] == w;
  }

  class MultipartFormDataParser {
    const boundary: string
    const dashBoundaryCrlf: string
    const crlfDashBoundary: string

    var state: Phase
    var isValid: bool
    var file: File

    var buf: array<char>
    var spos: nat
    var epos: nat

    ghost predicate Valid()
      reads this, buf
    {
      && spos <= epos <= buf.Length
      && dashBoundaryCrlf == DASH + boundary + CRLF
      && crlfDashBoundary == CRLF + DASH + boundary
    }

    /** The unread bytes. */
    ghost function Window(): string
      reads this, buf
      requires Valid()
    {
      buf[spos..epos]
    }

    ghost function Value(r: Receiver): Parser
      reads this, buf, r
      requires Valid()
    {
      Parser(state, isValid, file, Window(), r.parts)
    }

    ghost function Setting(r: Receiver): Config
      reads this
    {
      Config(boundary, r.onHeader, r.onContent)
    }

    constructor (boundary: string)
      ensures Valid() && fresh(buf) && this.boundary == boundary
      ensures state == Preamble && !isValid && file == NO_FILE && Window() == ""
    {
      this.boundary := boundary;
      dashBoundaryCrlf := DASH + boundary + CRLF;
      crlfDashBoundary := CRLF + DASH + boundary;
      state, isValid, file := Preamble, false, NO_FILE;
      buf, spos, epos := new char[0], 0, 0;
    }

    // ----- The buffer -----

    lemma Head(n: nat)
      requires Valid() && n <= epos - spos
      ensures buf[spos..spos + n] == Window()[..n]
    {
      forall k | 0 <= k < n ensures buf[spos..spos + n][k] == Window()[..n][k] {
        assert Window()[k] == buf[spos + k];
      }
    }

    /** Does `s` start at `pos` before `epos`? */
    method StartWith(pos: nat, s: string) returns (r: bool)
      requires Valid() && spos <= pos <= epos
      ensures r <==> OccursAt(Window(), s, pos - spos)
    {
      if epos - pos < |s| {
        return false;
      }
      ghost var w := Window();
      for i := 0 to |s|
        invariant forall k :: 0 <= k < i ==> w[pos - spos + k] == s[k]
      {
        if buf[pos + i] != s[i] {
          assert w[pos - spos..pos - spos + |s|][i] == w[pos - spos + i] != s[i];
          return false;
        }
      }
      assert w[pos - spos..pos - spos + |s|] == s;
      return true;
    }

    method BufFind(s: string) returns (r: nat)
      requires Valid() && s != ""
      ensures r == Find(Window(), s)
    {
      hide OccursAt, Find;
      ghost var w := Window();
      var off := spos;
      while off < epos
        invariant spos <= off <= epos
        invariant forall k: nat :: k < off - spos ==> !OccursAt(w, s, k)
      {
        var pos := off;
        while pos < epos && buf[pos] != s[0]
          invariant off <= pos <= epos
          invariant forall k: nat :: k < pos - spos ==> !OccursAt(w, s, k)
        {
          if OccursAt(w, s, pos - spos) {
            OccurrenceStarts(w, s, pos - spos);
          }
          pos := pos + 1;
        }
        if pos == epos || |s| > epos - pos {
          FindNone(w, s, pos - spos);
          return epos - spos;
        }
        var found := StartWith(pos, s);
        if found {
          FindAt(w, s, pos - spos);
          return pos - spos;
        }
        off := pos + 1;
      }
      FindNone(w, s, off - spos);
      return epos - spos;
    }

    /** Moves the unread bytes to the front. */
    method Compact()
      requires Valid()
      modifies this`spos, this`epos, buf
      ensures Valid() && spos == 0 && Window() == old(Window())
    {
      ghost var w := Window();
      var remaining := epos - spos;
      if remaining > 0 && spos > 0 {
        for i := 0 to remaining
          invariant spos == old(spos) && spos + remaining == epos <= buf.Length
          invariant forall k :: 0 <= k < i ==> buf[k] == w[k]
          invariant forall k :: i <= k < remaining ==> buf[spos + k] == w[k]
        {
          buf[i] := buf[spos + i];
        }
      }
      assert buf[..remaining] == w;
      spos, epos := 0, remaining;
    }

    /** `resize`: the old bytes stay. */
    method Resize(size: nat)
      requires Valid() && spos == 0 && buf.Length <= size
      modifies this`buf
      ensures Valid() && fresh(buf) && buf.Length == size && Window() == old(Window())
    {
      var bigger := new char[size];
      for i := 0 to buf.Length
        invariant buf == old(buf)
        invariant forall k :: 0 <= k < i ==> bigger[k] == buf[k]
      {
        bigger[i] := buf[i];
      }
      assert bigger[..epos] == buf[..epos];
      buf := bigger;
    }

    /** Keeps the unread bytes and adds `data` after them. */
    method BufAppend(data: string)
      requires Valid()
      modifies this`spos, this`epos, this`buf, buf
      ensures Valid() && (buf == old(buf) || fresh(buf))
      ensures Window() == old(Window()) + data
    {
      Compact();
      if epos + |data| > buf.Length {
        Resize(epos + |data|);
      }
      Copy(data, epos);
      epos := epos + |data|;
    }

    method Copy(data: string, at: nat)
      requires at + |data| <= buf.Length
      modifies buf
      ensures buf[..at + |data|] == old(buf[..at]) + data
    {
      for i := 0 to |data|
        invariant forall k :: 0 <= k < at ==> buf[k] == old(buf[k])
        invariant forall k :: 0 <= k < i ==> buf[at + k] == data[k]
      {
        buf[at + i] := data[i];
      }
    }

    method BufErase(size: nat)
      requires Valid() && size <= epos - spos
      modifies this`spos
      ensures Valid() && Window() == old(Window())[size..]
    {
      ghost var w := Window();
      spos := spos + size;
      assert buf[spos..epos] == w[size..];
    }
  
    // ----- The state machine -----

    method ParseDisposition(rest: string) returns (good: bool)
      modifies this`file
      ensures LineResult(file, good) == ReadParams(old(file), DispositionParams(rest))
    {
      var params := ParseDispositionParams(rest);
      var name := Lookup(params, "name");
      if name.None? {
        return false;
      }
      file := file.(name := name.value);
      var filename := Lookup(params, "filename");
      if filename.Some? {
        file := file.(filename := filename.value);
      }
      var extended := Lookup(params, "filename*");
      if extended.Some? {
        var e := MatchExtended(extended.value);
        if e.None? {
          return false;
        }
        file := file.(filename := Query.DecodeUrl(e.value, false));
      }
      return true;
    }

    /** One header line; what it says is stated on its text. */
    method ReadHeaderLine(line: string) returns (ok: bool)
      modifies this`file
      ensures LineResult(file, ok) == ReadLine(old(file), line)
      ensures forall n, v :: N.Names(line, old(file.filename), n, v) ==> ok && file == old(file).(name := n, filename := v)
      ensures forall a, l, v, r :: N.Types(line, a, l, v, r) ==> ok && file == old(file).(contentType := v)
      ensures N.Unacceptable(line) || N.Unknown(line) ==> !ok
    {
      LineSays(file, line);
      hide N.Names, N.Types, N.Unacceptable, N.Unknown;
      if StartsWithIgnoreCase(line, CONTENT_TYPE) {
        file := file.(contentType := Trim(line[|CONTENT_TYPE|..]));
        return true;
      }
      var m := MatchDisposition(line);
      if m.None? {
        return false;
      }
      ok := ParseDisposition(m.value);
    }

    /** Takes the complete header line of `pos` bytes. */
    method ParseLine(pos: nat, r: Receiver) returns (ok: bool)
      requires Valid() && state == Headers && pos == Find(Window(), CRLF) < |Window()|
      modifies this`spos, this`isValid, this`file, this`state, r
      ensures Valid()
      ensures LineTurn(Setting(r), old(Value(r))) == if ok then Go(Value(r)) else Stop(Value(r), false)
      ensures ok ==> |Window()| < old(|Window()|) && (state == Headers || state == Content)
    {
      hide ReadLine, Find;
      if pos == 0 {
        ok := r.Header(file);
        if !ok {
          isValid := false;
          return;
        }
        BufErase(2);
        state := Content;
        return;
      }
      var line := buf[spos..spos + pos];
      Head(pos);
      ok := ReadHeaderLine(line);
      if !ok {
        isValid := false;
        return;
      }
      BufErase(pos + 2);
    }

    /** Reads lines up to the empty one, an unfinished one or a bad one. */
    method ParseHeaders(r: Receiver) returns (more: bool, ok: bool)
      requires Valid() && state == Headers
      modifies this`spos, this`isValid, this`file, this`state, r
      ensures Valid()
      ensures HeadersTurn(Setting(r), old(Value(r))) == if more then Go(Value(r)) else Stop(Value(r), ok)
    {
      hide LineTurn;
      ghost var c := Setting(r);
      var pos := BufFind(CRLF);
      if pos > HEADER_MAX {
        return false, false;
      }
      while pos < epos - spos
        invariant Valid() && state == Headers
        invariant Lines(c, old(Value(r))) == Lines(c, Value(r))
        invariant pos == Find(Window(), CRLF)
        decreases epos - spos
      {
        var good := ParseLine(pos, r);
        if !good {
          return false, false;
        }
        if state == Content {
          return true, true;
        }
        pos := BufFind(CRLF);
      }
      UnfinishedLine(c, Value(r));
      return false, true;
    }

    /** Part content up to a delimiter. */
    method ContentBefore(pos: nat, r: Receiver) returns (ok: bool)
      requires Valid() && state == Content && r.parts != [] && pos + |crlfDashBoundary| <= epos - spos
      modifies this`spos, this`isValid, this`state, r
      ensures Valid()
      ensures var q := old(Value(r)).Emit(old(Window()[..pos]));
              && ok == r.onContent(q.out)
              && Value(r) == if ok then q.Drop(pos + |crlfDashBoundary|).(phase := Boundary) else q.(valid := false)
    {
      ok := HandOver(pos, r);
      if ok {
        BufErase(pos + |crlfDashBoundary|);
        state := Boundary;
      }
    }

    method ParseContent(r: Receiver) returns (more: bool, ok: bool)
      requires Valid() && state == Content && r.parts != []
      modifies this`spos, this`isValid, this`state, r
      ensures Valid()
      ensures ContentTurn(Setting(r), old(Value(r))) == if more then Go(Value(r)) else Stop(Value(r), ok)
    {
      hide Find, OccursAt;
      if |crlfDashBoundary| > epos - spos {
        return false, true;
      }
      var pos := BufFind(crlfDashBoundary);
      if pos < epos - spos {
        OccurrenceFits(Window(), crlfDashBoundary, pos);
        ok := ContentBefore(pos, r);
        return ok, ok;
      }
      var len := epos - spos - |crlfDashBoundary|;
      if len > 0 {
        var accepted := HandOver(len, r);
        if !accepted {
          return false, false;
        }
        BufErase(len);
      }
      return false, true;
    }

    /** Gives the next `n` bytes to the content callback. */
    method HandOver(n: nat, r: Receiver) returns (accepted: bool)
      requires Valid() && n <= epos - spos && r.parts != []
      modifies this`isValid, r
      ensures Valid() && accepted == r.onContent(r.parts)
      ensures var p := old(Value(r)).Emit(old(Window()[..n]));
              Value(r) == if accepted then p else p.(valid := false)
    {
      Head(n);
      accepted := r.Content(buf[spos..spos + n]);
      if !accepted {
        isValid := false;
      }
    }

    method ParseBoundary(r: Receiver) returns (more: bool)
      requires Valid() && state == Boundary
      modifies this`spos, this`isValid, this`state
      ensures Valid()
      ensures BoundaryTurn(Setting(r), old(Value(r))) == if more then Go(Value(r)) else Stop(Value(r), true)
    {
      hide OccursAt, BoundaryTurn, StartsWithIgnoreCase;
      ghost var p := Value(r);
      BoundaryIs(Setting(r), p);
      if 2 > epos - spos {
        return false;
      }
      var crlf := StartWith(spos, CRLF);
      if crlf {
        BufErase(2);
        state := NewEntry;
        assert Value(r) == p.Drop(2).(phase := NewEntry);
        return true;
      }
      var dash := StartWith(spos, DASH);
      if dash {
        BufErase(2);
        isValid := true;
        BufErase(epos - spos);
        assert Value(r) == p.Drop(|p.buf|).(valid := true);
        return true;
      }
      return false;
    }

    method ParsePreamble(r: Receiver) returns (more: bool, ok: bool)
      requires Valid() && state == Preamble
      modifies this`spos, this`state
      ensures Valid()
      ensures PreambleTurn(Setting(r), old(Value(r))) == if more then Go(Value(r)) else Stop(Value(r), ok)
    {
      var pos := BufFind(dashBoundaryCrlf);
      BufErase(pos);
      if |dashBoundaryCrlf| > epos - spos {
        return false, true;
      }
      var found := StartWith(spos, dashBoundaryCrlf);
      if !found {
        return false, false;
      }
      BufErase(|dashBoundaryCrlf|);
      state := NewEntry;
      return true, true;
    }

    /** One pass of the loop: the switch on the state. */
    method ParseTurn(r: Receiver) returns (more: bool, ok: bool)
      requires Valid() && Value(r).Valid()
      modifies this`spos, this`isValid, this`file, this`state, r
      ensures Valid()
      ensures OneTurn(Setting(r), old(Value(r))) == if more then Go(Value(r)) else Stop(Value(r), ok)
    {
      hide PreambleTurn, HeadersTurn, ContentTurn, BoundaryTurn;
      more, ok := true, true;
      match state
      case Preamble => more, ok := ParsePreamble(r);
      case NewEntry => file := NO_FILE; state := Headers;
      case Headers => more, ok := ParseHeaders(r);
      case Content => more, ok := ParseContent(r);
      case Boundary => more := ParseBoundary(r);
    }

    method Parse(data: string, r: Receiver) returns (ok: bool)
      requires Valid() && Value(r).Valid()
      modifies this, buf, r
      ensures Valid() && (buf == old(buf) || fresh(buf))
      ensures Result(Value(r), ok) == MultipartSpec.Parse(Setting(r), old(Value(r)), data)
    {
      hide OneTurn;
      ghost var c := Setting(r);
      BufAppend(data);
      while epos > spos
        invariant Valid() && Value(r).Valid() && (buf == old(buf) || fresh(buf))
        invariant MultipartSpec.Parse(c, old(Value(r)), data) == Run(c, Value(r))
        decreases epos - spos, Rank(Value(r))
      {
        ghost var before := Value(r);
        assert |before.buf| == epos - spos;
        var more, good := ParseTurn(r);
        if !more {
          return good;
        }
        assert |Window()| == epos - spos;
      }
      return true;
    }
  }

  /** What the body reader does with the pieces it gets: one call for each, up to the first that fails. */
  method ParsePieces(parser: MultipartFormDataParser, r: Receiver, pieces: seq<string>) returns (ok: bool)
    requires parser.Valid() && parser.Value(r).Valid()
    modifies parser, parser.buf, r
    ensures parser.Valid()
    ensures Result(parser.Value(r), ok) == Feed(parser.Setting(r), old(parser.Value(r)), pieces)
  {
    hide MultipartSpec.Parse;
    ghost var c, start := parser.Setting(r), parser.Value(r);
    for i := 0 to |pieces|
      invariant parser.Valid() && parser.Value(r).Valid() && (parser.buf == old(parser.buf) || fresh(parser.buf))
      invariant Feed(c, start, pieces) == Feed(c, parser.Value(r), pieces[i..])
    {
      assert pieces[i..][0] == pieces[i] && pieces[i..][1..] == pieces[i + 1..];
      ok := parser.Parse(pieces[i], r);
      if !ok {
        return false;
      }
    }
    return true;
  }
}

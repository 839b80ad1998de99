/** The resumable multipart content provider under the chunked writer, and the whole way to the receiver's callbacks. */
module MultipartUpload {
  import opened Bytes
  import opened MultipartSpec
  import opened MultipartCuts
  import opened MultipartParser
  import opened MultipartRoundTrip
  import opened ChunkedWriter
  import C = Chunked
  import Streams

  type SinkOp = C.SinkOp

  /** What an item's provider does in one call: its writes, whether it calls `done`, its answer. */
  datatype ItemReply = ItemReply(writes: seq<string>, finished: bool, ok: bool)

  /** An item read through a callback, which gets the number of the call and an offset. */
  datatype ProviderItem = ProviderItem(file: File, read: (nat, int) -> ItemReply)

  datatype Form = Form(boundary: string, items: seq<Part>, providers: seq<ProviderItem>)

  /** The variables the provider's closure keeps; `calls` stands for the current item's own state. */
  datatype Progress = Progress(curItem: nat, curStart: nat, calls: nat)
  const BEGINNING := Progress(0, 0, 0)

  function Writes(ds: seq<string>): seq<SinkOp>
  {
    if ds == [] then [] else [C.Write(ds[0])] + Writes(ds[1..])
  }

  function Provide(form: Form, s: Progress, offset: nat): Reply<Progress>
  {
    if offset == 0 && form.items != [] then
      Reply(s, [C.Write(Serialize(form.items, form.boundary))], true)
    else if s.curItem < |form.providers| then
      var begin := ItemBegin(form.providers[s.curItem].file, form.boundary);
      var starting := s.curStart == 0;
      var at := if starting then offset + |begin| else offset;
      var start := if starting then at else s.curStart;
      var r := form.providers[s.curItem].read(s.calls, at - start);
      var ops := (if starting then [C.Write(begin)] else []) + Writes(r.writes);
      if !r.ok then Reply(Progress(s.curItem, start, s.calls + 1), ops, false)
      else if r.finished then Reply(Progress(s.curItem + 1, 0, 0), ops + [C.Write(CRLF)], true)
      else Reply(Progress(s.curItem, start, s.calls + 1), ops, true)
    else
      Reply(s, [C.Write(Finish(form.boundary)), C.Done], true)
  }

  class MultipartProvider {
    const form: Form
    var curItem: nat
    var curStart: nat
    var calls: nat

    constructor (form: Form)
      ensures this.form == form && curItem == 0 && curStart == 0 && calls == 0
    {
      this.form := form;
      curItem, curStart, calls := 0, 0, 0;
    }

    method Call(offset: nat) returns (ops: seq<SinkOp>, ok: bool)
      modifies this
      ensures Reply(Progress(curItem, curStart, calls), ops, ok)
           == Provide(form, Progress(old(curItem), old(curStart), old(calls)), offset)
    {
      if offset == 0 && |form.items| > 0 {
        return [C.Write(Serialize(form.items, form.boundary))], true;
      } else if curItem < |form.providers| {
        var at := offset;
        ops := [];
        if curStart == 0 {
          var begin := ItemBegin(form.providers[curItem].file, form.boundary);
          at := at + |begin|;
          curStart := at;
          ops := [C.Write(begin)];
        }
        var r := form.providers[curItem].read(calls, at - curStart);
        ops := ops + Writes(r.writes);
        calls := calls + 1;
        if !r.ok {
          return ops, false;
        }
        if r.finished {
          ops := ops + [C.Write(CRLF)];
          curItem, curStart, calls := curItem + 1, 0, 0;
        }
        return ops, true;
      } else {
        return [C.Write(Finish(form.boundary)), C.Done], true;
      }
    }
  }

  // ----- What an item's provider gives when it is read in order -----

  /** Called `n` times from call `k` on, at the offsets its own writes reach, it finishes and never fails. */
  predicate Finishes(read: (nat, int) -> ItemReply, k: nat, offset: nat, n: nat)
    decreases n
  {
    n > 0 &&
    var r := read(k, offset);
    r.ok && if r.finished then n == 1 else Finishes(read, k + 1, offset + |Concat(r.writes)|, n - 1)
  }

  /** All it writes on the way. */
  function ReadAll(read: (nat, int) -> ItemReply, k: nat, offset: nat, n: nat): string
    requires Finishes(read, k, offset, n)
    decreases n
  {
    var r := read(k, offset);
    Concat(r.writes) + if r.finished then "" else ReadAll(read, k + 1, offset + |Concat(r.writes)|, n - 1)
  }

  /** No call before the last ends with an empty write. */
  predicate Flowing(read: (nat, int) -> ItemReply, k: nat, offset: nat, n: nat)
    requires Finishes(read, k, offset, n)
    decreases n
  {
    var r := read(k, offset);
    r.finished ||
    ( && (r.writes == [] || r.writes[|r.writes| - 1] != "")
      && Flowing(read, k + 1, offset + |Concat(r.writes)|, n - 1))
  }

  /** Every item's provider finishes; `ns` holds the numbers of calls. */
  predicate AllFinish(ps: seq<ProviderItem>, ns: seq<nat>) {
    |ns| == |ps| && forall i :: 0 <= i < |ps| ==> Finishes(ps[i].read, 0, 0, ns[i])
  }

  predicate AllFlow(ps: seq<ProviderItem>, ns: seq<nat>)
    requires AllFinish(ps, ns)
  {
    forall i :: 0 <= i < |ps| ==> Flowing(ps[i].read, 0, 0, ns[i])
  }

  /** The items the providers stand for. */
  function ReadItems(ps: seq<ProviderItem>, ns: seq<nat>): (r: seq<Part>)
    requires AllFinish(ps, ns)
    ensures |r| == |ps|
  {
    seq(|ps|, i requires 0 <= i < |ps| => Part(ps[i].file, ReadAll(ps[i].read, 0, 0, ns[i])))
  }

  function Sum(ns: seq<nat>): nat { if ns == [] then 0 else ns[0] + Sum(ns[1..]) }

  // ----- Operations that are all writes -----

  predicate OnlyWrites(ops: seq<SinkOp>) { forall i :: 0 <= i < |ops| ==> ops[i].Write? }

  lemma {:induction false} WritesAre(ds: seq<string>)
    ensures OnlyWrites(Writes(ds)) && C.Written(Writes(ds)) == Concat(ds) && |Writes(ds)| == |ds|
    ensures ds != [] ==> Writes(ds)[|ds| - 1] == C.Write(ds[|ds| - 1])
  {
    if ds != [] {
      WritesAre(ds[1..]);
      assert ([C.Write(ds[0])] + Writes(ds[1..]))[1..] == Writes(ds[1..]);
    }
  }

  lemma OneWrite(d: string)
    ensures C.Written([C.Write(d)]) == d && C.Written([]) == ""
  {
    assert [C.Write(d)][1..] == [] && d + "" == d;
  }

  lemma LastDecides(ops: seq<SinkOp>)
    requires ops != []
    ensures Available(true, ops) == (ops[|ops| - 1].Write? && ops[|ops| - 1].data != "")
  {
    assert ops == ops[..|ops| - 1] + [ops[|ops| - 1]];
    AvailableAppend(true, ops[..|ops| - 1], ops[|ops| - 1]);
  }

  lemma {:induction false} FinishedAfterWrites(xs: seq<SinkOp>, ys: seq<SinkOp>)
    requires OnlyWrites(xs)
    ensures C.Finished(xs + ys) == C.Finished(ys) && C.SentFields(xs + ys) == C.SentFields(ys)
  {
    if xs == [] {
      assert xs + ys == ys;
    } else {
      assert (xs + ys)[1..] == xs[1..] + ys;
      FinishedAfterWrites(xs[1..], ys);
    }
  }

  // ----- One item -----

  /** The run ended with the writer content although no end of data was written. */
  predicate CutShort(d: Driven) { d.outcome == Completed && OnlyWrites(d.ops) }

  /** The run goes on as `d` does after operations that write `text`. */
  ghost predicate Continues(whole: Driven, text: string, d: Driven) {
    exists ops :: OnlyWrites(ops) && C.Written(ops) == text && whole == Prefixed(ops, d)
  }

  lemma ContinuesMore(whole: Driven, ops: seq<SinkOp>, mid: Driven, text: string, d: Driven)
    requires OnlyWrites(ops) && whole == Prefixed(ops, mid) && Continues(mid, text, d)
    ensures Continues(whole, C.Written(ops) + text, d)
  {
    var more :| OnlyWrites(more) && C.Written(more) == text && mid == Prefixed(more, d);
    PrefixedTwice(ops, more, d);
    WireAppend(ops, more);
    assert OnlyWrites(ops + more);
  }

  function Run(form: Form, s: Progress, offset: nat, rounds: nat): Driven {
    Drive((t: Progress, o: nat) => Provide(form, t, o), s, offset, rounds)
  }

  lemma RunStep(form: Form, s: Progress, offset: nat, rounds: nat)
    requires rounds > 0 && Provide(form, s, offset).ok
    ensures var r := Provide(form, s, offset);
            Run(form, s, offset, rounds) ==
              if Available(true, r.ops) then Prefixed(r.ops, Run(form, r.state, offset + |C.Written(r.ops)|, rounds - 1))
              else Driven(r.ops, Completed)
  {
    hide Provide, Available, C.Written;
  }

  /** What is left of item `i`, from its call `k` at its offset `at`, runs to its end or is cut short. */
  ghost predicate ItemEnds(form: Form, i: nat, k: nat, at: nat, n: nat, offset: nat, rounds: nat, run: Driven)
    requires i < |form.providers| && Finishes(form.providers[i].read, k, at, n) && n <= rounds
  {
    var read := form.providers[i].read;
    if Flowing(read, k, at, n) then
      var text := ReadAll(read, k, at, n) + CRLF;
      Continues(run, text, Run(form, Progress(i + 1, 0, 0), offset + |text|, rounds - n))
    else CutShort(run)
  }

  lemma LastCall(form: Form, i: nat, start: nat, k: nat, offset: nat, rounds: nat)
    requires i < |form.providers| && 0 < start <= offset && 1 <= rounds && (offset == 0 ==> form.items == [])
    requires Finishes(form.providers[i].read, k, offset - start, 1)
    ensures ItemEnds(form, i, k, offset - start, 1, offset, rounds, Run(form, Progress(i, start, k), offset, rounds))
  {
    hide Run, Available, Provide, Writes, C.Written, Finishes, ReadAll, Flowing, Prefixed;
    var read := form.providers[i].read;
    ReadLast(read, k, offset - start);
    var ds := read(k, offset - start).writes;
    ProvideLast(form, Progress(i, start, k), offset);
    LastOps(ds);
    RunStep(form, Progress(i, start, k), offset, rounds);
    assert C.Written(Writes(ds) + [C.Write(CRLF)]) == ReadAll(read, k, offset - start, 1) + CRLF;
  }

  lemma ReadLast(read: (nat, int) -> ItemReply, k: nat, at: nat)
    requires Finishes(read, k, at, 1)
    ensures read(k, at).ok && read(k, at).finished && Flowing(read, k, at, 1)
    ensures ReadAll(read, k, at, 1) == Concat(read(k, at).writes)
  {
    var text := Concat(read(k, at).writes);
    assert text + "" == text;
  }

  lemma ProvideLast(form: Form, s: Progress, offset: nat)
    requires s.curItem < |form.providers| && 0 < s.curStart <= offset
    requires var r := form.providers[s.curItem].read(s.calls, offset - s.curStart); r.ok && r.finished
    ensures Provide(form, s, offset) ==
      Reply(Progress(s.curItem + 1, 0, 0),
            Writes(form.providers[s.curItem].read(s.calls, offset - s.curStart).writes) + [C.Write(CRLF)], true)
  {
    hide Writes;
    var ws := Writes(form.providers[s.curItem].read(s.calls, offset - s.curStart).writes);
    assert [] + ws == ws;
  }

  lemma LastOps(ds: seq<string>)
    ensures var ops := Writes(ds) + [C.Write(CRLF)];
            OnlyWrites(ops) && C.Written(ops) == Concat(ds) + CRLF && Available(true, ops)
  {
    hide Available, Writes;
    WritesAre(ds);
    LastDecides(Writes(ds) + [C.Write(CRLF)]);
    WireAppend(Writes(ds), [C.Write(CRLF)]);
    OneWrite(CRLF);
  }

  lemma NothingYet()
    ensures Available(true, [])
  {
  }

  lemma ProvideMiddle(form: Form, s: Progress, offset: nat)
    requires s.curItem < |form.providers| && 0 < s.curStart <= offset
    requires var r := form.providers[s.curItem].read(s.calls, offset - s.curStart); r.ok && !r.finished
    ensures Provide(form, s, offset) ==
      Reply(s.(calls := s.calls + 1), Writes(form.providers[s.curItem].read(s.calls, offset - s.curStart).writes), true)
  {
    hide Writes, Serialize, ItemBegin, Finish;
    var ws := Writes(form.providers[s.curItem].read(s.calls, offset - s.curStart).writes);
    assert [] + ws == ws;
  }

  lemma ProvideFirst(form: Form, i: nat, offset: nat)
    requires i < |form.providers| && (offset == 0 ==> form.items == []) && form.providers[i].read(0, 0).ok
    ensures var begin := ItemBegin(form.providers[i].file, form.boundary);
            var x := Provide(form, Progress(i, 0, 0), offset);
            var y := Provide(form, Progress(i, offset + |begin|, 0), offset + |begin|);
            x.ok && y.ok && x.state == y.state && x.ops == [C.Write(begin)] + y.ops
  {
    BeginIsLong(form.providers[i].file, form.boundary);
    hide Writes, Serialize, ItemBegin, Finish;
    var head := [C.Write(ItemBegin(form.providers[i].file, form.boundary))];
    var ws := Writes(form.providers[i].read(0, 0).writes);
    assert [] + ws == ws;
    Assoc(head, ws, [C.Write(CRLF)]);
  }

  lemma MiddleCall(form: Form, i: nat, start: nat, k: nat, offset: nat, n: nat, rounds: nat)
    requires i < |form.providers| && 0 < start <= offset && 1 < n <= rounds
    requires Finishes(form.providers[i].read, k, offset - start, n)
    ensures var r := form.providers[i].read(k, offset - start);
            var ws := Writes(r.writes);
            var run := Run(form, Progress(i, start, k), offset, rounds);
            && !r.finished && OnlyWrites(ws) && C.Written(ws) == Concat(r.writes)
            && if r.writes == [] || r.writes[|r.writes| - 1] != "" then
                 run == Prefixed(ws, Run(form, Progress(i, start, k + 1), offset + |Concat(r.writes)|, rounds - 1))
               else CutShort(run)
  {
    hide Run, Provide, C.Written, Available, Concat, Writes;
    var r := form.providers[i].read(k, offset - start);
    var ws := Writes(r.writes);
    var s := Progress(i, start, k);
    WritesAre(r.writes);
    ProvideMiddle(form, s, offset);
    RunStep(form, s, offset, rounds);
    NothingYet();
    if ws != [] {
      LastDecides(ws);
    }
  }

  /** The rest of an item that has started: call `k` is due, and what it wrote so far ends at `offset`. */
  lemma {:induction false} ItemRest(form: Form, i: nat, start: nat, k: nat, offset: nat, n: nat, rounds: nat)
    requires i < |form.providers| && 0 < start <= offset && n <= rounds
    requires Finishes(form.providers[i].read, k, offset - start, n)
    ensures ItemEnds(form, i, k, offset - start, n, offset, rounds, Run(form, Progress(i, start, k), offset, rounds))
    decreases n
  {
    hide Run, Provide, C.Written, Writes;
    var r := form.providers[i].read(k, offset - start);
    if r.finished {
      LastCall(form, i, start, k, offset, rounds);
    } else {
      MiddleCall(form, i, start, k, offset, n, rounds);
      var at := offset + |Concat(r.writes)|;
      ItemRest(form, i, start, k + 1, at, n - 1, rounds - 1);
      if r.writes == [] || r.writes[|r.writes| - 1] != "" {
        EndsLater(form, i, k, offset - start, n, offset, rounds, Writes(r.writes),
                  Run(form, Progress(i, start, k), offset, rounds), Run(form, Progress(i, start, k + 1), at, rounds - 1));
      }
    }
  }

  lemma CutShortLater(ops: seq<SinkOp>, d: Driven)
    requires OnlyWrites(ops) && CutShort(d)
    ensures CutShort(Prefixed(ops, d))
  {
  }

  lemma EndsLater(form: Form, i: nat, k: nat, at: nat, n: nat, offset: nat, rounds: nat, ws: seq<SinkOp>, run: Driven, next: Driven)
    requires i < |form.providers| && Finishes(form.providers[i].read, k, at, n) && 1 < n <= rounds
    requires var r := form.providers[i].read(k, at);
             && !r.finished && OnlyWrites(ws) && C.Written(ws) == Concat(r.writes)
             && (r.writes == [] || r.writes[|r.writes| - 1] != "") && run == Prefixed(ws, next)
             && ItemEnds(form, i, k + 1, at + |Concat(r.writes)|, n - 1, offset + |Concat(r.writes)|, rounds - 1, next)
    ensures ItemEnds(form, i, k, at, n, offset, rounds, run)
  {
    hide Run, Continues, CutShort, Concat, C.Written;
    var read := form.providers[i].read;
    var body := Concat(read(k, at).writes);
    if Flowing(read, k + 1, at + |body|, n - 1) {
      var more := ReadAll(read, k + 1, at + |body|, n - 1);
      Assoc(body, more, CRLF);
      ContinuesMore(run, ws, next, more + CRLF, Run(form, Progress(i + 1, 0, 0), offset + |body| + |more + CRLF|, rounds - n));
    } else {
      CutShortLater(ws, next);
    }
  }

  /** An item from its first call: the same, after the text that begins it. */
  lemma WholeItem(form: Form, i: nat, offset: nat, n: nat, rounds: nat)
    requires i < |form.providers| && n <= rounds && (offset == 0 ==> form.items == [])
    requires Finishes(form.providers[i].read, 0, 0, n)
    ensures var p := form.providers[i];
            var run := Run(form, Progress(i, 0, 0), offset, rounds);
            if Flowing(p.read, 0, 0, n) then
              var text := Item(Part(p.file, ReadAll(p.read, 0, 0, n)), form.boundary);
              Continues(run, text, Run(form, Progress(i + 1, 0, 0), offset + |text|, rounds - n))
            else CutShort(run)
  {
    hide Run;
    var p := form.providers[i];
    var begin := ItemBegin(p.file, form.boundary);
    var start := offset + |begin|;
    BeginIsLong(p.file, form.boundary);
    var bare, run := Run(form, Progress(i, start, 0), start, rounds), Run(form, Progress(i, 0, 0), offset, rounds);
    ItemRest(form, i, start, 0, start, n, rounds);
    FirstCall(form, i, offset, n, rounds);
    if Flowing(p.read, 0, 0, n) {
      var all := ReadAll(p.read, 0, 0, n);
      Assoc(begin, all, CRLF);
      ContinuesMore2(begin, bare, run, all + CRLF, Run(form, Progress(i + 1, 0, 0), start + |all + CRLF|, rounds - n));
    }
  }

  lemma BeginIsLong(f: File, boundary: string)
    ensures |ItemBegin(f, boundary)| > 0
  {
    hide HeaderBlock;
  }

  /** The first call differs from a later one only by the write that begins the item. */
  lemma FirstCall(form: Form, i: nat, offset: nat, n: nat, rounds: nat)
    requires i < |form.providers| && 1 <= n <= rounds && (offset == 0 ==> form.items == [])
    requires Finishes(form.providers[i].read, 0, 0, n)
    ensures var begin := ItemBegin(form.providers[i].file, form.boundary);
            Run(form, Progress(i, 0, 0), offset, rounds) ==
              Prefixed([C.Write(begin)], Run(form, Progress(i, offset + |begin|, 0), offset + |begin|, rounds))
  {
    hide Run, Provide, ItemBegin, C.Written, Available, Prefixed;
    var begin := ItemBegin(form.providers[i].file, form.boundary);
    var start := offset + |begin|;
    BeginIsLong(form.providers[i].file, form.boundary);
    ProvideFirst(form, i, offset);
    var y := Provide(form, Progress(i, start, 0), start);
    RunStep(form, Progress(i, 0, 0), offset, rounds);
    RunStep(form, Progress(i, start, 0), start, rounds);
    FirstOps(begin, y.ops, Run(form, y.state, start + |C.Written(y.ops)|, rounds - 1));
  }

  lemma FirstOps(begin: string, ops: seq<SinkOp>, rest: Driven)
    requires begin != ""
    ensures var head := [C.Write(begin)];
            && |C.Written(head + ops)| == |begin| + |C.Written(ops)|
            && (if Available(true, head + ops) then Prefixed(head + ops, rest) else Driven(head + ops, Completed))
               == Prefixed(head, if Available(true, ops) then Prefixed(ops, rest) else Driven(ops, Completed))
  {
    hide Available, C.Written;
    var head := [C.Write(begin)];
    WireAppend(head, ops);
    OneWrite(begin);
    SameAvailable(head, ops);
    PrefixedTwice(head, ops, rest);
  }

  lemma SameAvailable(xs: seq<SinkOp>, ys: seq<SinkOp>)
    requires |xs| == 1 && xs[0].Write? && xs[0].data != ""
    ensures Available(true, xs + ys) == Available(true, ys)
  {
    assert (xs + ys)[1..] == ys;
  }

  lemma ContinuesMore2(begin: string, bare: Driven, run: Driven, text: string, d: Driven)
    requires run == Prefixed([C.Write(begin)], bare) && Continues(bare, text, d)
    ensures Continues(run, begin + text, d)
  {
    OneWrite(begin);
    ContinuesMore(run, [C.Write(begin)], bare, text, d);
  }

  // ----- The whole run -----

  /** The run wrote `text`, then the end of the form, then the end of the data. */
  ghost predicate EndsWith(form: Form, run: Driven, text: string) {
    exists ops :: OnlyWrites(ops) && C.Written(ops) == text
               && run == Driven(ops + [C.Write(Finish(form.boundary)), C.Done], Completed)
  }

  lemma EndsWithMore(form: Form, run: Driven, text: string, mid: Driven, more: string)
    requires Continues(run, text, mid) && EndsWith(form, mid, more)
    ensures EndsWith(form, run, text + more)
  {
    hide Finish;
    var xs :| OnlyWrites(xs) && C.Written(xs) == text && run == Prefixed(xs, mid);
    var last := [C.Write(Finish(form.boundary)), C.Done];
    var ys :| OnlyWrites(ys) && C.Written(ys) == more && mid == Driven(ys + last, Completed);
    WireAppend(xs, ys);
    Assoc(xs, ys, last);
    assert OnlyWrites(xs + ys);
  }

  lemma CutShortMore(run: Driven, text: string, mid: Driven)
    requires Continues(run, text, mid) && CutShort(mid)
    ensures CutShort(run)
  {
  }

  lemma FinalCall(form: Form, s: Progress, offset: nat, rounds: nat)
    requires s.curItem == |form.providers| && rounds > 0 && (offset == 0 ==> form.items == [])
    ensures EndsWith(form, Run(form, s, offset, rounds), "")
  {
    hide Run, Finish, Available;
    var ops := [C.Write(Finish(form.boundary)), C.Done];
    RunStep(form, s, offset, rounds);
    LastDecides(ops);
    assert [] + ops == ops;
    OneWrite("");
  }

  function ReadFrom(form: Form, ns: seq<nat>, i: nat): string
    requires AllFinish(form.providers, ns) && i <= |ns|
  {
    Serialize(ReadItems(form.providers, ns)[i..], form.boundary)
  }

  lemma ReadFromStep(form: Form, ns: seq<nat>, i: nat)
    requires AllFinish(form.providers, ns) && i < |ns|
    ensures ReadFrom(form, ns, i) == Item(ReadItems(form.providers, ns)[i], form.boundary) + ReadFrom(form, ns, i + 1)
  {
    hide Item;
    var r := ReadItems(form.providers, ns);
    assert r[i..][0] == r[i] && r[i..][1..] == r[i + 1..];
  }

  lemma SumStep(ns: seq<nat>, i: nat)
    requires i < |ns|
    ensures Sum(ns[i..]) == ns[i] + Sum(ns[i + 1..])
  {
    assert ns[i..][0] == ns[i] && ns[i..][1..] == ns[i + 1..];
  }

  lemma {:induction false} ProvidersRun(form: Form, ns: seq<nat>, i: nat, offset: nat, rounds: nat)
    requires AllFinish(form.providers, ns) && i <= |ns| && rounds > Sum(ns[i..]) && (offset == 0 ==> form.items == [])
    ensures var run := Run(form, Progress(i, 0, 0), offset, rounds);
            if forall j :: i <= j < |ns| ==> Flowing(form.providers[j].read, 0, 0, ns[j])
            then EndsWith(form, run, ReadFrom(form, ns, i))
            else CutShort(run)
    decreases |ns| - i
  {
    hide Run, Item, Continues, EndsWith, CutShort, Sum, ReadFrom, Flowing;
    var run := Run(form, Progress(i, 0, 0), offset, rounds);
    if i == |ns| {
      FinalCall(form, Progress(i, 0, 0), offset, rounds);
      NothingRead(form, ns);
    } else {
      var p := form.providers[i];
      SumStep(ns, i);
      assert Finishes(p.read, 0, 0, ns[i]);
      WholeItem(form, i, offset, ns[i], rounds);
      if Flowing(p.read, 0, 0, ns[i]) {
        var text := Item(Part(p.file, ReadAll(p.read, 0, 0, ns[i])), form.boundary);
        var next := Run(form, Progress(i + 1, 0, 0), offset + |text|, rounds - ns[i]);
        ItemIsLong(Part(p.file, ReadAll(p.read, 0, 0, ns[i])), form.boundary);
        ProvidersRun(form, ns, i + 1, offset + |text|, rounds - ns[i]);
        ReadFromStep(form, ns, i);
        if forall j :: i + 1 <= j < |ns| ==> Flowing(form.providers[j].read, 0, 0, ns[j]) {
          EndsWithMore(form, run, text, next, ReadFrom(form, ns, i + 1));
        } else {
          CutShortMore(run, text, next);
        }
      }
    }
  }

  lemma ItemIsLong(p: Part, boundary: string)
    ensures |Item(p, boundary)| > 0
  {
    hide ItemBegin;
  }

  lemma NothingRead(form: Form, ns: seq<nat>)
    requires AllFinish(form.providers, ns)
    ensures ReadFrom(form, ns, |ns|) == "" && (|ns| == |form.providers|)
  {
  }

  lemma {:induction false} SerializeJoin(xs: seq<Part>, ys: seq<Part>, boundary: string)
    ensures Serialize(xs + ys, boundary) == Serialize(xs, boundary) + Serialize(ys, boundary)
  {
    hide Item;
    if xs == [] {
      assert xs + ys == ys;
    } else {
      assert (xs + ys)[1..] == xs[1..] + ys;
      SerializeJoin(xs[1..], ys, boundary);
      Assoc(Item(xs[0], boundary), Serialize(xs[1..], boundary), Serialize(ys, boundary));
    }
  }

  /** The items a form stands for: the given ones, then the ones read through providers. */
  function AllItems(form: Form, ns: seq<nat>): seq<Part>
    requires AllFinish(form.providers, ns)
  {
    form.items + ReadItems(form.providers, ns)
  }

  lemma FormRun(form: Form, ns: seq<nat>, rounds: nat)
    requires AllFinish(form.providers, ns) && rounds > 1 + Sum(ns)
    ensures var run := Run(form, BEGINNING, 0, rounds);
            if AllFlow(form.providers, ns) then EndsWith(form, run, Serialize(AllItems(form, ns), form.boundary))
            else CutShort(run)
  {
    hide Run, Serialize, EndsWith, CutShort, Flowing, Sum, Available;
    var read := ReadItems(form.providers, ns);
    assert read[0..] == read && ns[0..] == ns;
    SerializeJoin(form.items, read, form.boundary);
    var text := Serialize(form.items, form.boundary);
    var run := Run(form, BEGINNING, 0, rounds);
    if form.items == [] {
      SerializeNothing(form.boundary, ReadFrom(form, ns, 0));
      ProvidersRun(form, ns, 0, 0, rounds);
    } else {
      SerializeIsLong(form.items, form.boundary);
      var ops := [C.Write(text)];
      assert Provide(form, BEGINNING, 0) == Reply(BEGINNING, ops, true);
      RunStep(form, BEGINNING, 0, rounds);
      LastDecides(ops);
      OneWrite(text);
      var next := Run(form, BEGINNING, |text|, rounds - 1);
      ProvidersRun(form, ns, 0, |text|, rounds - 1);
      assert OnlyWrites(ops) && run == Prefixed(ops, next);
      if AllFlow(form.providers, ns) {
        EndsWithMore(form, run, text, next, ReadFrom(form, ns, 0));
      } else {
        CutShortMore(run, text, next);
      }
    }
  }

  lemma SerializeNothing(boundary: string, s: string)
    ensures Serialize([], boundary) + s == s
  {
  }

  lemma SerializeIsLong(items: seq<Part>, boundary: string)
    requires items != []
    ensures |Serialize(items, boundary)| > 0
  {
    ItemIsLong(items[0], boundary);
  }

  /** No reader accepts a stream of chunks that was never ended. */
  lemma {:induction false} WritesAlone(ops: seq<SinkOp>)
    requires OnlyWrites(ops)
    ensures !C.Decode(C.Wire(ops)).ok
  {
    if ops != [] {
      hide C.Decode, C.Chunk;
      WritesAlone(ops[1..]);
      var data, rest := ops[0].data, C.Wire(ops[1..]);
      if data == "" {
        assert "" + rest == rest;
      } else if |data| < C.ULONG_MAX {
        C.DecodeChunk(data, rest);
      } else {
        C.DecodeHugeChunk(data, rest);
      }
    }
  }

  /** Each write is part of what is written. */
  lemma {:induction false} WritesFit(ops: seq<SinkOp>, n: nat)
    requires OnlyWrites(ops) && |C.Written(ops)| < n
    ensures forall i :: 0 <= i < |ops| ==> |ops[i].data| < n
  {
    if ops != [] {
      WritesFit(ops[1..], n);
      forall i | 0 <= i < |ops| ensures |ops[i].data| < n {
        if i > 0 {
          assert ops[i] == ops[1..][i - 1];
        }
      }
    }
  }

  /**
   * The writer reports success, and what it puts on the stream is the coding of exactly the form that
   * `serialize_multipart_formdata` prints for all the items, if and only if no call of an item's provider but its last
   * ends with an empty write. Otherwise no chunked reader accepts the stream.
   */
  lemma UploadExactly(form: Form, ns: seq<nat>, rounds: nat)
    requires AllFinish(form.providers, ns) && rounds > 1 + Sum(ns)
    requires |Serialize(AllItems(form, ns), form.boundary) + Finish(form.boundary)| < C.ULONG_MAX
    ensures var run := Run(form, BEGINNING, 0, rounds);
            var text := Serialize(AllItems(form, ns), form.boundary) + Finish(form.boundary);
            && run.outcome == Completed
            && (AllFlow(form.providers, ns) <==> C.Decode(C.Wire(run.ops)) == C.Decoded(text, true, "", []))
            && (!AllFlow(form.providers, ns) ==> !C.Decode(C.Wire(run.ops)).ok)
  {
    hide Run, Serialize, Finish, AllItems, C.Decode, C.Wire, Flowing, Sum;
    FormRun(form, ns, rounds);
    var run := Run(form, BEGINNING, 0, rounds);
    var text, end := Serialize(AllItems(form, ns), form.boundary), Finish(form.boundary);
    if AllFlow(form.providers, ns) {
      var ops :| OnlyWrites(ops) && C.Written(ops) == text && run == Driven(ops + [C.Write(end), C.Done], Completed);
      EndedForm(ops, end);
    } else {
      WritesAlone(run.ops);
    }
  }

  /** A provider that writes nothing once before it is done. */
  function Hesitant(k: nat, offset: int): ItemReply { if k == 0 then ItemReply([""], false, true) else ItemReply([], true, true) }

  /** Its upload counts as a success, and the receiver refuses it. */
  lemma HesitantUpload(rounds: nat)
    requires rounds > 3
    ensures var form := Form("b", [], [ProviderItem(NO_FILE, Hesitant)]);
            && AllFinish(form.providers, [2]) && !AllFlow(form.providers, [2])
            && var run := Run(form, BEGINNING, 0, rounds);
            run.outcome == Completed && !C.Decode(C.Wire(run.ops)).ok
  {
    hide Run, C.Decode, C.Wire;
    var form := Form("b", [], [ProviderItem(NO_FILE, Hesitant)]);
    assert Finishes(Hesitant, 1, 0, 1);
    assert Concat([""]) == "" by { assert [""][1..] == []; }
    assert Finishes(Hesitant, 0, 0, 2);
    assert !Flowing(Hesitant, 0, 0, 2);
    assert Sum([2]) == 2 by { assert [2][1..] == []; }
    HesitantForm(form);
    UploadExactly(form, [2], rounds);
  }

  lemma HesitantForm(form: Form)
    requires form == Form("b", [], [ProviderItem(NO_FILE, Hesitant)]) && AllFinish(form.providers, [2])
    ensures |Serialize(AllItems(form, [2]), form.boundary) + Finish(form.boundary)| < C.ULONG_MAX
  {
  }

  lemma EndedForm(ops: seq<SinkOp>, end: string)
    requires OnlyWrites(ops) && |C.Written(ops) + end| < C.ULONG_MAX
    ensures C.Decode(C.Wire(ops + [C.Write(end), C.Done])) == C.Decoded(C.Written(ops) + end, true, "", [])
  {
    hide C.Decode, C.Wire;
    var last := [C.Write(end), C.Done];
    WritesFit(ops, C.ULONG_MAX);
    WireAppend(ops, last);
    FinishedAfterWrites(ops, last);
    assert last[1..] == [C.Done] && [C.Done][1..] == [];
    assert C.Finished([C.Done]) && C.Finished(last);
    assert C.Written([C.Done]) == "" + C.Written([]) == "";
    assert C.Written(last) == end + C.Written([C.Done]) == end;
    assert C.SentFields(last) == [];
    forall op | op in ops + last ensures C.OpOk(op) {
      if op in ops {
        var i :| 0 <= i < |ops| && ops[i] == op;
      }
    }
    C.RoundTripExactly(ops + last);
  }

  // ----- From the sender's items to the receiver's callbacks -----

  /**
   * The whole way: the provider under the chunked writer, any pieces the chunked reader may hand over, and the form
   * parser, give the receiver the sender's items, unless a piece ends inside the first delimiter line.
   */
  lemma EndToEnd(form: Form, ns: seq<nat>, rounds: nat, c: Config, pieces: seq<string>)
    requires AllFinish(form.providers, ns) && rounds > 1 + Sum(ns) && AllFlow(form.providers, ns)
    requires |Serialize(AllItems(form, ns), form.boundary) + Finish(form.boundary)| < C.ULONG_MAX
    requires c.boundary == form.boundary && '\r' !in c.boundary && c.AcceptsContent() && AllItems(form, ns) != []
    requires forall item :: item in AllItems(form, ns) ==> ItemOk(c, item)
    requires AcceptsHeaders(c, |AllItems(form, ns)|)
    requires Concat(pieces) == C.Decode(C.Wire(Run(form, BEGINNING, 0, rounds).ops)).payload
    requires Whole(c.DashBoundaryCrlf(), pieces)
    ensures C.Decode(C.Wire(Run(form, BEGINNING, 0, rounds).ops)).ok
    ensures See(Feed(c, START, pieces)) == View(true, true, AllItems(form, ns))
  {
    hide Run, Serialize, Finish, AllItems, C.Decode, C.Wire, Flowing, Sum, ItemOk, Feed, Whole;
    UploadExactly(form, ns, rounds);
    RoundTrip(c, AllItems(form, ns), pieces);
  }

  /**
   * Receives a form: the reader hands over pieces until the parser refuses one, and the parser object takes them. Whatever
   * the socket's read sizes, on a sound connection the parser and the receiver end as feeding them the decoded payload in
   * those pieces makes them.
   */
  method ReceiveForm(strm: Streams.SocketStream, c: Config) returns (ok: bool, result: View, ghost pieces: seq<string>)
    requires strm.Valid()
    modifies strm.Frame()
    ensures strm.Valid() && result == See(Feed(c, START, pieces))
    ensures Concat(pieces) <= C.Decode(old(strm.Pending())).payload
    ensures ok ==> result.ok && C.Decode(old(strm.Pending())).ok && Concat(pieces) == C.Decode(old(strm.Pending())).payload
    ensures !strm.sock.faulty && result.ok ==>
      ok == C.Decode(old(strm.Pending())).ok && Concat(pieces) == C.Decode(old(strm.Pending())).payload
  {
    hide Feed, C.Decode, Concat, C.Trailer;
    var out := new Streams.PieceSink(ps => Feed(c, START, ps).ok);
    var fields;
    ok, fields, pieces := Streams.ReadContentChunked(strm, out);
    assert [] + pieces == pieces;
    FeedNothing(c);
    assert out.accept(out.pieces) == Feed(c, START, pieces).ok;
    var r := new Receiver(c.onHeader, c.onContent);
    var parser := new MultipartFormDataParser(c.boundary);
    var last := ParsePieces(parser, r, out.pieces);
    result := View(last, parser.isValid, r.parts);
  }

  lemma FeedNothing(c: Config)
    ensures Feed(c, START, []).ok
  {
  }
}

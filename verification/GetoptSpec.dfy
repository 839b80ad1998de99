/** Reading one option, and the one-pass scanner that never moves an argument. */
module GetoptSpec {
  import opened Bytes

  datatype Ordering = RequireOrder | Permute | ReturnInOrder

  /** `flag` names the variable an option sets, if any. */
  datatype LongOption = LongOption(name: string, hasArg: int, flag: Option<nat>, val: int)

  datatype Config = Config(optstring: string, longopts: Option<seq<LongOption>>, longOnly: bool, posixlyCorrect: bool)
  {
    /** The option letters, without the leading mark. */
    function Letters(): string {
      if optstring != "" && (optstring[0] == '-' || optstring[0] == '+') then optstring[1..] else optstring
    }
    function Order(): Ordering {
      if optstring != "" && optstring[0] == '-' then ReturnInOrder
      else if optstring != "" && optstring[0] == '+' then RequireOrder
      else if posixlyCorrect then RequireOrder
      else Permute
    }
    /** The character at `k`, or the terminator. */
    function LetterAt(k: nat): char { if k < |Letters()| then Letters()[k] else '\0' }
    /** The position of a letter in the option string. */
    function Place(c: char): Option<nat> {
      var k := Find(Letters(), [c]);
      if k < |Letters()| then Some(k) else None
    }
    function Missing(): int { if LetterAt(0) == ':' then ':' as int else '?' as int }
    /** The letter is `W`, declared as `W;`: `-W name` stands for `--name`. */
    predicate IsW(c: char) {
      var k := Place(c);
      c == 'W' && k.Some? && LetterAt(k.value + 1) == ';'
    }
  }

  /** What a call leaves for its caller: the value, `optarg`, `optopt`, the long index and the flag it set. */
  datatype Outcome = Outcome(ret: int, optarg: Option<string>, optopt: int, longind: Option<nat>, flag: Option<(nat, int)>)

  /** An outcome with the next `optind` and the unread part of the current element. */
  datatype Scan = Scan(out: Outcome, optind: nat, nextchar: string)

  predicate NonOption(a: string) { |a| < 2 || a[0] != '-' }

  // ----- Long options -----

  function OptionName(nc: string): string { nc[..Find(nc, "=")] }

  datatype Match = NoMatch | Ambiguous | Found(index: nat)

  predicate SameEffect(a: LongOption, b: LongOption) { a.hasArg == b.hasArg && a.flag == b.flag && a.val == b.val }

  /** The search from option `k` on, with the first match so far. */
  function MatchFrom(los: seq<LongOption>, name: string, longOnly: bool, k: nat, found: Option<nat>, ambiguous: bool): (m: Match)
    requires k <= |los| && (found.Some? ==> found.value < k)
    ensures m.Found? ==> m.index < |los|
    decreases |los| - k
  {
    if k == |los| then
      if ambiguous then Ambiguous else if found.Some? then Found(found.value) else NoMatch
    else if name <= los[k].name then
      if |name| == |los[k].name| then Found(k)
      else if found.None? then MatchFrom(los, name, longOnly, k + 1, Some(k), ambiguous)
      else MatchFrom(los, name, longOnly, k + 1, found, ambiguous || longOnly || !SameEffect(los[found.value], los[k]))
    else MatchFrom(los, name, longOnly, k + 1, found, ambiguous)
  }

  function MatchLong(los: seq<LongOption>, name: string, longOnly: bool): (m: Match)
    ensures m.Found? ==> m.index < |los|
  {
    MatchFrom(los, name, longOnly, 0, None, false)
  }

  predicate Abbreviates(los: seq<LongOption>, name: string, k: int) { 0 <= k < |los| && name <= los[k].name }

  /** Another option that a name abbreviates, which keeps it from standing for option `k`. */
  predicate Rivals(los: seq<LongOption>, name: string, longOnly: bool, k: int, j: int) {
    Abbreviates(los, name, k) && k < j && Abbreviates(los, name, j) && (longOnly || !SameEffect(los[k], los[j]))
  }

  /**
   * What a name stands for: the first option of exactly that name; if there is none, the first option that it abbreviates,
   * unless a later one that it abbreviates differs in effect.
   */
  ghost predicate StandsFor(los: seq<LongOption>, name: string, longOnly: bool, m: Match) {
    if exists k :: 0 <= k < |los| && los[k].name == name then
      m.Found? && m.index < |los| && los[m.index].name == name && forall j :: 0 <= j < m.index ==> los[j].name != name
    else if exists k :: Abbreviates(los, name, k) then
      exists k ::
        && Abbreviates(los, name, k) && (forall j :: 0 <= j < k ==> !Abbreviates(los, name, j))
        && m == if exists j :: Rivals(los, name, longOnly, k, j) then Ambiguous else Found(k)
    else m == NoMatch
  }

  lemma {:induction false} SearchOn(los: seq<LongOption>, name: string, longOnly: bool, k: nat, found: Option<nat>, ambiguous: bool)
    requires k <= |los| && (found.Some? ==> found.value < k) && forall j :: 0 <= j < k ==> los[j].name != name
    requires forall j :: 0 <= j < k && Abbreviates(los, name, j) ==> found.Some? && found.value <= j
    requires found.Some? ==> Abbreviates(los, name, found.value)
    requires ambiguous <==> found.Some? && exists j :: j < k && Rivals(los, name, longOnly, found.value, j)
    ensures StandsFor(los, name, longOnly, MatchFrom(los, name, longOnly, k, found, ambiguous))
    decreases |los| - k
  {
    if k < |los| && los[k].name != name {
      if name <= los[k].name && found.None? {
        SearchOn(los, name, longOnly, k + 1, Some(k), ambiguous);
      } else if name <= los[k].name {
        var rivals := longOnly || !SameEffect(los[found.value], los[k]);
        assert rivals ==> Rivals(los, name, longOnly, found.value, k);
        SearchOn(los, name, longOnly, k + 1, found, ambiguous || rivals);
      } else {
        SearchOn(los, name, longOnly, k + 1, found, ambiguous);
      }
    } else if k == |los| && found.Some? {
      assert Abbreviates(los, name, found.value);
    }
  }

  lemma MatchLongExactly(los: seq<LongOption>, name: string, longOnly: bool, m: Match)
    ensures MatchLong(los, name, longOnly) == m <==> StandsFor(los, name, longOnly, m)
  {
    SearchOn(los, name, longOnly, 0, None, false);
    if StandsFor(los, name, longOnly, m) {
      StandsForOne(los, name, longOnly, m, MatchLong(los, name, longOnly));
    }
  }

  lemma StandsForOne(los: seq<LongOption>, name: string, longOnly: bool, m: Match, n: Match)
    requires StandsFor(los, name, longOnly, m) && StandsFor(los, name, longOnly, n)
    ensures m == n
  {
  }

  predicate TriesLong(cfg: Config, a: string)
    requires |a| >= 2
  {
    cfg.longopts.Some? && (a[1] == '-' || (cfg.longOnly && (|a| > 2 || cfg.Place(a[1]).None?)))
  }

  /** An option that was recognised as long option `k`. */
  function TakeLong(cfg: Config, args: seq<string>, i: nat, nc: string, k: nat, optopt: int): Scan
    requires i < |args| && cfg.longopts.Some? && k < |cfg.longopts.value|
  {
    var p := cfg.longopts.value[k];
    var eq := Find(nc, "=");
    var ret := if p.flag.Some? then 0 else p.val;
    var flag := if p.flag.Some? then Some((p.flag.value, p.val)) else None;
    if eq < |nc| then
      if p.hasArg != 0 then Scan(Outcome(ret, Some(nc[eq + 1..]), optopt, Some(k), flag), i + 1, "")
      else Scan(Outcome('?' as int, None, p.val, None, None), i + 1, "")
    else if p.hasArg == 1 then
      if i + 1 < |args| then Scan(Outcome(ret, Some(args[i + 1]), optopt, Some(k), flag), i + 2, "")
      else Scan(Outcome(cfg.Missing(), None, p.val, None, None), i + 1, "")
    else Scan(Outcome(ret, None, optopt, Some(k), flag), i + 1, "")
  }

  /** `text`, which came with a `-W`, as a long option; `i` is the element after it. */
  function TakeNamed(cfg: Config, args: seq<string>, i: nat, text: string, optopt: int): Scan
    requires i <= |args| && cfg.longopts.Some?
  {
    match MatchLong(cfg.longopts.value, OptionName(text), cfg.longOnly)
    case Ambiguous => Scan(Outcome('?' as int, Some(text), optopt, None, None), i + 1, "")  // an element too far
    case NoMatch => Scan(Outcome('W' as int, Some(text), optopt, None, None), i, "")
    case Found(k) =>
      var p := cfg.longopts.value[k];
      var eq := Find(text, "=");
      var ret := if p.flag.Some? then 0 else p.val;
      var flag := if p.flag.Some? then Some((p.flag.value, p.val)) else None;
      if eq < |text| then
        if p.hasArg != 0 then Scan(Outcome(ret, Some(text[eq + 1..]), optopt, Some(k), flag), i, "")
        else Scan(Outcome('?' as int, Some(text), optopt, None, None), i, "")
      else if p.hasArg == 1 then
        if i < |args| then Scan(Outcome(ret, Some(args[i]), optopt, Some(k), flag), i + 1, "")
        else Scan(Outcome(cfg.Missing(), Some(text), optopt, None, None), i, "")
      else Scan(Outcome(ret, None, optopt, Some(k), flag), i, "")
  }

  /** A `-W` in the element `args[i]`, with `rest` behind it. */
  function TakeW(cfg: Config, args: seq<string>, i: nat, rest: string, optopt: int): Scan
    requires i < |args|
  {
    if cfg.longopts.None? then
      Scan(Outcome('W' as int, None, optopt, None, None), if rest == "" then i + 1 else i, "")  // the rest is dropped
    else if rest != "" then TakeNamed(cfg, args, i + 1, rest, optopt)
    else if i + 1 == |args| then Scan(Outcome(cfg.Missing(), None, 'W' as int, None, None), i + 1, "")
    else TakeNamed(cfg, args, i + 2, args[i + 1], optopt)
  }

  /** The first letter of `nc` as a short option. */
  function TakeShort(cfg: Config, args: seq<string>, i: nat, nc: string, optopt: int): Scan
    requires i < |args| && nc != ""
  {
    var c, rest := nc[0], nc[1..];
    var after := if rest == "" then i + 1 else i;
    var place := cfg.Place(c);
    if place.None? || c == ':' || c == ';' then Scan(Outcome('?' as int, None, c as int, None, None), after, rest)
    else if cfg.IsW(c) then TakeW(cfg, args, i, rest, optopt)
    else if cfg.LetterAt(place.value + 1) != ':' then Scan(Outcome(c as int, None, optopt, None, None), after, rest)
    else if rest != "" then Scan(Outcome(c as int, Some(rest), optopt, None, None), i + 1, "")
    else if cfg.LetterAt(place.value + 2) == ':' then Scan(Outcome(c as int, None, optopt, None, None), after, "")
    else if after == |args| then Scan(Outcome(cfg.Missing(), None, c as int, None, None), after, "")
    else Scan(Outcome(c as int, Some(args[after]), optopt, None, None), after + 1, "")
  }

  /** The text is not read as a long option, or is no long option and may be a short one. */
  predicate ReadsShort(cfg: Config, a: string, nc: string)
    requires |a| >= 2 && nc != ""
  {
    TriesLong(cfg, a) ==>
      && MatchLong(cfg.longopts.value, OptionName(nc), cfg.longOnly) == NoMatch
      && cfg.longOnly && a[1] != '-' && cfg.Place(nc[0]).Some?
  }

  /** One option of the element `args[i]`, of which `nc` is unread. */
  function ScanOption(cfg: Config, args: seq<string>, i: nat, nc: string, optopt: int): Scan
    requires i < |args| && |args[i]| >= 2 && nc != ""
  {
    if ReadsShort(cfg, args[i], nc) then TakeShort(cfg, args, i, nc, optopt)
    else
      match MatchLong(cfg.longopts.value, OptionName(nc), cfg.longOnly)
      case Found(k) => TakeLong(cfg, args, i, nc, k, optopt)
      case _ => Scan(Outcome('?' as int, None, 0, None, None), i + 1, "")
  }

  /** A `-W` with text attached, and no long options: the text is dropped and the element is read again from its start. */
  predicate Rereads(cfg: Config, nc: string) { |nc| > 1 && cfg.longopts.None? && cfg.IsW(nc[0]) }

  /** An ambiguous name after `-W` at the end of the arguments, which moves `optind` past that end. */
  predicate Oversteps(cfg: Config, args: seq<string>, i: nat, nc: string)
    requires i < |args| && |args[i]| >= 2 && nc != ""
  {
    && cfg.longopts.Some? && cfg.IsW(nc[0]) && ReadsShort(cfg, args[i], nc)
    && (if |nc| > 1 then i + 1 == |args| else i + 2 == |args|)
    && MatchLong(cfg.longopts.value, OptionName(if |nc| > 1 then nc[1..] else args[i + 1]), cfg.longOnly) == Ambiguous
  }

  /** What is read of an element when its scan begins. */
  function Opening(cfg: Config, a: string): (nc: string)
    requires !NonOption(a) && a != "--"
    ensures nc != ""
  {
    if cfg.longopts.Some? && a[1] == '-' then a[2..] else a[1..]
  }

  // ----- The one-pass scanner -----

  /** How far it is, what is unread of the current element, and the elements taken and set aside so far. */
  datatype Progress = Progress(optind: nat, nextchar: string, taken: seq<string>, operands: seq<string>, optopt: int)

  predicate Sound(args: seq<string>, p: Progress) {
    && p.optind <= |args|
    && (p.nextchar != "" ==> p.optind < |args| && !NonOption(args[p.optind]) && |p.nextchar| < |args[p.optind]|)
  }

  /** `ended`: there are no more options. */
  datatype Step = Step(out: Outcome, next: Progress, ended: bool)

  function End(optopt: int): Outcome { Outcome(-1, None, optopt, None, None) }

  /** Sets aside the operands at the front. */
  function SkipOperands(args: seq<string>, p: Progress): (q: Progress)
    requires p.optind <= |args|
    ensures p.optind <= q.optind <= |args| && q == p.(optind := q.optind, operands := q.operands)
    ensures q.optind < |args| ==> !NonOption(args[q.optind])
    ensures q.operands == p.operands + args[p.optind..q.optind]
    ensures forall k :: p.optind <= k < q.optind ==> NonOption(args[k])
    decreases |args| - p.optind
  {
    if p.optind < |args| && NonOption(args[p.optind]) then
      SkipOperands(args, p.(optind := p.optind + 1, operands := p.operands + [args[p.optind]]))
    else p
  }

  /** An option of the current element; the elements it uses up are taken. */
  function TakeOption(cfg: Config, args: seq<string>, p: Progress, nc: string): Step
    requires p.optind < |args| && |args[p.optind]| >= 2 && nc != ""
    requires p.optind <= ScanOption(cfg, args, p.optind, nc, p.optopt).optind
  {
    var s := ScanOption(cfg, args, p.optind, nc, p.optopt);
    Step(s.out, Progress(s.optind, s.nextchar, p.taken + args[p.optind..Min(s.optind, |args|)], p.operands, s.out.optopt), false)
  }

  function Min(a: nat, b: nat): nat { if a > b then b else a }

  /** A call between two elements: the operands are skipped if they may be moved. */
  function Skipped(cfg: Config, args: seq<string>, p: Progress): (q: Progress)
    requires p.optind <= |args|
    ensures p.optind <= q.optind <= |args| && q == p.(optind := q.optind, operands := q.operands)
  {
    if cfg.Order().Permute? then SkipOperands(args, p) else p
  }

  /** What a call does at an element that is no option, or at the end. */
  function AtElement(cfg: Config, args: seq<string>, q: Progress): (s: Option<Step>)
    requires q.optind <= |args|
    ensures s.None? ==> q.optind < |args| && !NonOption(args[q.optind]) && args[q.optind] != "--"
  {
    if q.optind < |args| && args[q.optind] == "--" then
      Some(Step(End(q.optopt), q.(optind := |args|, taken := q.taken + ["--"], operands := q.operands + args[q.optind + 1..]), true))
    else if q.optind == |args| then Some(Step(End(q.optopt), q, true))
    else if NonOption(args[q.optind]) then
      if cfg.Order().RequireOrder? then
        Some(Step(End(q.optopt), q.(optind := |args|, operands := q.operands + args[q.optind..]), true))
      else
        Some(Step(Outcome(1, Some(args[q.optind]), q.optopt, None, None),
                  q.(optind := q.optind + 1, taken := q.taken + [args[q.optind]]), false))
    else None
  }

  /** The text that a call reads an option from, unless it ends before that. */
  function Reading(cfg: Config, args: seq<string>, p: Progress): (nc: Option<string>)
    requires Sound(args, p)
    ensures nc.Some? ==> var i := Current(cfg, args, p).optind; nc.value != "" && i < |args| && !NonOption(args[i])
  {
    if p.nextchar != "" then Some(p.nextchar)
    else
      var q := Skipped(cfg, args, p);
      if AtElement(cfg, args, q).Some? then None else Some(Opening(cfg, args[q.optind]))
  }

  /** Where it reads it. */
  function Current(cfg: Config, args: seq<string>, p: Progress): (q: Progress)
    requires Sound(args, p)
    ensures p.optind <= q.optind <= |args| && q == p.(optind := q.optind, operands := q.operands)
  {
    if p.nextchar != "" then p else Skipped(cfg, args, p)
  }

  /** One call of the reference scanner. */
  function RefCall(cfg: Config, args: seq<string>, p: Progress): Step
    requires Sound(args, p)
  {
    var q := Current(cfg, args, p);
    match Reading(cfg, args, p)
    case None => AtElement(cfg, args, q).value
    case Some(nc) => ScanBounds(cfg, args, q.optind, nc, q.optopt); TakeOption(cfg, args, q, nc)
  }

  lemma NamedBounds(cfg: Config, args: seq<string>, i: nat, text: string, optopt: int)
    requires i <= |args| && cfg.longopts.Some?
    ensures var s := TakeNamed(cfg, args, i, text, optopt);
            && i <= s.optind <= |args| + 1 && s.nextchar == ""
            && (s.optind > |args| <==>
                  i == |args| && MatchLong(cfg.longopts.value, OptionName(text), cfg.longOnly) == Ambiguous)
  {
    hide MatchLong, Find;
  }

  /** How far an option moves the scan: on, unless it is read again, and not past the end, unless it oversteps it. */
  lemma ScanBounds(cfg: Config, args: seq<string>, i: nat, nc: string, optopt: int)
    requires i < |args| && |args[i]| >= 2 && nc != ""
    ensures var s := ScanOption(cfg, args, i, nc, optopt);
            && i <= s.optind <= |args| + 1
            && (s.optind > |args| <==> Oversteps(cfg, args, i, nc))
            && (s.nextchar != "" ==> s.optind == i && |s.nextchar| < |nc| && !Rereads(cfg, nc))
            && (s.nextchar == "" ==> (s.optind == i <==> Rereads(cfg, nc)))
  {
    hide MatchLong, Find, TakeNamed;
    if cfg.longopts.Some? && cfg.IsW(nc[0]) {
      if |nc| > 1 {
        NamedBounds(cfg, args, i + 1, nc[1..], optopt);
      } else if i + 1 < |args| {
        NamedBounds(cfg, args, i + 2, args[i + 1], optopt);
      }
    }
  }

  /** The characters still to scan: the unread part of the current element, then whole elements and their ends. */
  function Left(args: seq<string>, i: nat): nat
    requires i <= |args|
    decreases |args| - i
  {
    if i == |args| then 0 else |args[i]| + 1 + Left(args, i + 1)
  }

  function Unread(args: seq<string>, p: Progress): nat
    requires Sound(args, p)
  {
    if p.nextchar != "" then |p.nextchar| + Left(args, p.optind + 1) else Left(args, p.optind)
  }

  lemma {:induction false} LeftFalls(args: seq<string>, i: nat, j: nat)
    requires i <= j <= |args|
    ensures Left(args, j) <= Left(args, i) && (i < j ==> Left(args, j) < Left(args, i))
    decreases j - i
  {
    if i < j {
      LeftFalls(args, i + 1, j);
    }
  }

  lemma SkipUnread(args: seq<string>, p: Progress)
    requires Sound(args, p) && p.nextchar == ""
    ensures var q := SkipOperands(args, p); Sound(args, q) && Unread(args, q) <= Unread(args, p)
  {
    LeftFalls(args, p.optind, SkipOperands(args, p).optind);
  }

  lemma TakeUnread(cfg: Config, args: seq<string>, p: Progress, nc: string)
    requires Sound(args, p) && p.optind < |args| && !NonOption(args[p.optind]) && nc != ""
    requires if p.nextchar != "" then nc == p.nextchar else |nc| < |args[p.optind]|
    ensures var s := ScanOption(cfg, args, p.optind, nc, p.optopt);
            && p.optind <= s.optind <= |args| + 1
            && var next := TakeOption(cfg, args, p, nc).next;
            && (Sound(args, next) <==> !Oversteps(cfg, args, p.optind, nc))
            && (Sound(args, next) ==> (Unread(args, next) < Unread(args, p) <==> !Rereads(cfg, nc)))
  {
    hide ScanOption, Oversteps, Rereads;
    ScanBounds(cfg, args, p.optind, nc, p.optopt);
    var s := ScanOption(cfg, args, p.optind, nc, p.optopt);
    if s.nextchar == "" && p.optind < s.optind <= |args| {
      LeftFalls(args, p.optind + 1, s.optind);
    }
  }

  /**
   * Every call that does not end the scan stays inside the arguments unless it oversteps them, and leaves fewer characters
   * to scan unless it drops the text of a `-W`.
   */
  lemma CallProgress(cfg: Config, args: seq<string>, p: Progress)
    requires Sound(args, p)
    ensures var r, q, nc := RefCall(cfg, args, p), Current(cfg, args, p), Reading(cfg, args, p);
            && (nc.Some? ==> !r.ended)
            && (Sound(args, r.next) <==> nc.None? || !Oversteps(cfg, args, q.optind, nc.value))
            && (!r.ended && Sound(args, r.next) && (nc.None? || !Rereads(cfg, nc.value)) ==> Unread(args, r.next) < Unread(args, p))
            && (nc.Some? && Rereads(cfg, nc.value) ==> r.next == q.(nextchar := "") && r.out.ret == 'W' as int)
  {
    hide ScanOption, TakeOption, Oversteps, Rereads;
    var q := Current(cfg, args, p);
    if p.nextchar != "" {
      TakeUnread(cfg, args, p, p.nextchar);
      RereadIs(cfg, args, p, p.nextchar);
    } else {
      if cfg.Order().Permute? {
        SkipUnread(args, p);
      }
      if q.optind < |args| && args[q.optind] != "--" {
        if NonOption(args[q.optind]) {
          LeftFalls(args, q.optind, q.optind + 1);
        } else {
          TakeUnread(cfg, args, q, Opening(cfg, args[q.optind]));
          RereadIs(cfg, args, q, Opening(cfg, args[q.optind]));
        }
      }
    }
  }

  lemma RereadIs(cfg: Config, args: seq<string>, p: Progress, nc: string)
    requires p.optind < |args| && |args[p.optind]| >= 2 && nc != ""
    ensures p.optind <= ScanOption(cfg, args, p.optind, nc, p.optopt).optind
    ensures !TakeOption(cfg, args, p, nc).ended
    ensures Rereads(cfg, nc) ==>
              TakeOption(cfg, args, p, nc).next == p.(nextchar := "") && TakeOption(cfg, args, p, nc).out.ret == 'W' as int
  {
    hide MatchLong, Find;
    ScanBounds(cfg, args, p.optind, nc, p.optopt);
    assert args[p.optind..p.optind] == [] && p.taken + [] == p.taken;
  }

  /** A scan: the outcomes of its calls, where it stopped, and whether the options had run out. */
  datatype Scanned = Scanned(outs: seq<Outcome>, last: Progress, ended: bool)

  /** Up to `n` calls of a client that stops at the first -1; no call is made from beyond the arguments. */
  function RefRun(cfg: Config, args: seq<string>, p: Progress, n: nat): Scanned
    requires Sound(args, p)
    decreases n
  {
    if n == 0 then Scanned([], p, false)
    else
      var r := RefCall(cfg, args, p);
      if r.ended || r.out.ret == -1 || !Sound(args, r.next) then Scanned([r.out], r.next, r.ended)
      else
        var rest := RefRun(cfg, args, r.next, n - 1);
        rest.(outs := [r.out] + rest.outs)
  }

  /** The client has stopped, or the scan has left the arguments. */
  predicate Stopped(args: seq<string>, run: Scanned) {
    run.outs != [] && (run.ended || run.outs[|run.outs| - 1].ret == -1 || !Sound(args, run.last))
  }

  ghost predicate Ends(cfg: Config, args: seq<string>, p: Progress)
    requires Sound(args, p)
  {
    exists n: nat :: Stopped(args, RefRun(cfg, args, p, n))
  }

  /** There are long options, or there is no `W;`. */
  predicate Steady(cfg: Config) { cfg.longopts.Some? || !cfg.IsW('W') }

  lemma {:induction false} RunStops(cfg: Config, args: seq<string>, p: Progress, n: nat)
    requires Sound(args, p) && Steady(cfg) && n > Unread(args, p)
    ensures Stopped(args, RefRun(cfg, args, p, n))
    decreases n
  {
    hide RefCall, Sound, Unread, Oversteps;
    CallProgress(cfg, args, p);
    var r := RefCall(cfg, args, p);
    if !r.ended && r.out.ret != -1 && Sound(args, r.next) {
      RunStops(cfg, args, r.next, n - 1);
    }
  }

  /** The element `-Wx` of a client without long options is returned for ever. */
  lemma {:induction false} ReturnsForEver(cfg: Config, args: seq<string>, p: Progress, n: nat)
    requires !Steady(cfg) && Sound(args, p) && p.nextchar == "" && p.optind < |args|
    requires |args[p.optind]| > 2 && args[p.optind][..2] == "-W"
    ensures var run := RefRun(cfg, args, p, n);
            && |run.outs| == n && (forall k :: 0 <= k < n ==> run.outs[k].ret == 'W' as int)
            && run.last == p && !run.ended && !Stopped(args, run)
    decreases n
  {
    hide RefCall, ScanOption;
    if n > 0 {
      var a := args[p.optind];
      assert a[0] == '-' && a[1] == 'W' && a[1..] != "";
      assert Current(cfg, args, p) == p && Reading(cfg, args, p) == Some(a[1..]);
      CallProgress(cfg, args, p);
      ReturnsForEver(cfg, args, p, n - 1);
    }
  }

  /** Every scan comes to an end if and only if there are long options or no `W;`. */
  lemma EndsExactly(cfg: Config)
    ensures (forall args, p | Sound(args, p) :: Ends(cfg, args, p)) <==> Steady(cfg)
  {
    hide RefRun, Stopped, Unread;
    if Steady(cfg) {
      forall args, p | Sound(args, p) ensures Ends(cfg, args, p) {
        RunStops(cfg, args, p, Unread(args, p) + 1);
      }
    } else {
      var args, p := ["", "-Wx"], Progress(1, "", [], [], 0);
      forall n: nat ensures !Stopped(args, RefRun(cfg, args, p, n)) {
        ReturnsForEver(cfg, args, p, n);
      }
      assert !Ends(cfg, args, p);
    }
  }

  /** `-W` can be given a name that is ambiguous. */
  ghost predicate MisleadsW(cfg: Config) {
    cfg.IsW('W') && cfg.longopts.Some? && exists name :: '=' !in name && MatchLong(cfg.longopts.value, name, cfg.longOnly) == Ambiguous
  }

  lemma NameOnly(nc: string)
    ensures '=' !in OptionName(nc)
    ensures '=' !in nc ==> OptionName(nc) == nc
  {
    var f := Find(nc, "=");
    if k :| 0 <= k < f && nc[k] == '=' {
      assert OccursAt(nc, "=", k);
    }
    if f < |nc| {
      assert nc[f..f + 1] == "=" && nc[f] == nc[f..f + 1][0];
    }
  }

  lemma {:induction false} RunInside(cfg: Config, args: seq<string>, p: Progress, n: nat)
    requires Sound(args, p) && !MisleadsW(cfg)
    ensures Sound(args, RefRun(cfg, args, p, n).last)
    decreases n
  {
    hide RefCall, Sound, Unread, OptionName, MatchLong;
    if n > 0 {
      CallProgress(cfg, args, p);
      var q, nc := Current(cfg, args, p), Reading(cfg, args, p);
      if nc.Some? && Oversteps(cfg, args, q.optind, nc.value) {
        NameOnly(if |nc.value| > 1 then nc.value[1..] else args[q.optind + 1]);
      }
      var r := RefCall(cfg, args, p);
      if !r.ended && r.out.ret != -1 {
        RunInside(cfg, args, r.next, n - 1);
      }
    }
  }

  /** `-W name` with an ambiguous name as the last argument takes `optind` past the end of the array. */
  lemma LeavesArguments(cfg: Config, name: string, p: Progress)
    requires cfg.IsW('W') && cfg.longopts.Some? && '=' !in name
    requires MatchLong(cfg.longopts.value, name, cfg.longOnly) == Ambiguous && p == Progress(1, "", [], [], p.optopt)
    ensures var args := ["", "-W", name];
            Sound(args, p) && RefRun(cfg, args, p, 1).last.optind == |args| + 1
  {
    var args := ["", "-W", name];
    NameOnly(name);
    assert Current(cfg, args, p) == p && Reading(cfg, args, p) == Some("W");
    assert Oversteps(cfg, args, 1, "W");
    CallProgress(cfg, args, p);
    ScanBounds(cfg, args, 1, "W", p.optopt);
  }

  /** No scan leaves the arguments if and only if no name given to `-W` is ambiguous. */
  lemma InsideExactly(cfg: Config)
    ensures (forall args, p, n: nat | Sound(args, p) :: Sound(args, RefRun(cfg, args, p, n).last)) <==> !MisleadsW(cfg)
  {
    hide RefRun, MatchLong;
    if MisleadsW(cfg) {
      var name :| '=' !in name && MatchLong(cfg.longopts.value, name, cfg.longOnly) == Ambiguous;
      var args, p := ["", "-W", name], Progress(1, "", [], [], 0);
      LeavesArguments(cfg, name, p);
      assert Sound(args, p) && !Sound(args, RefRun(cfg, args, p, 1).last);
    } else {
      forall args, p, n: nat | Sound(args, p) ensures Sound(args, RefRun(cfg, args, p, n).last) {
        RunInside(cfg, args, p, n);
      }
    }
  }

  // ----- What the scanner's two lists are -----

  /** `zs` is `xs` and `ys` laid into each other, each in its own order. */
  predicate Interleaves(xs: seq<string>, ys: seq<string>, zs: seq<string>)
    decreases |zs|
  {
    if zs == [] then xs == [] && ys == []
    else
      var z, rest := zs[|zs| - 1], zs[..|zs| - 1];
      || (xs != [] && xs[|xs| - 1] == z && Interleaves(xs[..|xs| - 1], ys, rest))
      || (ys != [] && ys[|ys| - 1] == z && Interleaves(xs, ys[..|ys| - 1], rest))
  }

  lemma {:induction false} MoreTaken(xs: seq<string>, ys: seq<string>, zs: seq<string>, more: seq<string>)
    requires Interleaves(xs, ys, zs)
    ensures Interleaves(xs + more, ys, zs + more)
    decreases |more|
  {
    if more == [] {
      assert xs + more == xs && zs + more == zs;
    } else {
      var m, x := more[..|more| - 1], more[|more| - 1];
      MoreTaken(xs, ys, zs, m);
      assert (xs + more)[..|xs + more| - 1] == xs + m && (zs + more)[..|zs + more| - 1] == zs + m;
    }
  }

  lemma {:induction false} MoreSet(xs: seq<string>, ys: seq<string>, zs: seq<string>, more: seq<string>)
    requires Interleaves(xs, ys, zs)
    ensures Interleaves(xs, ys + more, zs + more)
    decreases |more|
  {
    if more == [] {
      assert ys + more == ys && zs + more == zs;
    } else {
      var m, y := more[..|more| - 1], more[|more| - 1];
      MoreSet(xs, ys, zs, m);
      assert (ys + more)[..|ys + more| - 1] == ys + m && (zs + more)[..|zs + more| - 1] == zs + m;
    }
  }

  /** So far the scanner has laid out exactly the arguments it has passed. */
  predicate Partitions(args: seq<string>, start: nat, p: Progress) {
    start <= p.optind <= |args| && Interleaves(p.taken, p.operands, args[start..p.optind])
  }

  lemma TakePartitions(cfg: Config, args: seq<string>, start: nat, p: Progress, nc: string)
    requires Partitions(args, start, p) && p.optind < |args| && |args[p.optind]| >= 2 && nc != ""
    ensures var s := ScanOption(cfg, args, p.optind, nc, p.optopt);
            && p.optind <= s.optind && !TakeOption(cfg, args, p, nc).ended
            && (s.optind <= |args| ==> Partitions(args, start, TakeOption(cfg, args, p, nc).next))
  {
    hide ScanOption, Interleaves, Oversteps, Rereads;
    ScanBounds(cfg, args, p.optind, nc, p.optopt);
    var s := ScanOption(cfg, args, p.optind, nc, p.optopt);
    if s.optind <= |args| {
      MoreTaken(p.taken, p.operands, args[start..p.optind], args[p.optind..s.optind]);
      assert args[start..s.optind] == args[start..p.optind] + args[p.optind..s.optind];
    }
  }

  lemma CallPartitions(cfg: Config, args: seq<string>, start: nat, p: Progress)
    requires Sound(args, p) && Partitions(args, start, p)
    ensures var r := RefCall(cfg, args, p);
            && (r.next.optind <= |args| ==> Partitions(args, start, r.next))
            && (r.ended ==> r.next.optind == |args|)
  {
    hide ScanOption, Interleaves, Partitions;
    if p.nextchar != "" {
      PartitionBounds(args, start, p);
      TakePartitions(cfg, args, start, p, p.nextchar);
    } else {
      var q := Skipped(cfg, args, p);
      SkipPartitions(args, start, p);
      EndPartitions(args, start, q);
      if q.optind < |args| && !NonOption(args[q.optind]) && args[q.optind] != "--" {
        TakePartitions(cfg, args, start, q, Opening(cfg, args[q.optind]));
      }
    }
  }

  lemma PartitionBounds(args: seq<string>, start: nat, p: Progress)
    requires Partitions(args, start, p)
    ensures start <= p.optind <= |args|
  {
    hide Interleaves;
  }

  lemma SkipPartitions(args: seq<string>, start: nat, p: Progress)
    requires Partitions(args, start, p)
    ensures start <= p.optind <= |args| && Partitions(args, start, SkipOperands(args, p))
  {
    hide Interleaves;
    var q := SkipOperands(args, p);
    MoreSet(p.taken, p.operands, args[start..p.optind], args[p.optind..q.optind]);
    assert args[start..q.optind] == args[start..p.optind] + args[p.optind..q.optind];
  }

  /** The ways a call can go on from `q` without reading an option. */
  lemma EndPartitions(args: seq<string>, start: nat, q: Progress)
    requires Partitions(args, start, q)
    ensures q.optind < |args| ==>
      var a := args[q.optind];
      && Partitions(args, start, q.(optind := q.optind + 1, taken := q.taken + [a]))
      && Partitions(args, start, q.(optind := |args|, operands := q.operands + args[q.optind..]))
      && Partitions(args, start, q.(optind := |args|, taken := q.taken + [a], operands := q.operands + args[q.optind + 1..]))
  {
    hide Interleaves;
    if q.optind < |args| {
      var a := args[q.optind];
      var seen := args[start..q.optind];
      MoreTaken(q.taken, q.operands, seen, [a]);
      MoreSet(q.taken, q.operands, seen, args[q.optind..]);
      assert args[start..q.optind + 1] == seen + [a];
      assert args[start..|args|] == seen + args[q.optind..];
      MoreSet(q.taken + [a], q.operands, seen + [a], args[q.optind + 1..]);
      assert args[start..|args|] == (seen + [a]) + args[q.optind + 1..];
    }
  }

  /** When the options run out, the elements taken and the operands are the arguments, each list in its original order. */
  lemma {:induction false} RunPartitions(cfg: Config, args: seq<string>, start: nat, p: Progress, n: nat)
    requires Sound(args, p) && Partitions(args, start, p)
    ensures var r := RefRun(cfg, args, p, n); r.ended ==> Interleaves(r.last.taken, r.last.operands, args[start..])
    decreases n
  {
    hide RefCall, Interleaves;
    if n > 0 {
      CallPartitions(cfg, args, start, p);
      var r := RefCall(cfg, args, p);
      if r.ended {
        assert args[start..|args|] == args[start..];
      } else if r.out.ret != -1 && Sound(args, r.next) {
        RunPartitions(cfg, args, start, r.next, n - 1);
      }
    }
  }
}

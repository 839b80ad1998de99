/** The accounting of a replayed log: inclusive, exclusive and group time. */
module ProfilerTime {
  import opened ProfilerLog

  const STACK_MAX := 32
  const MAX_TIMERS := 1024
  const MAX_GROUPS := 48
  const TWO_8 := 0x100

  /**
   * The entries of the open scopes, the ticks of the finished children at each level, and the counters. There is one counter
   * per registered timer; the positions in the groups are bytes.
   */
  datatype Account = Account(
    stack: seq<Entry>, child: seq<int>,
    ticks: seq<int>, exclusive: seq<int>, counts: seq<int>,
    groupPos: seq<int>, groupTicks: seq<int>)
  {
    predicate Shaped(timers: nat) {
      && |child| == |stack| + 1
      && |ticks| == |exclusive| == |counts| == timers
      && |groupPos| == |groupTicks| == MAX_GROUPS
      && forall g :: 0 <= g < MAX_GROUPS ==> 0 <= groupPos[g] < TWO_8
    }
  }

  function Add(s: seq<int>, i: nat, d: int): seq<int>
    requires i < |s|
  {
    s[i := s[i] + d]
  }

  /** The group of every registered timer. */
  predicate Groups(toGroup: seq<nat>) { |toGroup| <= MAX_TIMERS && forall i :: 0 <= i < |toGroup| ==> toGroup[i] < MAX_GROUPS }

  /** The entry's timer is registered, and a new scope leaves room for its children. */
  predicate Fits(a: Account, e: Entry, timers: nat) {
    && a.Shaped(timers)
    && (LogType(e) <= ENTER ==> TimerIndex(e) < timers)
    && (LogType(e) == ENTER ==> |a.stack| < STACK_MAX - 1)
  }

  function Entered(a: Account, e: Entry, g: nat): Account
    requires g < |a.groupPos|
  {
    a.(groupPos := a.groupPos[g := (a.groupPos[g] + 1) % TWO_8], stack := a.stack + [e], child := a.child + [0])
  }

  function Left(a: Account, e: Entry, i: nat, g: nat): Account
    requires g < |a.groupPos| == |a.groupTicks| && a.stack != [] && |a.child| == |a.stack| + 1
    requires i < |a.ticks| == |a.exclusive| == |a.counts|
  {
    var top := |a.stack|;
    var d := TickDifference(a.stack[top - 1], e);
    var pos := a.groupPos[g];
    a.(stack := a.stack[..top - 1],
       child := Add(a.child[..top], top - 1, d),
       ticks := Add(a.ticks, i, d),
       exclusive := Add(a.exclusive, i, d - a.child[top]),
       counts := Add(a.counts, i, 1),
       groupPos := if pos > 0 then a.groupPos[g := pos - 1] else a.groupPos,
       groupTicks := if pos == 1 then Add(a.groupTicks, g, d) else a.groupTicks)
  }

  /** One entry of the log. Entries of the other two types leave the account alone. */
  function Step(a: Account, e: Entry, toGroup: seq<nat>): (b: Account)
    requires Groups(toGroup) && Fits(a, e, |toGroup|)
    ensures b.Shaped(|toGroup|)
  {
    if LogType(e) == ENTER then Entered(a, e, toGroup[TimerIndex(e)])
    else if LogType(e) == LEAVE && a.stack != [] then Left(a, e, TimerIndex(e), toGroup[TimerIndex(e)])
    else a
  }

  predicate AllFit(a: Account, es: seq<Entry>, toGroup: seq<nat>)
    requires Groups(toGroup)
    decreases es
  {
    es == [] || (Fits(a, es[0], |toGroup|) && AllFit(Step(a, es[0], toGroup), es[1..], toGroup))
  }

  function Fold(a: Account, es: seq<Entry>, toGroup: seq<nat>): (b: Account)
    requires Groups(toGroup) && AllFit(a, es, toGroup)
    ensures a.Shaped(|toGroup|) ==> b.Shaped(|toGroup|)
    decreases es
  {
    if es == [] then a else Fold(Step(a, es[0], toGroup), es[1..], toGroup)
  }

  lemma {:induction false} FoldJoin(a: Account, xs: seq<Entry>, ys: seq<Entry>, toGroup: seq<nat>)
    requires Groups(toGroup) && AllFit(a, xs, toGroup) && AllFit(Fold(a, xs, toGroup), ys, toGroup)
    ensures AllFit(a, xs + ys, toGroup) && Fold(a, xs + ys, toGroup) == Fold(Fold(a, xs, toGroup), ys, toGroup)
    decreases xs
  {
    hide Step, Fits;
    if xs == [] {
      assert xs + ys == ys;
    } else {
      FoldJoin(Step(a, xs[0], toGroup), xs[1..], ys, toGroup);
      assert (xs + ys)[1..] == xs[1..] + ys;
    }
  }

  lemma {:induction false} FitsPrefix(a: Account, xs: seq<Entry>, ys: seq<Entry>, toGroup: seq<nat>)
    requires Groups(toGroup) && AllFit(a, xs + ys, toGroup)
    ensures AllFit(a, xs, toGroup) && AllFit(Fold(a, xs, toGroup), ys, toGroup)
    decreases xs
  {
    hide Step, Fits;
    if xs == [] {
      assert xs + ys == ys;
    } else {
      assert (xs + ys)[1..] == xs[1..] + ys;
      FitsPrefix(Step(a, xs[0], toGroup), xs[1..], ys, toGroup);
    }
  }

  lemma FoldOne(a: Account, e: Entry, toGroup: seq<nat>)
    requires Groups(toGroup)
    ensures AllFit(a, [e], toGroup) <==> Fits(a, e, |toGroup|)
    ensures Fits(a, e, |toGroup|) ==> Fold(a, [e], toGroup) == Step(a, e, toGroup)
  {
    hide Step, Fits;
    assert [e][1..] == [];
  }

  // ----- Single entries -----

  /** What one timer's and one group's counters are. */
  predicate SameTimer(a: Account, b: Account, i: nat)
    requires i < |a.ticks| == |a.exclusive| == |a.counts| && i < |b.ticks| == |b.exclusive| == |b.counts|
  {
    b.ticks[i] == a.ticks[i] && b.exclusive[i] == a.exclusive[i] && b.counts[i] == a.counts[i]
  }

  /** Entering a scope opens it for its group, whose level is a byte, and touches no counter. */
  lemma EntersAny(a: Account, timer: nat, at: int, toGroup: seq<nat>)
    requires Groups(toGroup) && a.Shaped(|toGroup|) && timer < |toGroup| && |a.stack| < STACK_MAX - 1
    ensures var e := MakeEntry(ENTER, timer, at);
            && Fits(a, e, |toGroup|)
            && var b := Step(a, e, toGroup);
            && b.stack == a.stack + [e] && b.child == a.child + [0]
            && b.ticks == a.ticks && b.exclusive == a.exclusive && b.counts == a.counts && b.groupTicks == a.groupTicks
            && forall g :: 0 <= g < MAX_GROUPS ==>
                 b.groupPos[g] == if g != toGroup[timer] then a.groupPos[g]
                                  else if a.groupPos[g] == 255 then 0 else a.groupPos[g] + 1
  {
    EntryFields(ENTER, timer, at);
  }

  /**
   * Leaving charges the timer of the entry that leaves, whichever timer entered the innermost scope: with the time since that
   * scope was entered, and without that of the scopes inside it. The timer's group is charged when its level falls to zero.
   */
  lemma LeavesAny(a: Account, timer: nat, at: int, other: nat, begin: int, toGroup: seq<nat>)
    requires Groups(toGroup) && a.Shaped(|toGroup|) && timer < |toGroup| && other < TWO_14 && a.stack != []
    requires a.stack[|a.stack| - 1] == MakeEntry(ENTER, other, begin) && -TWO_47 <= at - begin < TWO_47
    ensures var e, n, d := MakeEntry(LEAVE, timer, at), |a.stack|, at - begin; var g := toGroup[timer];
            && Fits(a, e, |toGroup|)
            && var b := Step(a, e, toGroup);
            && b.stack == a.stack[..n - 1] && |b.child| == n && b.child[n - 1] == a.child[n - 1] + d && b.child[..n - 1] == a.child[..n - 1]
            && b.ticks[timer] == a.ticks[timer] + d && b.counts[timer] == a.counts[timer] + 1
            && b.exclusive[timer] == a.exclusive[timer] + d - a.child[n]
            && (forall i: nat :: i < |toGroup| && i != timer ==> SameTimer(a, b, i))
            && b.groupPos[g] == (if a.groupPos[g] > 0 then a.groupPos[g] - 1 else 0)
            && b.groupTicks[g] == (if a.groupPos[g] == 1 then a.groupTicks[g] + d else a.groupTicks[g])
            && forall h :: 0 <= h < MAX_GROUPS && h != g ==> b.groupPos[h] == a.groupPos[h] && b.groupTicks[h] == a.groupTicks[h]
  {
    EntryFields(LEAVE, timer, at);
    DifferenceExactly(ENTER, LEAVE, other, timer, begin, at);
  }

  /** A scope that ends although none is open, and entries of the other two types, change nothing. */
  lemma Ignored(a: Account, e: Entry, toGroup: seq<nat>)
    requires Groups(toGroup) && Fits(a, e, |toGroup|) && LogType(e) != ENTER && (LogType(e) == LEAVE ==> a.stack == [])
    ensures Step(a, e, toGroup) == a
  {
  }

  // ----- Exclusive time is conserved -----

  function Sum(s: seq<int>): int { if s == [] then 0 else s[0] + Sum(s[1..]) }

  lemma {:induction false} SumAdd(s: seq<int>, i: nat, d: int)
    requires i < |s|
    ensures Sum(Add(s, i, d)) == Sum(s) + d
  {
    var t := Add(s, i, d);
    if i > 0 {
      assert t[1..] == Add(s[1..], i - 1, d);
      SumAdd(s[1..], i - 1, d);
    } else {
      assert t[1..] == s[1..];
    }
  }

  lemma {:induction false} SumSnoc(s: seq<int>, x: int)
    ensures Sum(s + [x]) == Sum(s) + x
  {
    if s == [] {
      assert s + [x] == [x] && [x][1..] == [];
    } else {
      assert (s + [x])[1..] == s[1..] + [x];
      SumSnoc(s[1..], x);
    }
  }

  /** Every entry credits to the timers exactly what it adds to the stack of children's ticks. */
  lemma StepConserves(a: Account, e: Entry, toGroup: seq<nat>)
    requires Groups(toGroup) && Fits(a, e, |toGroup|)
    ensures var b := Step(a, e, toGroup); Sum(b.exclusive) - Sum(a.exclusive) == Sum(b.child) - Sum(a.child)
  {
    hide TickDifference;
    if LogType(e) == ENTER {
      SumSnoc(a.child, 0);
    } else if LogType(e) == LEAVE && a.stack != [] {
      var top := |a.stack|;
      var d := TickDifference(a.stack[top - 1], e);
      SumAdd(a.exclusive, TimerIndex(e), d - a.child[top]);
      SumAdd(a.child[..top], top - 1, d);
      assert a.child == a.child[..top] + [a.child[top]];
      SumSnoc(a.child[..top], a.child[top]);
    }
  }

  /**
   * Whatever the entries are, well nested or not, and whatever scopes were open before: the exclusive ticks credited equal
   * the growth of the child-tick stack.
   */
  lemma {:induction false} FoldConserves(a: Account, es: seq<Entry>, toGroup: seq<nat>)
    requires Groups(toGroup) && AllFit(a, es, toGroup)
    ensures var b := Fold(a, es, toGroup); Sum(b.exclusive) - Sum(a.exclusive) == Sum(b.child) - Sum(a.child)
    decreases es
  {
    if es != [] {
      hide Step, Sum;
      StepConserves(a, es[0], toGroup);
      FoldConserves(Step(a, es[0], toGroup), es[1..], toGroup);
    }
  }

  /** The ticks of the scopes that end with no scope around them. */
  function Outermost(a: Account, es: seq<Entry>, toGroup: seq<nat>): int
    requires Groups(toGroup) && AllFit(a, es, toGroup)
    decreases es
  {
    if es == [] then 0 else
      (if LogType(es[0]) == LEAVE && |a.stack| == 1 then TickDifference(a.stack[0], es[0]) else 0)
      + Outermost(Step(a, es[0], toGroup), es[1..], toGroup)
  }

  lemma {:induction false} BottomGrows(a: Account, es: seq<Entry>, toGroup: seq<nat>)
    requires Groups(toGroup) && a.Shaped(|toGroup|) && AllFit(a, es, toGroup)
    ensures var b := Fold(a, es, toGroup);
            b.Shaped(|toGroup|) && b.child[0] == a.child[0] + Outermost(a, es, toGroup)
    decreases es
  {
    if es != [] {
      hide TickDifference;
      BottomGrows(Step(a, es[0], toGroup), es[1..], toGroup);
    }
  }

  /** From no open scope to no open scope, all the exclusive time is the time of the outermost scopes. */
  lemma ExclusiveIsOutermost(a: Account, es: seq<Entry>, toGroup: seq<nat>)
    requires Groups(toGroup) && a.Shaped(|toGroup|) && AllFit(a, es, toGroup)
    requires a.stack == [] && Fold(a, es, toGroup).stack == []
    ensures Sum(Fold(a, es, toGroup).exclusive) - Sum(a.exclusive) == Outermost(a, es, toGroup)
  {
    FoldConserves(a, es, toGroup);
    BottomGrows(a, es, toGroup);
    var b := Fold(a, es, toGroup);
    assert a.child[1..] == [] == b.child[1..];
  }

  // ----- Frames -----

  /**
   * One replayed frame: the entries that the slots of the still open scopes hold by then, which later entries may have
   * overwritten, and the entries of the frame.
   */
  datatype Frame = Frame(held: seq<Entry>, entries: seq<Entry>)

  /** What is accumulated over the frames, timer by timer and group by group. */
  datatype Totals = Totals(ticks: seq<int>, exclusive: seq<int>, counts: seq<int>, groups: seq<int>)
  {
    predicate Shaped(timers: nat) { |ticks| == |exclusive| == |counts| == timers && |groups| == MAX_GROUPS }
  }

  function Zeros(n: nat): (s: seq<int>)
    ensures Sum(s) == 0 && |s| == n && forall i :: 0 <= i < n ==> s[i] == 0
  {
    if n == 0 then [] else
      assert ([0] + Zeros(n - 1))[1..] == Zeros(n - 1);
      [0] + Zeros(n - 1)
  }

  /** Sums, place by place. */
  function Plus(s: seq<int>, t: seq<int>): (r: seq<int>)
    requires |s| == |t|
    ensures |r| == |s| && forall i :: 0 <= i < |s| ==> r[i] == s[i] + t[i]
  {
    seq(|s|, i requires 0 <= i < |s| == |t| => s[i] + t[i])
  }

  /** The frame's own counters start from zero. */
  function Cleared(a: Account, f: Frame): Account {
    a.(stack := f.held, ticks := Zeros(|a.ticks|), exclusive := Zeros(|a.exclusive|), counts := Zeros(|a.counts|),
       groupTicks := Zeros(|a.groupTicks|))
  }

  predicate FrameFits(a: Account, f: Frame, toGroup: seq<nat>)
    requires Groups(toGroup)
  {
    a.Shaped(|toGroup|) && |f.held| == |a.stack| && AllFit(Cleared(a, f), f.entries, toGroup)
  }

  /** The account after a frame. */
  function AfterFrame(a: Account, f: Frame, toGroup: seq<nat>): (b: Account)
    requires Groups(toGroup) && FrameFits(a, f, toGroup)
    ensures b.Shaped(|toGroup|)
  {
    Fold(Cleared(a, f), f.entries, toGroup)
  }

  predicate FramesFit(a: Account, frames: seq<Frame>, toGroup: seq<nat>)
    requires Groups(toGroup)
    decreases frames
  {
    a.Shaped(|toGroup|)
    && (frames == [] || (FrameFits(a, frames[0], toGroup) && FramesFit(AfterFrame(a, frames[0], toGroup), frames[1..], toGroup)))
  }

  function AfterFrames(a: Account, frames: seq<Frame>, toGroup: seq<nat>): Account
    requires Groups(toGroup) && FramesFit(a, frames, toGroup)
    decreases frames
  {
    if frames == [] then a else AfterFrames(AfterFrame(a, frames[0], toGroup), frames[1..], toGroup)
  }

  function Accumulate(t: Totals, a: Account, timers: nat): (u: Totals)
    requires t.Shaped(timers) && a.Shaped(timers)
    ensures u.Shaped(timers)
  {
    Totals(Plus(t.ticks, a.ticks), Plus(t.exclusive, a.exclusive), Plus(t.counts, a.counts), Plus(t.groups, a.groupTicks))
  }

  /** The totals after some frames. */
  function Accumulated(a: Account, t: Totals, frames: seq<Frame>, toGroup: seq<nat>): (u: Totals)
    requires Groups(toGroup) && FramesFit(a, frames, toGroup) && t.Shaped(|toGroup|)
    ensures u.Shaped(|toGroup|)
    decreases frames
  {
    if frames == [] then t else
      var b := AfterFrame(a, frames[0], toGroup);
      Accumulated(b, Accumulate(t, b, |toGroup|), frames[1..], toGroup)
  }

  lemma {:induction false} SumPlus(s: seq<int>, t: seq<int>)
    requires |s| == |t|
    ensures Sum(Plus(s, t)) == Sum(s) + Sum(t)
  {
    if s != [] {
      SumPlus(s[1..], t[1..]);
      assert Plus(s, t)[1..] == Plus(s[1..], t[1..]);
    }
  }

  /** Over any number of frames, with scopes that span them, the exclusive time is what the child-tick stack has grown by. */
  lemma {:induction false} FramesConserve(a: Account, t: Totals, frames: seq<Frame>, toGroup: seq<nat>)
    requires Groups(toGroup) && FramesFit(a, frames, toGroup) && t.Shaped(|toGroup|)
    ensures Sum(Accumulated(a, t, frames, toGroup).exclusive) - Sum(t.exclusive)
         == Sum(AfterFrames(a, frames, toGroup).child) - Sum(a.child)
    decreases frames
  {
    if frames != [] {
      hide Fold, AllFit, Sum, Zeros, Plus;
      var b := AfterFrame(a, frames[0], toGroup);
      FoldConserves(Cleared(a, frames[0]), frames[0].entries, toGroup);
      SumPlus(t.exclusive, b.exclusive);
      FramesConserve(b, Accumulate(t, b, |toGroup|), frames[1..], toGroup);
    }
  }

  // ----- Well-nested traces -----

  /** A scope with its timer, its true begin and end, and the scopes inside it in order. */
  datatype Scope = Scope(timer: nat, begin: int, end: int, inner: seq<Scope>)
  {
    function First(): Entry { MakeEntry(ENTER, timer, begin) }
    function Last(): Entry { MakeEntry(LEAVE, timer, end) }

    predicate Proper(timers: nat) { begin <= end && end - begin < TWO_47 && timer < timers }
  }

  /** The entries a thread logs for some scopes one after the other. */
  function Trace(ss: seq<Scope>): seq<Entry>
  {
    if ss == [] then [] else [ss[0].First()] + Trace(ss[0].inner) + [ss[0].Last()] + Trace(ss[1..])
  }

  /** The scopes lie between two moments, in order, with registered timers, and each is shorter than half the tick range. */
  predicate Timed(ss: seq<Scope>, from: int, to: int, timers: nat)
  {
    if ss == [] then from <= to
    else
      && from <= ss[0].begin && ss[0].Proper(timers)
      && Timed(ss[0].inner, ss[0].begin, ss[0].end, timers) && Timed(ss[1..], ss[0].end, to, timers)
  }

  function Max(a: nat, b: nat): nat { if a < b then b else a }
  function Height(ss: seq<Scope>): nat { if ss == [] then 0 else Max(1 + Height(ss[0].inner), Height(ss[1..])) }

  function Duration(ss: seq<Scope>): int { if ss == [] then 0 else ss[0].end - ss[0].begin + Duration(ss[1..]) }

  /** The time of all scopes of a timer, with the scopes inside them. */
  function Inclusive(ss: seq<Scope>, timer: nat): int {
    if ss == [] then 0
    else (if ss[0].timer == timer then ss[0].end - ss[0].begin else 0) + Inclusive(ss[0].inner, timer) + Inclusive(ss[1..], timer)
  }

  /** The time of all scopes of a timer, without the scopes inside them. */
  function Exclusive(ss: seq<Scope>, timer: nat): int {
    if ss == [] then 0
    else (if ss[0].timer == timer then ss[0].end - ss[0].begin - Duration(ss[0].inner) else 0)
         + Exclusive(ss[0].inner, timer) + Exclusive(ss[1..], timer)
  }

  function Calls(ss: seq<Scope>, timer: nat): int {
    if ss == [] then 0
    else (if ss[0].timer == timer then 1 else 0) + Calls(ss[0].inner, timer) + Calls(ss[1..], timer)
  }

  /** The time of a group's scopes that have no scope of the group around them. */
  function GroupTime(ss: seq<Scope>, group: nat, toGroup: seq<nat>): int {
    if ss == [] then 0
    else (if ss[0].timer < |toGroup| && toGroup[ss[0].timer] == group then ss[0].end - ss[0].begin
          else GroupTime(ss[0].inner, group, toGroup))
         + GroupTime(ss[1..], group, toGroup)
  }

  /** `b` is `a` with the scopes `ss` accounted for. */
  predicate Accounts(a: Account, b: Account, ss: seq<Scope>, toGroup: seq<nat>)
    requires a.Shaped(|toGroup|)
  {
    && b.Shaped(|toGroup|) && b.stack == a.stack && b.groupPos == a.groupPos
    && b.child == Add(a.child, |a.stack|, Duration(ss))
    && (forall i :: 0 <= i < |toGroup| ==> b.ticks[i] == a.ticks[i] + Inclusive(ss, i))
    && (forall i :: 0 <= i < |toGroup| ==> b.exclusive[i] == a.exclusive[i] + Exclusive(ss, i))
    && (forall i :: 0 <= i < |toGroup| ==> b.counts[i] == a.counts[i] + Calls(ss, i))
    && (forall g :: 0 <= g < MAX_GROUPS ==>
          b.groupTicks[g] == a.groupTicks[g] + if a.groupPos[g] > 0 then 0 else GroupTime(ss, g, toGroup))
  }

  /** Room on the stack and in the groups for the scopes. */
  predicate Ready(a: Account, ss: seq<Scope>, timers: nat) {
    && a.Shaped(timers) && |a.stack| + Height(ss) < STACK_MAX
    && forall g :: 0 <= g < MAX_GROUPS ==> a.groupPos[g] + Height(ss) < TWO_8
  }

  lemma NothingReplayed(a: Account, toGroup: seq<nat>)
    requires Groups(toGroup) && a.Shaped(|toGroup|)
    ensures Trace([]) == [] && AllFit(a, [], toGroup) && Fold(a, [], toGroup) == a
    ensures Accounts(a, a, [], toGroup)
  {
  }

  lemma ReadyShaped(a: Account, ss: seq<Scope>, timers: nat)
    requires Ready(a, ss, timers)
    ensures a.Shaped(timers)
  {
  }

  lemma AccountsMore(a: Account, b: Account, c: Account, s: Scope, rest: seq<Scope>, toGroup: seq<nat>)
    requires a.Shaped(|toGroup|) && Accounts(a, b, [s], toGroup) && Accounts(b, c, rest, toGroup)
    ensures Accounts(a, c, [s] + rest, toGroup)
  {
    var ss := [s] + rest;
    assert ss[1..] == rest && [s][1..] == [] && ss[0] == s == [s][0];
    assert Duration(ss) == Duration([s]) + Duration(rest);
    forall i | 0 <= i < |toGroup|
      ensures c.ticks[i] == a.ticks[i] + Inclusive(ss, i) && c.exclusive[i] == a.exclusive[i] + Exclusive(ss, i)
      ensures c.counts[i] == a.counts[i] + Calls(ss, i)
    {
      assert Inclusive(ss, i) == Inclusive([s], i) + Inclusive(rest, i);
      assert Exclusive(ss, i) == Exclusive([s], i) + Exclusive(rest, i);
      assert Calls(ss, i) == Calls([s], i) + Calls(rest, i);
    }
    forall g | 0 <= g < MAX_GROUPS
      ensures c.groupTicks[g] == a.groupTicks[g] + if a.groupPos[g] > 0 then 0 else GroupTime(ss, g, toGroup)
    {
      assert GroupTime(ss, g, toGroup) == GroupTime([s], g, toGroup) + GroupTime(rest, g, toGroup);
    }
  }

  lemma SoleScope(s: Scope, toGroup: seq<nat>)
    ensures Duration([s]) == s.end - s.begin
    ensures forall i :: Inclusive([s], i) == (if s.timer == i then s.end - s.begin else 0) + Inclusive(s.inner, i)
    ensures forall i :: Exclusive([s], i) == (if s.timer == i then s.end - s.begin - Duration(s.inner) else 0) + Exclusive(s.inner, i)
    ensures forall i :: Calls([s], i) == (if s.timer == i then 1 else 0) + Calls(s.inner, i)
    ensures forall g :: GroupTime([s], g, toGroup) ==
              if s.timer < |toGroup| && toGroup[s.timer] == g then s.end - s.begin else GroupTime(s.inner, g, toGroup)
  {
    assert [s][1..] == [];
  }

  /** What entering a scope leaves for the scopes inside it. */
  lemma Opens(a: Account, s: Scope, toGroup: seq<nat>)
    requires Groups(toGroup) && s.Proper(|toGroup|) && Ready(a, [s], |toGroup|)
    ensures Fits(a, s.First(), |toGroup|)
    ensures Step(a, s.First(), toGroup) == Entered(a, s.First(), toGroup[s.timer])
    ensures Ready(Step(a, s.First(), toGroup), s.inner, |toGroup|)
  {
    EntryFields(ENTER, s.timer, s.begin);
    assert [s][1..] == [] && [s][0] == s;
    assert Height([s]) == 1 + Height(s.inner);
  }

  lemma Closes(b: Account, s: Scope, toGroup: seq<nat>)
    requires Groups(toGroup) && s.Proper(|toGroup|) && b.Shaped(|toGroup|)
    requires b.stack != [] && b.stack[|b.stack| - 1] == s.First()
    ensures Fits(b, s.Last(), |toGroup|)
    ensures Step(b, s.Last(), toGroup) == Left(b, s.Last(), s.timer, toGroup[s.timer])
    ensures TickDifference(s.First(), s.Last()) == s.end - s.begin
  {
    EntryFields(LEAVE, s.timer, s.end);
    DifferenceExactly(ENTER, LEAVE, s.timer, s.timer, s.begin, s.end);
  }

  /** The effect of a scope's two entries around the effect of what is inside it. */
  lemma ScopeAccounts(a: Account, b: Account, s: Scope, toGroup: seq<nat>)
    requires Groups(toGroup) && s.Proper(|toGroup|) && Ready(a, [s], |toGroup|)
    requires Fits(a, s.First(), |toGroup|) && Accounts(Step(a, s.First(), toGroup), b, s.inner, toGroup)
    ensures Fits(b, s.Last(), |toGroup|) && Accounts(a, Step(b, s.Last(), toGroup), [s], toGroup)
  {
    hide MakeEntry, TickDifference, Height;
    Opens(a, s, toGroup);
    hide Step;
    var n, d, g := |a.stack|, s.end - s.begin, toGroup[s.timer];
    HeightOne(s);
    assert b.stack[..n] == a.stack && b.stack[n] == s.First();
    Closes(b, s, toGroup);
    var c := Step(b, s.Last(), toGroup);
    assert b.child[n + 1] == Duration(s.inner);
    assert b.child[..n + 1] == a.child;
    assert b.groupPos == a.groupPos[g := a.groupPos[g] + 1];
    assert c.groupPos == a.groupPos;
    SoleScope(s, toGroup);
  }

  lemma HeightOne(s: Scope)
    ensures Height([s]) == 1 + Height(s.inner)
  {
    assert [s][1..] == [];
  }

  lemma HeadParts(a: Account, c: Account, ss: seq<Scope>, from: int, to: int, toGroup: seq<nat>)
    requires ss != [] && Timed(ss, from, to, |toGroup|)
    requires Ready(a, ss, |toGroup|) && (c == a || Accounts(a, c, [ss[0]], toGroup))
    ensures Timed(ss[0].inner, ss[0].begin, ss[0].end, |toGroup|) && ss[0].Proper(|toGroup|)
    ensures Timed(ss[1..], ss[0].end, to, |toGroup|)
    ensures Ready(a, [ss[0]], |toGroup|) && Ready(c, ss[1..], |toGroup|)
  {
    hide Inclusive, Exclusive, Calls, GroupTime, Duration;
    HeightOne(ss[0]);
  }

  lemma TraceUnfold(ss: seq<Scope>)
    requires ss != []
    ensures Trace(ss) == [ss[0].First()] + (Trace(ss[0].inner) + ([ss[0].Last()] + Trace(ss[1..])))
  {
  }

  /** Replaying the log of well-nested scopes accounts for each of them, timer by timer and group by group. */
  lemma {:induction false} ReplayAccounts(a: Account, ss: seq<Scope>, from: int, to: int, toGroup: seq<nat>)
    requires Groups(toGroup) && Timed(ss, from, to, |toGroup|) && Ready(a, ss, |toGroup|)
    ensures AllFit(a, Trace(ss), toGroup)
    ensures a.Shaped(|toGroup|) && Accounts(a, Fold(a, Trace(ss), toGroup), ss, toGroup)
    decreases ss
  {
    hide Step, Fits, Scope.First, Scope.Last, Trace, AllFit, Fold, Accounts, Ready, Timed, Height;
    ReadyShaped(a, ss, |toGroup|);
    if ss == [] {
      NothingReplayed(a, toGroup);
    } else {
      var s, rest := ss[0], ss[1..];
      assert ss == [s] + rest;
      HeadParts(a, a, ss, from, to, toGroup);
      TraceUnfold(ss);
      Opens(a, s, toGroup);
      FoldOne(a, s.First(), toGroup);
      var a1 := Step(a, s.First(), toGroup);
      ReplayAccounts(a1, s.inner, s.begin, s.end, toGroup);
      var b := Fold(a1, Trace(s.inner), toGroup);
      ScopeAccounts(a, b, s, toGroup);
      FoldOne(b, s.Last(), toGroup);
      var c := Step(b, s.Last(), toGroup);
      HeadParts(a, c, ss, from, to, toGroup);
      ReplayAccounts(c, rest, s.end, to, toGroup);
      FoldJoin(b, [s.Last()], Trace(rest), toGroup);
      FoldJoin(a1, Trace(s.inner), [s.Last()] + Trace(rest), toGroup);
      FoldJoin(a, [s.First()], Trace(s.inner) + ([s.Last()] + Trace(rest)), toGroup);
      AccountsMore(a, c, Fold(c, Trace(rest), toGroup), s, rest, toGroup);
    }
  }

  // ----- How deep scopes may nest -----

  /** Entering and leaving a scope, as far as the stack goes. */
  lemma EnterStack(a: Account, s: Scope, toGroup: seq<nat>)
    requires Groups(toGroup) && s.Proper(|toGroup|) && a.Shaped(|toGroup|)
    ensures Fits(a, s.First(), |toGroup|) <==> |a.stack| < STACK_MAX - 1
    ensures Fits(a, s.First(), |toGroup|) ==> Step(a, s.First(), toGroup).stack == a.stack + [s.First()]
  {
    EntryFields(ENTER, s.timer, s.begin);
  }

  lemma LeaveStack(a: Account, b: Account, s: Scope, toGroup: seq<nat>)
    requires Groups(toGroup) && s.Proper(|toGroup|) && b.Shaped(|toGroup|) && b.stack == a.stack + [s.First()]
    ensures Fits(b, s.Last(), |toGroup|) && Step(b, s.Last(), toGroup).stack == a.stack
  {
    Closes(b, s, toGroup);
  }

  lemma {:induction false} HeadTimed(ss: seq<Scope>, from: int, to: int, timers: nat)
    requires ss != [] && Timed(ss, from, to, timers)
    ensures Timed(ss[0].inner, ss[0].begin, ss[0].end, timers) && ss[0].Proper(timers) && Timed(ss[1..], ss[0].end, to, timers)
  {
    hide Height, Scope.Proper;
  }

  lemma {:induction false} HeadHeight(ss: seq<Scope>)
    ensures Height(ss) == if ss == [] then 0 else Max(1 + Height(ss[0].inner), Height(ss[1..]))
  {
  }

  /** `a` is like an account whose stack has this many scopes on it. */
  predicate Deep(a: Account, timers: nat) { a.Shaped(timers) && |a.stack| < STACK_MAX }

  /**
   * Exactly how deep scopes may nest: replaying well-nested scopes stays inside the arrays if and only if their height and
   * the scopes already open leave one level of the stack free. The stack ends as it began.
   */
  lemma {:induction false} DepthExactly(a: Account, ss: seq<Scope>, from: int, to: int, toGroup: seq<nat>)
    requires Groups(toGroup) && Timed(ss, from, to, |toGroup|) && Deep(a, |toGroup|)
    ensures AllFit(a, Trace(ss), toGroup) <==> |a.stack| + Height(ss) < STACK_MAX
    ensures AllFit(a, Trace(ss), toGroup) ==> Fold(a, Trace(ss), toGroup).stack == a.stack
    decreases ss
  {
    hide Step, Fits, Scope.First, Scope.Last, Trace, AllFit, Fold, Timed, Height;
    if ss == [] {
      NothingReplayed(a, toGroup);
      HeadHeight(ss);
    } else {
      var s, rest := ss[0], ss[1..];
      HeadTimed(ss, from, to, |toGroup|);
      HeadHeight(ss);
      TraceUnfold(ss);
      EnterStack(a, s, toGroup);
      FoldOne(a, s.First(), toGroup);
      var tail := [s.Last()] + Trace(rest);
      FitSplits(a, [s.First()], Trace(s.inner) + tail, toGroup);
      if Fits(a, s.First(), |toGroup|) {
        var a1 := Step(a, s.First(), toGroup);
        DepthExactly(a1, s.inner, s.begin, s.end, toGroup);
        FitSplits(a1, Trace(s.inner), tail, toGroup);
        if AllFit(a1, Trace(s.inner), toGroup) {
          var b := Fold(a1, Trace(s.inner), toGroup);
          LeaveStack(a, b, s, toGroup);
          FoldOne(b, s.Last(), toGroup);
          var c := Step(b, s.Last(), toGroup);
          DepthExactly(c, rest, s.end, to, toGroup);
          FitSplits(b, [s.Last()], Trace(rest), toGroup);
        }
      }
    }
  }

  /** Entries fit exactly when the first of them fit and then the others. */
  lemma FitSplits(a: Account, xs: seq<Entry>, ys: seq<Entry>, toGroup: seq<nat>)
    requires Groups(toGroup)
    ensures AllFit(a, xs + ys, toGroup) <==> AllFit(a, xs, toGroup) && AllFit(Fold(a, xs, toGroup), ys, toGroup)
    ensures AllFit(a, xs + ys, toGroup) ==> Fold(a, xs + ys, toGroup) == Fold(Fold(a, xs, toGroup), ys, toGroup)
  {
    hide AllFit, Fold;
    if AllFit(a, xs + ys, toGroup) {
      FitsPrefix(a, xs, ys, toGroup);
    }
    if AllFit(a, xs, toGroup) && AllFit(Fold(a, xs, toGroup), ys, toGroup) {
      FoldJoin(a, xs, ys, toGroup);
    }
  }

  /** The timers of the entries are registered. */
  predicate Registered(es: seq<Entry>, timers: nat) {
    forall i :: 0 <= i < |es| ==> (LogType(es[i]) <= ENTER ==> TimerIndex(es[i]) < timers)
  }

  /**
   * The first entry that does not fit: it enters a scope on a stack that is one short of full, which the source's assertion
   * lets through, and would then write the child ticks of level 32, for which the array has no place.
   */
  lemma {:induction false} FirstMisfit(a: Account, es: seq<Entry>, toGroup: seq<nat>) returns (k: nat)
    requires Groups(toGroup) && Deep(a, |toGroup|) && Registered(es, |toGroup|) && !AllFit(a, es, toGroup)
    ensures k < |es| && AllFit(a, es[..k], toGroup) && LogType(es[k]) == ENTER
    ensures var nStackPos := |Fold(a, es[..k], toGroup).stack|; nStackPos < STACK_MAX && nStackPos + 1 == STACK_MAX
    decreases es
  {
    if Fits(a, es[0], |toGroup|) {
      hide TickDifference, Fold;
      var b := Step(a, es[0], toGroup);
      assert Registered(es[1..], |toGroup|);
      var j := FirstMisfit(b, es[1..], toGroup);
      k := j + 1;
      assert es[..k] == [es[0]] + es[1..][..j];
      FoldOne(a, es[0], toGroup);
      FitSplits(a, [es[0]], es[1..][..j], toGroup);
    } else {
      k := 0;
      EmptyFolds(a, toGroup);
    }
  }

  lemma EmptyFolds(a: Account, toGroup: seq<nat>)
    requires Groups(toGroup)
    ensures AllFit(a, [], toGroup) && Fold(a, [], toGroup) == a
  {
  }

  /** Scopes of one timer, each inside the one before. */
  function Tower(n: nat): (ss: seq<Scope>)
    ensures Height(ss) == n && Timed(ss, 0, 0, 1)
  {
    if n == 0 then [] else
      var s := Scope(0, 0, 0, Tower(n - 1));
      assert [s][1..] == [];
      [s]
  }

  /** Thirty-one nested scopes can be replayed and thirty-two cannot: the last one passes the assertion and overruns. */
  lemma TowerOverruns(a: Account) returns (k: nat)
    requires Deep(a, 1) && a.stack == []
    ensures AllFit(a, Trace(Tower(31)), [0]) && !AllFit(a, Trace(Tower(32)), [0])
    ensures k < |Trace(Tower(32))| && AllFit(a, Trace(Tower(32))[..k], [0])
    ensures |Fold(a, Trace(Tower(32))[..k], [0]).stack| == 31 && LogType(Trace(Tower(32))[k]) == ENTER
  {
    hide Tower, Timed, Height, AllFit, Fold, Trace;
    DepthExactly(a, Tower(31), 0, 0, [0]);
    DepthExactly(a, Tower(32), 0, 0, [0]);
    TraceRegistered(Tower(32), 0, 0, 1);
    k := FirstMisfit(a, Trace(Tower(32)), [0]);
  }

  lemma {:induction false} TraceRegistered(ss: seq<Scope>, from: int, to: int, timers: nat)
    requires Timed(ss, from, to, timers) && timers <= MAX_TIMERS
    ensures Registered(Trace(ss), timers)
    decreases ss
  {
    if ss != [] {
      hide Timed, MakeEntry;
      HeadTimed(ss, from, to, timers);
      EntryFields(ENTER, ss[0].timer, ss[0].begin);
      EntryFields(LEAVE, ss[0].timer, ss[0].end);
      TraceRegistered(ss[0].inner, ss[0].begin, ss[0].end, timers);
      TraceRegistered(ss[1..], ss[0].end, to, timers);
    }
  }

  // ----- Traces cut into frames -----

  /** An account with other counters. */
  function Loaded(a: Account, t: Totals): Account {
    a.(ticks := t.ticks, exclusive := t.exclusive, counts := t.counts, groupTicks := t.groups)
  }

  /** An account with more on its counters. */
  function Raised(a: Account, t: Totals, timers: nat): (b: Account)
    requires a.Shaped(timers) && t.Shaped(timers)
    ensures b.Shaped(timers)
  {
    Loaded(a, Accumulate(t, a, timers))
  }

  lemma PlusAdd(t: seq<int>, s: seq<int>, i: nat, d: int)
    requires |t| == |s| && i < |s|
    ensures Plus(t, Add(s, i, d)) == Add(Plus(t, s), i, d)
  {
  }

  /** What an entry adds does not depend on the counters. */
  lemma StepRaised(a: Account, t: Totals, e: Entry, toGroup: seq<nat>)
    requires Groups(toGroup) && a.Shaped(|toGroup|) && t.Shaped(|toGroup|) && Fits(a, e, |toGroup|)
    ensures Fits(Raised(a, t, |toGroup|), e, |toGroup|)
    ensures Step(Raised(a, t, |toGroup|), e, toGroup) == Raised(Step(a, e, toGroup), t, |toGroup|)
  {
    hide TickDifference, Plus;
    if LogType(e) == LEAVE && a.stack != [] {
      var i, top := TimerIndex(e), |a.stack|;
      var g, d := toGroup[i], TickDifference(a.stack[top - 1], e);
      PlusAdd(t.ticks, a.ticks, i, d);
      PlusAdd(t.exclusive, a.exclusive, i, d - a.child[top]);
      PlusAdd(t.counts, a.counts, i, 1);
      PlusAdd(t.groups, a.groupTicks, g, d);
    }
  }

  lemma {:induction false} FoldRaised(a: Account, t: Totals, es: seq<Entry>, toGroup: seq<nat>)
    requires Groups(toGroup) && a.Shaped(|toGroup|) && t.Shaped(|toGroup|)
    ensures AllFit(a, es, toGroup) <==> AllFit(Raised(a, t, |toGroup|), es, toGroup)
    ensures AllFit(a, es, toGroup) ==>
              Fold(Raised(a, t, |toGroup|), es, toGroup) == Raised(Fold(a, es, toGroup), t, |toGroup|)
    decreases es
  {
    if es != [] {
      hide Step, Raised;
      FitsRaised(a, t, es[0], |toGroup|);
      if Fits(a, es[0], |toGroup|) {
        StepRaised(a, t, es[0], toGroup);
        FoldRaised(Step(a, es[0], toGroup), t, es[1..], toGroup);
      }
    }
  }

  lemma FitsRaised(a: Account, t: Totals, e: Entry, timers: nat)
    requires a.Shaped(timers) && t.Shaped(timers)
    ensures Fits(a, e, timers) <==> Fits(Raised(a, t, timers), e, timers)
  {
  }

  /** A trace cut into frames, in each of which the slots of the open scopes are as they were. */
  function Cuts(a: Account, parts: seq<seq<Entry>>, toGroup: seq<nat>): seq<Frame>
    requires Groups(toGroup)
    decreases parts
  {
    if parts == [] then [] else
      var f := Frame(a.stack, parts[0]);
      [f] + if FrameFits(a, f, toGroup) then Cuts(AfterFrame(a, f, toGroup), parts[1..], toGroup) else []
  }

  function Flat(parts: seq<seq<Entry>>): seq<Entry> { if parts == [] then [] else parts[0] + Flat(parts[1..]) }

  lemma RaisedCleared(a: Account, t: Totals, f: Frame, timers: nat)
    requires a.Shaped(timers) && t.Shaped(timers) && f.held == a.stack
    ensures Cleared(a, f).Shaped(timers) && Raised(Cleared(a, f), t, timers) == Loaded(a, t)
  {
    hide Plus, Zeros;
    PlusNothing(t.ticks, timers);
    PlusNothing(t.exclusive, timers);
    PlusNothing(t.counts, timers);
    PlusNothing(t.groups, MAX_GROUPS);
  }

  lemma PlusNothing(s: seq<int>, n: nat)
    requires |s| == n
    ensures |Zeros(n)| == n && Plus(s, Zeros(n)) == s
  {
    hide Plus, Zeros;
  }

  /** Counting frame by frame and adding up is counting in one go. */
  lemma {:induction false} CutsAccumulate(a: Account, t: Totals, parts: seq<seq<Entry>>, toGroup: seq<nat>)
    requires Groups(toGroup) && a.Shaped(|toGroup|) && t.Shaped(|toGroup|) && AllFit(Loaded(a, t), Flat(parts), toGroup)
    ensures var frames := Cuts(a, parts, toGroup);
            && FramesFit(a, frames, toGroup)
            && Loaded(AfterFrames(a, frames, toGroup), Accumulated(a, t, frames, toGroup))
               == Fold(Loaded(a, t), Flat(parts), toGroup)
    decreases parts
  {
    hide Fold, AllFit, Step, Cleared, Raised;
    if parts == [] {
      EmptyFolds(Loaded(a, t), toGroup);
    } else {
      var f := Frame(a.stack, parts[0]);
      FitSplits(Loaded(a, t), parts[0], Flat(parts[1..]), toGroup);
      RaisedCleared(a, t, f, |toGroup|);
      FoldRaised(Cleared(a, f), t, parts[0], toGroup);
      var b := AfterFrame(a, f, toGroup);
      RaisedIs(b, t, |toGroup|);
      CutsAccumulate(b, Accumulate(t, b, |toGroup|), parts[1..], toGroup);
      FramesStep(a, t, f, Cuts(b, parts[1..], toGroup), toGroup);
    }
  }

  lemma RaisedIs(b: Account, t: Totals, timers: nat)
    requires b.Shaped(timers) && t.Shaped(timers)
    ensures Raised(b, t, timers) == Loaded(b, Accumulate(t, b, timers))
  {
  }

  lemma FramesStep(a: Account, t: Totals, f: Frame, frames: seq<Frame>, toGroup: seq<nat>)
    requires Groups(toGroup) && a.Shaped(|toGroup|) && t.Shaped(|toGroup|) && FrameFits(a, f, toGroup)
    requires FramesFit(AfterFrame(a, f, toGroup), frames, toGroup)
    ensures var b := AfterFrame(a, f, toGroup);
            && FramesFit(a, [f] + frames, toGroup)
            && AfterFrames(a, [f] + frames, toGroup) == AfterFrames(b, frames, toGroup)
            && Accumulated(a, t, [f] + frames, toGroup) == Accumulated(b, Accumulate(t, b, |toGroup|), frames, toGroup)
  {
    hide Accumulate, AfterFrame, FrameFits;
    assert ([f] + frames)[0] == f && ([f] + frames)[1..] == frames;
  }

  /**
   * Well-nested scopes, logged and cut into frames anywhere: what is accumulated over the frames is the inclusive time, the
   * exclusive time and the count of every timer, and the time of every group.
   */
  lemma FramesAccount(a: Account, t: Totals, ss: seq<Scope>, from: int, to: int, parts: seq<seq<Entry>>, toGroup: seq<nat>)
    requires Groups(toGroup) && Timed(ss, from, to, |toGroup|) && Ready(a, ss, |toGroup|) && t.Shaped(|toGroup|)
    requires Flat(parts) == Trace(ss)
    ensures var frames := Cuts(a, parts, toGroup);
            && FramesFit(a, frames, toGroup)
            && var u := Accumulated(a, t, frames, toGroup);
            && (forall i :: 0 <= i < |toGroup| ==> u.ticks[i] == t.ticks[i] + Inclusive(ss, i))
            && (forall i :: 0 <= i < |toGroup| ==> u.exclusive[i] == t.exclusive[i] + Exclusive(ss, i))
            && (forall i :: 0 <= i < |toGroup| ==> u.counts[i] == t.counts[i] + Calls(ss, i))
            && (forall g :: 0 <= g < MAX_GROUPS ==>
                  u.groups[g] == t.groups[g] + if a.groupPos[g] > 0 then 0 else GroupTime(ss, g, toGroup))
  {
    hide Fold, AllFit, Trace, Timed, Height, Cuts, FramesFit, AfterFrames, Accumulated, Inclusive, Exclusive, Calls, GroupTime;
    ReadyLoaded(a, t, ss, |toGroup|);
    ReplayAccounts(Loaded(a, t), ss, from, to, toGroup);
    CutsAccumulate(a, t, parts, toGroup);
    var frames := Cuts(a, parts, toGroup);
    var u, b := Accumulated(a, t, frames, toGroup), AfterFrames(a, frames, toGroup);
    assert Accounts(Loaded(a, t), Loaded(b, u), ss, toGroup);
    assert Loaded(b, u).ticks == u.ticks && Loaded(b, u).groupTicks == u.groups;
    forall g | 0 <= g < MAX_GROUPS
      ensures u.groups[g] == t.groups[g] + if a.groupPos[g] > 0 then 0 else GroupTime(ss, g, toGroup)
    {
      assert Loaded(b, u).groupTicks[g] == u.groups[g];
    }
    assert Loaded(a, t).ticks == t.ticks && Loaded(a, t).groupTicks == t.groups && Loaded(a, t).groupPos == a.groupPos;
  }

  lemma ReadyLoaded(a: Account, t: Totals, ss: seq<Scope>, timers: nat)
    requires Ready(a, ss, timers) && t.Shaped(timers)
    ensures Ready(Loaded(a, t), ss, timers) && a.Shaped(timers)
  {
  }

  // ----- Group time is counted once -----

  function Interval(from: int, to: int): (s: set<int>)
    ensures forall t :: t in s <==> from <= t < to
    ensures |s| == if from <= to then to - from else 0
    decreases if from < to then to - from else 0
  {
    if from < to then Interval(from, to - 1) + {to - 1} else {}
  }

  /** The moments at which some scope of the group is open. */
  function Covered(ss: seq<Scope>, group: nat, toGroup: seq<nat>): set<int> {
    if ss == [] then {}
    else (if ss[0].timer < |toGroup| && toGroup[ss[0].timer] == group then Interval(ss[0].begin, ss[0].end) else {})
         + Covered(ss[0].inner, group, toGroup) + Covered(ss[1..], group, toGroup)
  }

  lemma {:induction false} CoveredSize(ss: seq<Scope>, from: int, to: int, group: nat, toGroup: seq<nat>, timers: nat)
    requires Timed(ss, from, to, timers)
    ensures from <= to && Covered(ss, group, toGroup) <= Interval(from, to)
    ensures |Covered(ss, group, toGroup)| == GroupTime(ss, group, toGroup)
  {
    if ss != [] {
      hide Interval, Covered, GroupTime;
      var s := ss[0];
      CoveredSize(s.inner, s.begin, s.end, group, toGroup, timers);
      CoveredSize(ss[1..], s.end, to, group, toGroup, timers);
      CoveredHead(ss, from, to, group, toGroup);
    }
  }

  lemma CoveredHead(ss: seq<Scope>, from: int, to: int, group: nat, toGroup: seq<nat>)
    requires ss != [] && from <= ss[0].begin <= ss[0].end <= to
    requires var s, inner, rest := ss[0], Covered(ss[0].inner, group, toGroup), Covered(ss[1..], group, toGroup);
             && inner <= Interval(s.begin, s.end) && rest <= Interval(s.end, to)
             && |inner| == GroupTime(s.inner, group, toGroup) && |rest| == GroupTime(ss[1..], group, toGroup)
    ensures Covered(ss, group, toGroup) <= Interval(from, to)
    ensures |Covered(ss, group, toGroup)| == GroupTime(ss, group, toGroup)
  {
    hide Covered, GroupTime, Interval;
    CoveredUnfold(ss, group, toGroup);
    var s, inner, rest := ss[0], Covered(ss[0].inner, group, toGroup), Covered(ss[1..], group, toGroup);
    if s.timer < |toGroup| && toGroup[s.timer] == group {
      var whole := Interval(s.begin, s.end);
      Absorbs(whole, inner);
      JoinedIntervals(whole, rest, from, s.begin, s.end, to);
    } else {
      JoinedIntervals(inner, rest, from, s.begin, s.end, to);
    }
  }

  lemma CoveredUnfold(ss: seq<Scope>, group: nat, toGroup: seq<nat>)
    requires ss != []
    ensures var s, inner, rest := ss[0], Covered(ss[0].inner, group, toGroup), Covered(ss[1..], group, toGroup);
            var mine := s.timer < |toGroup| && toGroup[s.timer] == group;
            && Covered(ss, group, toGroup) == (if mine then Interval(s.begin, s.end) + inner else inner) + rest
            && GroupTime(ss, group, toGroup)
               == (if mine then s.end - s.begin else GroupTime(s.inner, group, toGroup)) + GroupTime(ss[1..], group, toGroup)
  {
    hide Interval;
    var inner := Covered(ss[0].inner, group, toGroup);
    assert {} + inner == inner;
  }

  lemma Absorbs(a: set<int>, b: set<int>)
    requires b <= a
    ensures a + b == a
  {
  }

  lemma JoinedIntervals(a: set<int>, b: set<int>, from: int, begin: int, mid: int, to: int)
    requires from <= begin <= mid <= to && a <= Interval(begin, mid) && b <= Interval(mid, to)
    ensures a + b <= Interval(from, to) && |a + b| == |a| + |b|
  {
    hide Interval;
    DisjointSize(a, b, begin, mid, to);
  }

  lemma DisjointSize(a: set<int>, b: set<int>, from: int, mid: int, to: int)
    requires a <= Interval(from, mid) && b <= Interval(mid, to)
    ensures |a + b| == |a| + |b|
  {
    assert a !! b;
  }

  /**
   * Group time is counted once: however the scopes of a group recurse or interleave with others, the ticks a replay adds to
   * a group none of whose scopes was open are the number of moments at which one of them is open.
   */
  lemma GroupCountedOnce(a: Account, ss: seq<Scope>, from: int, to: int, group: nat, toGroup: seq<nat>)
    requires Groups(toGroup) && Timed(ss, from, to, |toGroup|) && Ready(a, ss, |toGroup|)
    requires group < MAX_GROUPS && a.groupPos[group] == 0
    ensures AllFit(a, Trace(ss), toGroup) && Fold(a, Trace(ss), toGroup).Shaped(|toGroup|)
    ensures Fold(a, Trace(ss), toGroup).groupTicks[group] == a.groupTicks[group] + |Covered(ss, group, toGroup)|
  {
    hide Trace, AllFit, Fold, Covered, GroupTime, Inclusive, Exclusive, Calls, Duration, Timed, Ready;
    ReplayAccounts(a, ss, from, to, toGroup);
    CoveredSize(ss, from, to, group, toGroup, |toGroup|);
  }
}

/** The loops that replay a frame's entries of one thread on the profiler's arrays. */
module ProfilerReplay {
  import opened ProfilerLog
  import opened ProfilerTime

  /** The entries in some slots of a log. */
  function Held(slots: seq<nat>, log: seq<Entry>): (s: seq<Entry>)
    requires forall i :: 0 <= i < |slots| ==> slots[i] < |log|
    ensures |s| == |slots| && forall i :: 0 <= i < |slots| ==> s[i] == log[slots[i]]
  {
    seq(|slots|, i requires 0 <= i < |slots| => log[slots[i]])
  }

  class Replayer {
    const toGroup: seq<nat>

    // Kept with the thread's log.
    const stack: array<nat>
    const child: array<int>
    var stackPos: nat
    const groupPos: array<int>
    const logGroupTicks: array<int>

    // The counters of the frame.
    const ticks: array<int>
    const exclusive: array<int>
    const counts: array<int>
    const frameGroup: array<int>

    ghost predicate Valid()
      reads this
    {
      && Groups(toGroup) && stackPos < STACK_MAX
      && stack.Length == child.Length == STACK_MAX
      && groupPos.Length == logGroupTicks.Length == frameGroup.Length == MAX_GROUPS
      && ticks.Length == exclusive.Length == counts.Length == |toGroup|
      && child != groupPos && child != logGroupTicks && child != ticks && child != exclusive && child != counts
      && child != frameGroup && groupPos != logGroupTicks && groupPos != ticks && groupPos != exclusive && groupPos != counts
      && groupPos != frameGroup && logGroupTicks != ticks && logGroupTicks != exclusive && logGroupTicks != counts
      && logGroupTicks != frameGroup && ticks != exclusive && ticks != counts && ticks != frameGroup
      && exclusive != counts && exclusive != frameGroup && counts != frameGroup
    }

    /** The open scopes' entries are in a log of this size, and the group ticks are an array of their own. */
    ghost predicate Fitting(size: nat, group: array<int>)
      reads this, stack
      requires Valid()
    {
      Apart(group) && forall i :: 0 <= i < stackPos ==> stack[i] < size
    }

    ghost predicate Apart(group: array<int>) {
      && group.Length == MAX_GROUPS && group != child && group != groupPos && group != logGroupTicks
      && group != ticks && group != exclusive && group != counts && group != frameGroup
    }

    ghost function Value(log: seq<Entry>, group: array<int>): Account
      reads this, stack, child, groupPos, group, ticks, exclusive, counts
      requires Valid() && Fitting(|log|, group)
    {
      Account(Held(stack[..stackPos], log), child[..stackPos + 1],
              ticks[..], exclusive[..], counts[..], groupPos[..], group[..])
    }

    /**
     * Enters a scope. At level 32 the entry still finds its place on the stack, as the source asserts, but the child ticks
     * of that level have none: the array would be overrun.
     */
    method Enter(log: array<Entry>, k: nat, group: array<int>) returns (overrun: bool)
      requires Valid() && Fitting(log.Length, group) && k < log.Length
      requires TimerIndex(log[k]) < |toGroup|
      modifies `stackPos, stack, child, groupPos
      ensures overrun <==> !(old(stackPos) + 1 < child.Length)
      ensures var g := toGroup[TimerIndex(log[k])];
              overrun ==>
                && stackPos == STACK_MAX && stack[..] == old(stack[..])[old(stackPos) := k] && child[..] == old(child[..])
                && groupPos[..] == old(groupPos[..])[g := (old(groupPos[g]) + 1) % TWO_8]
      ensures !overrun ==>
                && Valid() && Fitting(log.Length, group)
                && Value(log[..], group) == Entered(old(Value(log[..], group)), log[k], toGroup[TimerIndex(log[k])])
    {
      ghost var a := Value(log[..], group);
      var g := toGroup[TimerIndex(log[k])];
      groupPos[g] := (groupPos[g] + 1) % TWO_8;
      stack[stackPos] := k;
      stackPos := stackPos + 1;
      if stackPos == child.Length {
        return true;
      }
      child[stackPos] := 0;
      overrun := false;
      assert stack[..stackPos] == old(stack[..stackPos]) + [k];
      assert Held(stack[..stackPos], log[..]) == a.stack + [log[k]];
      assert child[..stackPos + 1] == a.child + [0];
      assert groupPos[..] == a.groupPos[g := (a.groupPos[g] + 1) % TWO_8];
    }

    /** A scope of the group ends; the outermost one adds its ticks. */
    method CloseInGroup(g: nat, d: int, group: array<int>)
      requires Valid() && Apart(group) && g < MAX_GROUPS
      modifies groupPos, group
      ensures var pos := old(groupPos[g]);
              && groupPos[..] == (if pos > 0 then old(groupPos[..])[g := pos - 1] else old(groupPos[..]))
              && group[..] == if pos == 1 then Add(old(group[..]), g, d) else old(group[..])
    {
      var pos := groupPos[g];
      if pos > 0 {
        pos := pos - 1;
        if pos == 0 {
          group[g] := group[g] + d;
        }
        groupPos[g] := pos;
      }
    }

    /** The ticks of a scope that ends, with and without those of its children, and its parent's child ticks. */
    method Credit(i: nat, d: int)
      requires Valid() && i < |toGroup| && stackPos > 0
      modifies `stackPos, child, ticks, exclusive, counts
      ensures Valid() && stackPos == old(stackPos) - 1
      ensures child[..stackPos + 1] == Add(old(child[..stackPos]), stackPos, d)
      ensures ticks[..] == Add(old(ticks[..]), i, d) && counts[..] == Add(old(counts[..]), i, 1)
      ensures exclusive[..] == Add(old(exclusive[..]), i, d - old(child[stackPos]))
    {
      var childTicks := child[stackPos];
      stackPos := stackPos - 1;
      child[stackPos] := child[stackPos] + d;
      ticks[i] := ticks[i] + d;
      exclusive[i] := exclusive[i] + (d - childTicks);
      counts[i] := counts[i] + 1;
    }

    method Leave(log: array<Entry>, k: nat, group: array<int>)
      requires Valid() && Fitting(log.Length, group) && k < log.Length && stackPos > 0
      requires TimerIndex(log[k]) < |toGroup|
      modifies `stackPos, child, groupPos, group, ticks, exclusive, counts
      ensures Valid() && Fitting(log.Length, group)
      ensures Value(log[..], group)
           == Left(old(Value(log[..], group)), log[k], TimerIndex(log[k]), toGroup[TimerIndex(log[k])])
    {
      hide TickDifference, LogType, TimerIndex;
      ghost var a := Value(log[..], group);
      var i := TimerIndex(log[k]);
      var g := toGroup[i];
      var d := TickDifference(log[stack[stackPos - 1]], log[k]);
      Credit(i, d);
      CloseInGroup(g, d, group);
      assert Held(stack[..stackPos], log[..]) == a.stack[..stackPos];
      assert old(child[..stackPos]) == a.child[..stackPos + 1];
    }

    /** The loop over one range of slots; it goes on until it is done or a scope overruns the child ticks. */
    method ReplayRange(log: array<Entry>, lo: nat, hi: nat, group: array<int>) returns (overrun: bool)
      requires Valid() && Fitting(log.Length, group) && lo <= hi <= log.Length
      requires Value(log[..], group).Shaped(|toGroup|) && Registered(log[lo..hi], |toGroup|)
      modifies `stackPos, stack, child, groupPos, group, ticks, exclusive, counts
      ensures overrun <==> !AllFit(old(Value(log[..], group)), log[lo..hi], toGroup)
      ensures overrun ==> stackPos == STACK_MAX
      ensures !overrun ==>
                && Valid() && Fitting(log.Length, group)
                && Value(log[..], group) == Fold(old(Value(log[..], group)), log[lo..hi], toGroup)
    {
      hide Step, Fits, AllFit, Fold, Registered;
      ghost var a := Value(log[..], group);
      EmptyFolds(a, toGroup);
      assert log[lo..lo] == [];
      overrun := false;
      for k := lo to hi
        invariant Valid() && Fitting(log.Length, group) && !overrun
        invariant AllFit(a, log[lo..k], toGroup) && Value(log[..], group) == Fold(a, log[lo..k], toGroup)
      {
        Advance(a, log[..], lo, k, hi, toGroup);
        ghost var b := Value(log[..], group);
        StepCases(b, log[k], toGroup);
        if LogType(log[k]) == ENTER {
          overrun := Enter(log, k, group);
          if overrun {
            return;
          }
        } else if LogType(log[k]) == LEAVE {
          if stackPos > 0 {
            Leave(log, k, group);
          }
        }
      }
    }

    method ReplayRanges(log: array<Entry>, put: nat, get: nat, group: array<int>) returns (overrun: bool)
      requires Valid() && Fitting(log.Length, group) && log.Length == BUFFER_SIZE && put < BUFFER_SIZE && get < BUFFER_SIZE
      requires Value(log[..], group).Shaped(|toGroup|) && Registered(InRanges(log[..], put, get), |toGroup|)
      modifies `stackPos, stack, child, groupPos, group, ticks, exclusive, counts
      ensures overrun <==> !AllFit(old(Value(log[..], group)), InRanges(log[..], put, get), toGroup)
      ensures overrun ==> stackPos == STACK_MAX
      ensures !overrun ==>
                && Valid() && Fitting(log.Length, group)
                && Value(log[..], group) == Fold(old(Value(log[..], group)), InRanges(log[..], put, get), toGroup)
    {
      hide AllFit, Fold, GetRange, Held, Registered, Fits, Step;
      var r := GetRange(put, get);
      RangeBounds(put, get);
      ghost var a := Value(log[..], group);
      ghost var xs, ys := log[r.lo0..r.hi0], log[r.lo1..r.hi1];
      FitSplits(a, xs, ys, toGroup);
      RegisteredParts(xs, ys, |toGroup|);
      overrun := ReplayRange(log, r.lo0, r.hi0, group);
      if !overrun {
        overrun := ReplayRange(log, r.lo1, r.hi1, group);
      }
    }

    /**
     * The part of a flip that replays one thread's log between two of its marks. It stays inside the arrays if and only if
     * every entry fits; by `DepthExactly` and `FirstMisfit` that is so unless scopes nest 32 deep.
     */
    method ReplayFrame(log: array<Entry>, put: nat, get: nat) returns (overrun: bool)
      requires Valid() && log.Length == BUFFER_SIZE && put < BUFFER_SIZE && get < BUFFER_SIZE
      requires (forall i :: 0 <= i < stackPos ==> stack[i] < log.Length)
      requires Start(log[..]).Shaped(|toGroup|) && Registered(InRanges(log[..], put, get), |toGroup|)
      modifies `stackPos, stack, child, groupPos, ticks, exclusive, counts, logGroupTicks, frameGroup
      ensures overrun <==> !AllFit(old(Start(log[..])), InRanges(log[..], put, get), toGroup)
      ensures overrun ==> stackPos == STACK_MAX
      ensures !overrun ==> Valid() && forall i :: 0 <= i < stackPos ==> stack[i] < log.Length
      ensures !overrun ==>
                var b := Fold(old(Start(log[..])), InRanges(log[..], put, get), toGroup);
                && b.Shaped(|toGroup|) && Start(log[..]) == b.(groupTicks := Zeros(MAX_GROUPS))
                && (forall g :: 0 <= g < MAX_GROUPS ==> frameGroup[g] == old(frameGroup[g]) + b.groupTicks[g])
                && forall g :: 0 <= g < MAX_GROUPS ==> logGroupTicks[g] == old(logGroupTicks[g]) + b.groupTicks[g]
    {
      hide AllFit, Fold, InRanges, Held, Step, Fits, GetRange, Registered;
      var group := new int[MAX_GROUPS](_ => 0);
      assert group[..] == Zeros(MAX_GROUPS);
      overrun := ReplayRanges(log, put, get, group);
      if overrun {
        return;
      }
      ghost var b := Value(log[..], group);
      AddGroups(group);
      assert Start(log[..]) == b.(groupTicks := Zeros(MAX_GROUPS));
    }

    method AddGroups(group: array<int>)
      requires Valid() && Apart(group)
      modifies logGroupTicks, frameGroup
      ensures forall g :: 0 <= g < MAX_GROUPS ==> frameGroup[g] == old(frameGroup[g]) + group[g]
      ensures forall g :: 0 <= g < MAX_GROUPS ==> logGroupTicks[g] == old(logGroupTicks[g]) + group[g]
    {
      for j := 0 to MAX_GROUPS
        invariant forall g :: 0 <= g < MAX_GROUPS ==> frameGroup[g] == old(frameGroup[g]) + if g < j then group[g] else 0
        invariant forall g :: 0 <= g < MAX_GROUPS ==> logGroupTicks[g] == old(logGroupTicks[g]) + if g < j then group[g] else 0
      {
        logGroupTicks[j] := logGroupTicks[j] + group[j];
        frameGroup[j] := frameGroup[j] + group[j];
      }
    }

    /** The account as a replay starts it: no group ticks yet. */
    ghost function Start(log: seq<Entry>): Account
      reads this, stack, child, groupPos, ticks, exclusive, counts
      requires Valid() && forall i :: 0 <= i < stackPos ==> stack[i] < |log|
    {
      Account(Held(stack[..stackPos], log), child[..stackPos + 1],
              ticks[..], exclusive[..], counts[..], groupPos[..], Zeros(MAX_GROUPS))
    }
  }

  lemma RangeBounds(put: nat, get: nat)
    requires put < BUFFER_SIZE && get < BUFFER_SIZE
    ensures var r := GetRange(put, get); r.lo0 <= r.hi0 <= BUFFER_SIZE && r.lo1 <= r.hi1 <= BUFFER_SIZE
  {
  }

  /** The entries of the two ranges, one after the other. */
  function InRanges(log: seq<Entry>, put: nat, get: nat): seq<Entry>
    requires |log| == BUFFER_SIZE && put < BUFFER_SIZE && get < BUFFER_SIZE
  {
    var r := GetRange(put, get);
    log[r.lo0..r.hi0] + log[r.lo1..r.hi1]
  }

  /** What a replay between two marks reads is what was stored between them, unless the ring has come round since. */
  lemma RangesHoldFrame(t: ThreadLog, from: nat, to: nat)
    requires t.Valid() && from <= to <= |t.stored| <= from + BUFFER_SIZE && to < from + BUFFER_SIZE
    ensures InRanges(t.log[..], to % BUFFER_SIZE, from % BUFFER_SIZE) == t.stored[from..to]
  {
    hide GetRange, Slot, Latest;
    RangeSlots(from, to);
    var out := InRanges(t.log[..], to % BUFFER_SIZE, from % BUFFER_SIZE);
    forall i | 0 <= i < to - from ensures out[i] == t.stored[from + i] {
      LatestIs(|t.stored|, from + i);
      assert out[i] == t.log[Slot(from, i)];
      SlotIs(from, i);
    }
  }

  lemma RegisteredParts(xs: seq<Entry>, ys: seq<Entry>, timers: nat)
    requires Registered(xs + ys, timers)
    ensures Registered(xs, timers) && Registered(ys, timers)
  {
    assert forall i :: 0 <= i < |xs| ==> xs[i] == (xs + ys)[i];
    assert forall i :: 0 <= i < |ys| ==> ys[i] == (xs + ys)[|xs| + i];
  }

  /** What an entry of a registered timer does, and when it fits. */
  lemma StepCases(a: Account, e: Entry, toGroup: seq<nat>)
    requires Groups(toGroup) && a.Shaped(|toGroup|) && (LogType(e) <= ENTER ==> TimerIndex(e) < |toGroup|)
    ensures Fits(a, e, |toGroup|) <==> (LogType(e) == ENTER ==> |a.stack| < STACK_MAX - 1)
    ensures Fits(a, e, |toGroup|) ==>
              && (LogType(e) == ENTER ==> Step(a, e, toGroup) == Entered(a, e, toGroup[TimerIndex(e)]))
              && (LogType(e) == LEAVE && a.stack != [] ==>
                    Step(a, e, toGroup) == Left(a, e, TimerIndex(e), toGroup[TimerIndex(e)]))
              && (LogType(e) > ENTER || (LogType(e) == LEAVE && a.stack == []) ==> Step(a, e, toGroup) == a)
  {
  }

  /** One more entry of a range. */
  lemma Advance(a: Account, log: seq<Entry>, lo: nat, k: nat, hi: nat, toGroup: seq<nat>)
    requires Groups(toGroup) && lo <= k < hi <= |log| && a.Shaped(|toGroup|) && AllFit(a, log[lo..k], toGroup)
    requires Registered(log[lo..hi], |toGroup|)
    ensures Fold(a, log[lo..k], toGroup).Shaped(|toGroup|)
    ensures LogType(log[k]) <= ENTER ==> TimerIndex(log[k]) < |toGroup|
    ensures var fits := Fits(Fold(a, log[lo..k], toGroup), log[k], |toGroup|);
            && (!fits ==> !AllFit(a, log[lo..hi], toGroup))
            && (fits ==> AllFit(a, log[lo..k + 1], toGroup)
                         && Fold(a, log[lo..k + 1], toGroup) == Step(Fold(a, log[lo..k], toGroup), log[k], toGroup))
  {
    hide Step, Fits, AllFit, Fold;
    assert log[lo..hi][k - lo] == log[k];
    assert log[lo..hi] == log[lo..k + 1] + log[k + 1..hi];
    FitSplits(a, log[lo..k + 1], log[k + 1..hi], toGroup);
    assert log[lo..k + 1] == log[lo..k] + [log[k]];
    FitSplits(a, log[lo..k], [log[k]], toGroup);
    FoldOne(Fold(a, log[lo..k], toGroup), log[k], toGroup);
  }
}

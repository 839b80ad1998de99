/** The pool of thread logs and the free list threaded through it. */
module ProfilerThreads {
  import opened ProfilerLog

  const MAX_THREADS := 32

  // ----- The pool as a value -----

  datatype Slot = Slot(put: nat, get: nat, active: bool, gpu: bool, thread: nat, stackPos: nat, next: int)

  const EMPTY_SLOT := Slot(0, 0, false, false, 0, 0, 0)

  /**
   * The logs made so far, the head of the free list, the log each thread points to, and the threads that have created a log
   * and not exited.
   */
  datatype State = State(slots: seq<Slot>, head: int, local: map<nat, nat>, live: set<nat>)

  /** The slot a new thread's log goes to. */
  function Place(s: State): (j: int) {
    if s.head != -1 then s.head else |s.slots|
  }

  predicate CanCreate(s: State, t: nat) {
    t !in s.local && (if s.head != -1 then 0 <= s.head < |s.slots| else |s.slots| < MAX_THREADS)
  }

  /** `CreateThreadLog`: the log comes reset from the free list, or it is a new one. */
  function Create(s: State, t: nat): State
    requires CanCreate(s, t)
  {
    var slot := EMPTY_SLOT.(active := true, thread := t, next := -1);
    var j := Place(s);
    State(if s.head != -1 then s.slots[j := slot] else s.slots + [slot],
          if s.head != -1 then s.slots[j].next else -1,
          s.local[t := j], s.live + {t})
  }

  predicate Pointing(s: State) { forall t :: t in s.local ==> 0 < s.local[t] < |s.slots| }

  /** `OnThreadExit`: the log is emptied and put at the head of the free list; the thread still points to it. */
  function Exit(s: State, t: nat): State
    requires Pointing(s)
  {
    if t !in s.local then s
    else
      var j := s.local[t];
      s.(slots := s.slots[j := s.slots[j].(next := s.head, active := false, put := 0, get := 0)],
         head := j, live := s.live - {t})
  }

  predicate Link(slots: seq<Slot>, free: seq<nat>, i: nat)
    requires i < |free|
  {
    0 < free[i] < |slots| && slots[free[i]].next == if i + 1 < |free| then free[i + 1] else -1
  }

  /** The free list, from its head. */
  predicate Linked(slots: seq<Slot>, head: int, free: seq<nat>) {
    && head == (if free == [] then -1 else free[0])
    && (forall i :: 0 <= i < |free| ==> Link(slots, free, i))
    && forall i, k :: 0 <= i < k < |free| ==> free[i] != free[k]
  }

  /** The active logs are the GPU's and the live threads', each its own. */
  predicate Owned(s: State) {
    && Pointing(s) && 1 <= |s.slots| <= MAX_THREADS
    && s.slots[0].active && s.slots[0].gpu
    && (forall t :: t in s.live ==> t in s.local && s.slots[s.local[t]].active && s.slots[s.local[t]].thread == t)
    && forall j :: 0 < j < |s.slots| ==>
         && !s.slots[j].gpu
         && (s.slots[j].active ==> s.slots[j].thread in s.live && s.local[s.slots[j].thread] == j)
         && (!s.slots[j].active ==> s.slots[j].put == s.slots[j].get == 0)
  }

  predicate Lists(s: State, free: seq<nat>) {
    Linked(s.slots, s.head, free) && forall j :: 0 <= j < |s.slots| ==> (j in free <==> !s.slots[j].active)
  }

  /** The free list ends, without repetition, and is exactly the inactive logs. */
  ghost predicate Safe(s: State) { Owned(s) && exists free :: Lists(s, free) }

  /** No two live threads have the same log, and none has the GPU's or one on the free list. */
  lemma LiveLogsApart(s: State, free: seq<nat>, t: nat, u: nat)
    requires Owned(s) && Lists(s, free) && t in s.live && u in s.live
    ensures s.local[t] == s.local[u] <==> t == u
    ensures s.local[t] > 0 && s.local[t] !in free && 0 !in free
  {
  }

  lemma LinkedRest(slots: seq<Slot>, free: seq<nat>, slot: Slot)
    requires free != [] && free[0] < |slots| && Linked(slots, free[0], free)
    ensures Linked(slots[free[0] := slot], slots[free[0]].next, free[1..])
  {
    var slots', rest := slots[free[0] := slot], free[1..];
    assert Link(slots, free, 0);
    forall i | 0 <= i < |rest|
      ensures Link(slots', rest, i)
    {
      assert Link(slots, free, i + 1);
      assert rest[i] == free[i + 1] != free[0];
    }
  }

  lemma LinkedSame(slots: seq<Slot>, slots': seq<Slot>, head: int, free: seq<nat>)
    requires Linked(slots, head, free) && |slots| <= |slots'|
    requires forall j :: 0 <= j < |slots| && j in free ==> slots'[j].next == slots[j].next
    ensures Linked(slots', head, free)
  {
    forall i | 0 <= i < |free| ensures Link(slots', free, i) {
      assert Link(slots, free, i);
    }
  }

  /** Taking the head off the free list. */
  lemma Reuse(s: State, free: seq<nat>, t: nat)
    requires Owned(s) && Lists(s, free) && CanCreate(s, t) && free != []
    ensures Lists(Create(s, t), free[1..])
  {
    var s', rest, p := Create(s, t), free[1..], free[0];
    assert Link(s.slots, free, 0);
    LinkedRest(s.slots, free, s'.slots[p]);
    forall j | 0 <= j < |s'.slots| ensures j in rest <==> !s'.slots[j].active {
      InTail(free, j);
    }
  }

  lemma InTail(free: seq<nat>, j: int)
    requires free != [] && forall i, k :: 0 <= i < k < |free| ==> free[i] != free[k]
    ensures j in free[1..] <==> j in free && j != free[0]
  {
    assert free == [free[0]] + free[1..];
    assert free[0] !in free[1..];
  }

  /** Besides the free list: the new log holds nothing and has no open scope, and all other logs and threads are as they were. */
  lemma CreateKeeps(s: State, free: seq<nat>, t: nat)
    requires Owned(s) && Lists(s, free) && CanCreate(s, t)
    ensures Owned(Create(s, t)) && Lists(Create(s, t), if free == [] then [] else free[1..])
    ensures var s' := Create(s, t); var j := s'.local[t];
            && j == (if free == [] then |s.slots| else free[0]) && s'.live == s.live + {t}
            && j < |s'.slots| == (if free == [] then |s.slots| + 1 else |s.slots|)
            && s'.slots[j].put == s'.slots[j].get == s'.slots[j].stackPos == 0 && s'.slots[j].thread == t
            && (forall k :: 0 <= k < |s.slots| && k != j ==> s'.slots[k] == s.slots[k])
            && forall u :: u in s.local ==> u in s'.local && s'.local[u] == s.local[u]
  {
    CreateOwned(s, free, t);
    if free != [] {
      Reuse(s, free, t);
    }
  }

  lemma CreateOwned(s: State, free: seq<nat>, t: nat)
    requires Owned(s) && Lists(s, free) && CanCreate(s, t)
    ensures Owned(Create(s, t))
  {
    var s', p := Create(s, t), Place(s);
    assert s.head != -1 ==> p in free && !s.slots[p].active;
    forall u | u in s'.live ensures s'.slots[s'.local[u]].active && s'.slots[s'.local[u]].thread == u {
      if u != t {
        assert s.local[u] != p;
      }
    }
  }

  lemma ExitKeeps(s: State, free: seq<nat>, t: nat)
    requires Owned(s) && Lists(s, free) && t in s.live
    ensures Owned(Exit(s, t)) && Lists(Exit(s, t), [s.local[t]] + free)
    ensures var s', j := Exit(s, t), s.local[t];
            && s'.live == s.live - {t} && s'.local == s.local && |s'.slots| == |s.slots|
            && s'.slots[j].put == s'.slots[j].get == 0
            && forall k :: 0 <= k < |s.slots| && k != j ==> s'.slots[k] == s.slots[k]
  {
    var s', j := Exit(s, t), s.local[t];
    assert j !in free;
    forall u | u in s'.live ensures s'.slots[s'.local[u]].active && s'.slots[s'.local[u]].thread == u {
      assert s.local[u] != j;
    }
    LinkedSame(s.slots, s'.slots, s.head, free);
    var free' := [j] + free;
    forall i | 0 <= i < |free'| ensures Link(s'.slots, free', i) {
      if i > 0 {
        assert Link(s'.slots, free, i - 1);
      }
    }
  }

  /** Two readings of a list agree as far as the longer of them does not repeat itself. */
  lemma {:induction false} OneReading(slots: seq<Slot>, slots': seq<Slot>, free: seq<nat>, other: seq<nat>, j: nat, k: nat)
    requires Linked(slots, if free == [] then -1 else free[0], free) && Linked(slots', j, other)
    requires k < |free| && j < |slots| == |slots'| && slots'[j].next == free[0]
    requires forall i :: 0 <= i < k ==> free[i] != j
    requires forall i :: 0 <= i < |slots| && i != j ==> slots'[i].next == slots[i].next
    ensures |other| > k + 1 && other[k + 1] == free[k]
  {
    assert other != [] && other[0] == j;
    if k == 0 {
      assert Link(slots', other, 0) && Link(slots, free, 0);
    } else {
      OneReading(slots, slots', free, other, j, k - 1);
      assert other[k] == free[k - 1] != j;
      assert Link(slots', other, k) && Link(slots, free, k - 1);
    }
  }

  lemma RunsIntoItself(slots: seq<Slot>, slots': seq<Slot>, free: seq<nat>, other: seq<nat>, j: nat, k: nat)
    requires k < |free| && Linked(slots, free[0], free) && free[k] == j
    requires j < |slots| == |slots'| && slots'[j].next == free[0]
    requires forall i :: 0 <= i < |slots| && i != j ==> slots'[i].next == slots[i].next
    ensures !Linked(slots', j, other)
  {
    if Linked(slots', j, other) {
      OneReading(slots, slots', free, other, j, k);
      assert false;
    }
  }

  /**
   * A thread that has a log may exit exactly when it has not exited before. A second time, its log is either still on the
   * free list, which then runs into itself, or belongs to a live thread, which loses it.
   */
  lemma ExitExactly(s: State, t: nat)
    requires Safe(s) && t in s.local
    ensures Safe(Exit(s, t)) <==> t in s.live
  {
    var free: seq<nat> :| Lists(s, free);
    var s', j := Exit(s, t), s.local[t];
    if t in s.live {
      ExitKeeps(s, free, t);
    } else if s.slots[j].active {
      var u := s.slots[j].thread;
      assert u in s'.live && !s'.slots[s'.local[u]].active;
    } else {
      var k :| 0 <= k < |free| && free[k] == j;
      forall other ensures !Lists(s', other) {
        RunsIntoItself(s.slots, s'.slots, free, other, j, k);
      }
    }
  }

  datatype Event =
    | Created(thread: nat)
    | Exited(thread: nat)
    | Logged(thread: nat, put: nat)
    | Flipped(stackPos: seq<nat>)

  /**
   * What can happen: a thread without a log creates one while there is room, a thread exits at most once, a thread stores an
   * entry in its log if that is active, and the profiler frees what all logs hold and replays them.
   */
  predicate Allowed(s: State, e: Event) {
    match e
    case Created(t) => CanCreate(s, t)
    case Exited(t) => Pointing(s) && (t in s.local ==> t in s.live)
    case Logged(t, put) => Pointing(s) && t in s.local && s.slots[s.local[t]].active
    case Flipped(stackPos) => |stackPos| == |s.slots|
  }

  function Do(s: State, e: Event): State
    requires Allowed(s, e)
  {
    match e
    case Created(t) => Create(s, t)
    case Exited(t) => Exit(s, t)
    case Logged(t, put) => s.(slots := s.slots[s.local[t] := s.slots[s.local[t]].(put := put)])
    case Flipped(stackPos) =>
      s.(slots := seq(|s.slots|, i requires 0 <= i < |s.slots| == |stackPos| =>
                    s.slots[i].(get := s.slots[i].put, stackPos := stackPos[i])))
  }

  predicate AllAllowed(s: State, es: seq<Event>)
    decreases es
  {
    es == [] || (Allowed(s, es[0]) && AllAllowed(Do(s, es[0]), es[1..]))
  }

  function Run(s: State, es: seq<Event>): State
    requires AllAllowed(s, es)
    decreases es
  {
    if es == [] then s else Run(Do(s, es[0]), es[1..])
  }

  /** The pool after `MicroProfileInit`: the GPU's log and nothing else. */
  const INITIAL := State([EMPTY_SLOT.(active := true, gpu := true, next := -1)], -1, map[], {})

  lemma InitialSafe()
    ensures Safe(INITIAL)
  {
    assert Lists(INITIAL, []);
  }

  lemma DoKeeps(s: State, e: Event)
    requires Safe(s) && Allowed(s, e)
    ensures Safe(Do(s, e))
  {
    var free: seq<nat> :| Lists(s, free);
    match e {
      case Created(t) =>
        CreateKeeps(s, free, t);
      case Exited(t) =>
        if t in s.local {
          ExitKeeps(s, free, t);
        }
      case Logged(t, put) =>
        LinkedSame(s.slots, Do(s, e).slots, s.head, free);
        assert Lists(Do(s, e), free);
      case Flipped(_) =>
        LinkedSame(s.slots, Do(s, e).slots, s.head, free);
        assert Lists(Do(s, e), free);
    }
  }

  lemma {:induction false} RunKeeps(s: State, es: seq<Event>)
    requires Safe(s) && AllAllowed(s, es)
    ensures Safe(Run(s, es))
    decreases es
  {
    if es != [] {
      DoKeeps(s, es[0]);
      RunKeeps(Do(s, es[0]), es[1..]);
    }
  }

  /** In every run from the start, no log is lost, shared or handed out while it is in use. */
  lemma RunSafe(es: seq<Event>, t: nat, u: nat)
    requires AllAllowed(INITIAL, es)
    ensures var s := Run(INITIAL, es);
            && Safe(s)
            && (t in s.live && u in s.live ==> s.local[t] > 0 && (s.local[t] == s.local[u] <==> t == u))
  {
    InitialSafe();
    RunKeeps(INITIAL, es);
    var s := Run(INITIAL, es);
    var free: seq<nat> :| Lists(s, free);
    if t in s.live && u in s.live {
      LiveLogsApart(s, free, t, u);
    }
  }

  /** A thread that exits twice: two threads created after that write to the same log. */
  lemma ExitedTwice()
    ensures var s := Create(INITIAL, 1);
            && Pointing(s) && Pointing(Exit(s, 1))
            && var s' := Exit(Exit(s, 1), 1);
            && CanCreate(s', 2) && CanCreate(Create(s', 2), 3)
            && var s'' := Create(Create(s', 2), 3);
            2 in s''.live && 3 in s''.live && s''.local[2] == s''.local[3]
  {
  }

  // ----- The pool in memory -----

  class Log {
    var nPut: nat
    var nGet: nat
    var nActive: bool
    var nGpu: bool
    var nThreadId: nat
    var nStackPos: nat
    var nFreeListNext: int

    constructor ()
      ensures Value() == EMPTY_SLOT
    {
      nPut, nGet, nActive, nGpu, nThreadId, nStackPos, nFreeListNext := 0, 0, false, false, 0, 0, 0;
    }

    ghost function Value(): Slot
      reads this
    {
      Slot(nPut, nGet, nActive, nGpu, nThreadId, nStackPos, nFreeListNext)
    }

    method Reset()
      modifies this
      ensures Value() == EMPTY_SLOT
    {
      nPut, nGet, nActive, nGpu, nThreadId, nStackPos, nFreeListNext := 0, 0, false, false, 0, 0, 0;
    }
  }

  ghost function Values(logs: seq<Log>): (s: seq<Slot>)
    reads logs
    ensures |s| == |logs| && forall i :: 0 <= i < |logs| ==> s[i] == logs[i].Value()
  {
    seq(|logs|, i requires 0 <= i < |logs| reads logs => logs[i].Value())
  }

  class LogPool {
    const pool: array<Log?>
    var nNumLogs: nat
    var nFreeListHead: int
    /** What each thread's own pointer refers to. */
    var threadLog: map<nat, Log>
    /** Where each log stood when each of the last frames began. */
    const logStart: array2<nat>

    ghost var logs: seq<Log>
    ghost var place: map<nat, nat>
    ghost var live: set<nat>

    ghost predicate Valid()
      reads this, pool
    {
      && pool.Length == MAX_THREADS && logStart.Length0 == FRAME_HISTORY && logStart.Length1 == MAX_THREADS
      && |logs| == nNumLogs <= MAX_THREADS
      && (forall i :: 0 <= i < MAX_THREADS ==> pool[i] == if i < nNumLogs then logs[i] else null)
      && (forall i, k :: 0 <= i < k < |logs| ==> logs[i] != logs[k])
      && threadLog.Keys == place.Keys
      && forall t :: t in place ==> place[t] < |logs| && threadLog[t] == logs[place[t]]
    }

    ghost function View(): State
      reads this, logs
    {
      State(Values(logs), nFreeListHead, place, live)
    }

    /** The pool as the program starts it, with the log of the GPU. */
    constructor ()
      ensures Valid() && View() == INITIAL
      ensures fresh(pool) && fresh(logStart) && fresh(logs)
    {
      pool := new Log?[MAX_THREADS](_ => null);
      nNumLogs, nFreeListHead := 0, -1;
      threadLog, place, live, logs := map[], map[], {}, [];
      logStart := new nat[FRAME_HISTORY, MAX_THREADS]((_, _) => 0);
      new;
      var log := NewLog();
      log.nFreeListNext := -1;
      log.nActive := true;
      log.nGpu := true;
    }

    method NewLog() returns (log: Log)
      requires Valid() && nNumLogs < MAX_THREADS
      modifies `nNumLogs, `logs, pool
      ensures Valid() && fresh(log) && logs == old(logs) + [log] && log.Value() == EMPTY_SLOT
    {
      log := new Log();
      pool[nNumLogs] := log;
      nNumLogs := nNumLogs + 1;
      logs := logs + [log];
    }

    /** A log from the free list, or a new one. */
    method TakeLog() returns (log: Log, ghost j: nat)
      requires Valid() && (if nFreeListHead != -1 then 0 <= nFreeListHead < |logs| else |logs| < MAX_THREADS)
      modifies `nNumLogs, `nFreeListHead, `logs, pool, logs
      ensures Valid() && j == Place(old(View())) && j < |logs| && log == logs[j]
      ensures |logs| == if old(nFreeListHead) != -1 then old(|logs|) else old(|logs|) + 1
      ensures nFreeListHead == if old(nFreeListHead) != -1 then old(View()).slots[j].next else -1
      ensures forall k :: 0 <= k < old(|logs|) ==> logs[k] == old(logs)[k]
      ensures log.Value() == EMPTY_SLOT && (log in old(logs) || fresh(log))
      ensures forall k :: 0 <= k < old(|logs|) && k != j ==> logs[k].Value() == old(Values(logs))[k]
    {
      j := if nFreeListHead != -1 then nFreeListHead else |logs|;
      if nFreeListHead != -1 {
        log := pool[nFreeListHead];
        nFreeListHead := log.nFreeListNext;
        log.Reset();
      } else {
        log := NewLog();
      }
    }

    method CreateThreadLog(t: nat) returns (log: Log, ghost j: nat)
      requires Valid() && (if nFreeListHead != -1 then 0 <= nFreeListHead < |logs| else |logs| < MAX_THREADS)
      modifies `nNumLogs, `nFreeListHead, `logs, pool, logs
      ensures Valid() && j == Place(old(View())) && j < |logs| && log == logs[j]
      ensures |logs| >= old(|logs|) && forall k :: 0 <= k < old(|logs|) ==> logs[k] == old(logs)[k]
      ensures forall x :: x in logs ==> x in old(logs) || fresh(x)
      ensures nFreeListHead == if old(nFreeListHead) != -1 then old(View()).slots[j].next else -1
      ensures var slot := EMPTY_SLOT.(active := true, thread := t, next := -1);
              Values(logs) == if old(nFreeListHead) != -1 then old(Values(logs))[j := slot] else old(Values(logs)) + [slot]
    {
      log, j := TakeLog();
      log.nThreadId := t;
      log.nFreeListNext := -1;
      log.nActive := true;
    }

    method SetThreadLog(t: nat, log: Log, ghost j: nat)
      requires Valid() && j < |logs| && log == logs[j]
      modifies `threadLog, `place, `live
      ensures Valid() && place == old(place)[t := j] && live == old(live) + {t}
    {
      threadLog := threadLog[t := log];
      place := place[t := j];
      live := live + {t};
    }

    /** A new thread creates its log. */
    method OnThreadCreate(t: nat)
      requires Valid() && CanCreate(View(), t)
      modifies this, pool, logs
      ensures Valid() && View() == Create(old(View()), t)
      ensures forall x :: x in logs ==> x in old(logs) || fresh(x)
    {
      var log; ghost var j;
      log, j := CreateThreadLog(t);
      label Taken:
      SetThreadLog(t, log, j);
      assert Values(logs) == old@Taken(Values(logs));
    }

    method FindLog(log: Log, ghost j: nat) returns (index: nat)
      requires Valid() && j < |logs| && logs[j] == log
      ensures index == j
    {
      index := 0;
      while index < MAX_THREADS && pool[index] != log
        invariant index <= j
      {
        index := index + 1;
      }
    }

    method ClearStarts(index: nat)
      requires Valid() && index < MAX_THREADS
      modifies logStart
      ensures forall h, k :: 0 <= h < FRAME_HISTORY && 0 <= k < MAX_THREADS ==>
                logStart[h, k] == if k == index then 0 else old(logStart[h, k])
    {
      for h := 0 to FRAME_HISTORY
        invariant forall i, k :: 0 <= i < FRAME_HISTORY && 0 <= k < MAX_THREADS ==>
                    logStart[i, k] == if i < h && k == index then 0 else old(logStart[i, k])
      {
        logStart[h, index] := 0;
      }
    }

    method FreeLog(log: Log, index: nat)
      requires Valid() && index < |logs| && log == logs[index]
      modifies `nFreeListHead, log
      ensures Valid() && nFreeListHead == index
      ensures Values(logs)
           == old(Values(logs))[index := old(log.Value()).(next := old(nFreeListHead), active := false, put := 0, get := 0)]
    {
      log.nFreeListNext := nFreeListHead;
      log.nActive := false;
      log.nPut := 0;
      log.nGet := 0;
      nFreeListHead := index;
    }

    method GiveBack(t: nat) returns (index: nat)
      requires Valid() && Pointing(View()) && t in threadLog
      modifies `nFreeListHead, `live, logs
      ensures Valid() && View() == Exit(old(View()), t) && index == place[t]
    {
      hide Values, Log.Value;
      var log := threadLog[t];
      index := FindLog(log, place[t]);
      ghost var s := View();
      FreeLog(log, index);
      assert Values(logs) == Exit(s, t).slots;
      live := live - {t};
    }

    /** A thread gives its log back. */
    method OnThreadExit(t: nat)
      requires Valid() && Pointing(View())
      modifies this, logs, logStart
      ensures Valid() && View() == Exit(old(View()), t)
      ensures forall h, k :: 0 <= h < FRAME_HISTORY && 0 <= k < MAX_THREADS ==>
                logStart[h, k] == if t in place && k == place[t] then 0 else old(logStart[h, k])
    {
      if t in threadLog {
        hide Pointing, Exit;
        var index := GiveBack(t);
        label Freed:
        ClearStarts(index);
        assert View() == old@Freed(View());
      }
    }
  }
}

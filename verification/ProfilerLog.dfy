/** A thread's profiler log: entries, the ring they are kept in, and the delayed replay of a frame. */
module ProfilerLog {

  // ----- Log entries -----

  const TWO_14 := 0x4000
  const TWO_16 := 0x1_0000
  const TWO_47 := 0x8000_0000_0000
  const TWO_48 := 0x1_0000_0000_0000
  const TWO_62 := 0x4000_0000_0000_0000
  const TWO_63 := 0x8000_0000_0000_0000
  const TWO_64 := 0x1_0000_0000_0000_0000

  /** A 64-bit word: two bits of type, fourteen of timer index, forty-eight of ticks. */
  type Entry = e: int | 0 <= e < TWO_64

  const LEAVE := 0
  const ENTER := 1

  function LogType(e: Entry): (t: nat)
    ensures t < 4
  {
    e / TWO_62
  }

  function TimerIndex(e: Entry): (i: nat)
    ensures i < TWO_14
  {
    e / TWO_48 % TWO_14
  }

  function Tick(e: Entry): (t: nat)
    ensures t < TWO_48
  {
    e % TWO_48
  }

  /** The fields do not overlap, so their bitwise union is their sum. */
  function MakeEntry(kind: nat, token: nat, tick: int): Entry
    requires kind < 4
  {
    kind * TWO_62 + token % TWO_14 * TWO_48 + tick % TWO_48
  }

  lemma EntryFields(kind: nat, token: nat, tick: int)
    requires kind < 4
    ensures var e := MakeEntry(kind, token, tick);
            LogType(e) == kind && TimerIndex(e) == token % TWO_14 && Tick(e) == tick % TWO_48
  {
  }

  /** A 64-bit word read as a signed number. */
  function Signed(x: int): int
    requires 0 <= x < TWO_64
  {
    if x < TWO_63 then x else x - TWO_64
  }

  /** Both words are shifted up by sixteen bits, subtracted as 64-bit words, and shifted down as a signed number. */
  function TickDifference(start: Entry, end: Entry): int {
    Signed((end * TWO_16 % TWO_64 - start * TWO_16 % TWO_64) % TWO_64) / TWO_16
  }

  lemma ShiftKeepsTick(e: Entry)
    ensures e * TWO_16 % TWO_64 == Tick(e) * TWO_16
  {
  }

  /** The difference is that of the tick fields, taken modulo 2^48 nearest to zero, whatever the other fields are. */
  lemma DifferenceIs(start: Entry, end: Entry)
    ensures var d := Tick(end) - Tick(start);
            TickDifference(start, end) == if d >= TWO_47 then d - TWO_48 else if d < -TWO_47 then d + TWO_48 else d
  {
    ShiftKeepsTick(start);
    ShiftKeepsTick(end);
    var d := Tick(end) - Tick(start);
    assert (d * TWO_16) % TWO_64 == if d >= 0 then d * TWO_16 else d * TWO_16 + TWO_64;
  }

  /** Two entries give back the time between them exactly when it is a signed 48-bit number. */
  lemma DifferenceExactly(kind: nat, other: nat, token: nat, token': nat, a: int, b: int)
    requires kind < 4 && other < 4
    ensures TickDifference(MakeEntry(kind, token, a), MakeEntry(other, token', b)) == b - a <==> -TWO_47 <= b - a < TWO_47
  {
    EntryFields(kind, token, a);
    EntryFields(other, token', b);
    DifferenceIs(MakeEntry(kind, token, a), MakeEntry(other, token', b));
  }

  // ----- The ring -----

  const BUFFER_SIZE := 0x40000
  const FRAME_HISTORY := 512
  const FRAME_DELAY := 3

  /** Of the first `n` entries stored, the number of the one that slot `k` holds. */
  function Latest(n: nat, k: nat): (i: int)
    requires k < BUFFER_SIZE
    ensures i < n && (i >= 0 ==> i % BUFFER_SIZE == k) && i >= n - BUFFER_SIZE
  {
    n - 1 - (n - 1 - k) % BUFFER_SIZE
  }

  lemma LatestIs(n: nat, i: nat)
    requires i < n <= i + BUFFER_SIZE
    ensures Latest(n, i % BUFFER_SIZE) == i
  {
  }

  /** `GetRange`: the slots from `get` up to `put`, as two ranges. */
  datatype Ranges = Ranges(lo0: nat, hi0: nat, lo1: nat, hi1: nat)

  function GetRange(put: nat, get: nat): Ranges
    requires put < BUFFER_SIZE && get < BUFFER_SIZE
  {
    if put > get then Ranges(get, put, 0, 0)
    else if put != get then Ranges(get, get + (BUFFER_SIZE - get), 0, put)
    else Ranges(0, 0, 0, 0)
  }

  /** The slot of the entry `i` places after number `from`. */
  function Slot(from: nat, i: nat): (k: nat)
    ensures k < BUFFER_SIZE
  {
    (from + i) % BUFFER_SIZE
  }

  /** The two ranges between the slots of entries `a` and `b` list, one after the other, the slots from `a` to `b`. */
  lemma RangeSlots(a: nat, b: nat)
    requires a <= b < a + BUFFER_SIZE
    ensures var r := GetRange(b % BUFFER_SIZE, a % BUFFER_SIZE);
            && r.lo0 <= r.hi0 <= BUFFER_SIZE && r.lo1 <= r.hi1 <= BUFFER_SIZE
            && r.hi0 - r.lo0 + r.hi1 - r.lo1 == b - a
            && (forall i :: 0 <= i < r.hi0 - r.lo0 ==> Slot(a, i) == r.lo0 + i)
            && forall i :: r.hi0 - r.lo0 <= i < b - a ==> Slot(a, i) == r.lo1 + (i - (r.hi0 - r.lo0))
  {
    var x, n := a % BUFFER_SIZE, b - a;
    assert b % BUFFER_SIZE == if x + n < BUFFER_SIZE then x + n else x + n - BUFFER_SIZE;
    forall i: nat | i < n ensures Slot(a, i) == if x + i < BUFFER_SIZE then x + i else x + i - BUFFER_SIZE {
      WrapOnce(a, i);
    }
  }

  lemma WrapOnce(a: nat, i: nat)
    requires i < BUFFER_SIZE
    ensures var x := a % BUFFER_SIZE; Slot(a, i) == if x + i < BUFFER_SIZE then x + i else x + i - BUFFER_SIZE
  {
  }

  class ThreadLog {
    const log: array<Entry>
    var nPut: nat
    var nGet: nat
    var overflow: bool

    /** Everything stored so far, and how much of it had been stored at the last flip. */
    ghost var stored: seq<Entry>
    ghost var flipped: nat

    ghost predicate Valid()
      reads this, log
    {
      && log.Length == BUFFER_SIZE && nPut < BUFFER_SIZE && nGet < BUFFER_SIZE
      && flipped <= |stored| < flipped + BUFFER_SIZE
      && nPut == |stored| % BUFFER_SIZE && nGet == flipped % BUFFER_SIZE
      && forall k :: 0 <= k < BUFFER_SIZE && Latest(|stored|, k) >= 0 ==> log[k] == stored[Latest(|stored|, k)]
    }

    constructor ()
      ensures Valid() && stored == [] && flipped == 0 && fresh(log)
    {
      log := new Entry[BUFFER_SIZE];
      nPut, nGet, overflow := 0, 0, false;
      stored, flipped := [], 0;
    }

    /** Stores an entry unless that would fill the ring since the last flip; then it is dropped. */
    method Put(e: Entry)
      requires Valid()
      modifies this, log
      ensures Valid() && flipped == old(flipped)
      ensures stored == if |old(stored)| - flipped < BUFFER_SIZE - 1 then old(stored) + [e] else old(stored)
      ensures overflow == (old(overflow) || |old(stored)| - flipped >= BUFFER_SIZE - 1)
    {
      hide Latest;
      var next := (nPut + 1) % BUFFER_SIZE;
      NextSlot(|stored|, flipped);
      if next == nGet {
        overflow := true;
      } else {
        log[nPut] := e;
        nPut := next;
        stored := stored + [e];
        SlotsAfterPut(old(stored), e);
      }
    }

    /** What a flip does to one log: the frame starts here, and the space before it is free again. */
    method Mark() returns (start: nat)
      requires Valid()
      modifies this`nGet, this`flipped
      ensures Valid() && flipped == |stored| && start == |stored| % BUFFER_SIZE
    {
      start := nPut;
      nGet := start;
      flipped := |stored|;
    }

    /**
     * Reads back the entries between two marks. `from` and `to` are the numbers of entries stored at them; `which` are the
     * numbers of the entries that are read.
     */
    method Replay(start: nat, end: nat, ghost from: nat, ghost to: nat) returns (out: seq<Entry>, ghost which: seq<int>)
      requires Valid() && from <= to <= |stored| && to < from + BUFFER_SIZE
      requires start == from % BUFFER_SIZE && end == to % BUFFER_SIZE
      ensures |out| == |which| == to - from
      ensures forall i :: 0 <= i < |which| && which[i] >= 0 ==> which[i] < |stored| && out[i] == stored[which[i]]
      ensures |stored| <= from + BUFFER_SIZE ==> out == stored[from..to]
      ensures Consecutive(which, from) <==> |stored| <= from + BUFFER_SIZE || from == to
    {
      hide Latest, Slot, Consecutive, GetRange, SlotNumbers;
      var r := GetRange(end, start);
      RangeSlots(from, to);
      assert r.lo0 <= r.hi0 <= log.Length && r.lo1 <= r.hi1 <= log.Length;
      out := ReadRange(r.lo0, r.hi0);
      var more := ReadRange(r.lo1, r.hi1);
      ghost var n := r.hi0 - r.lo0;
      forall i | 0 <= i < to - from ensures (out + more)[i] == log[Slot(from, i)] {
        if i < n {
          assert (out + more)[i] == out[i] == log[r.lo0 + i];
        } else {
          assert (out + more)[i] == more[i - n] == log[r.lo1 + (i - n)];
        }
      }
      out := out + more;
      which := SlotNumbers(|stored|, from, to);
      ReadBack(out, from, to);
    }

    /** The loop over one range of slots. */
    method ReadRange(lo: nat, hi: nat) returns (out: seq<Entry>)
      requires lo <= hi <= log.Length
      ensures out == log[lo..hi]
    {
      out := [];
      for k := lo to hi
        invariant out == log[lo..k]
      {
        out := out + [log[k]];
      }
    }

    /** What the slots between two marks hold. */
    lemma ReadBack(out: seq<Entry>, from: nat, to: nat)
      requires Valid() && from <= to <= |stored| && to < from + BUFFER_SIZE
      requires |out| == to - from && forall i :: 0 <= i < |out| ==> out[i] == log[Slot(from, i)]
      ensures var which := SlotNumbers(|stored|, from, to);
              && (forall i :: 0 <= i < |which| && which[i] >= 0 ==> which[i] < |stored| && out[i] == stored[which[i]])
              && (|stored| <= from + BUFFER_SIZE ==> out == stored[from..to])
              && (Consecutive(which, from) <==> |stored| <= from + BUFFER_SIZE || from == to)
    {
      hide Latest, Slot, Consecutive;
      var which := SlotNumbers(|stored|, from, to);
      NumbersExactly(|stored|, from, to);
      NumbersAre(which, from);
      forall i | 0 <= i < |which| && which[i] >= 0 ensures which[i] < |stored| && out[i] == stored[which[i]] {
        assert which[i] == Latest(|stored|, Slot(from, i));
      }
    }
  }

  /** The numbers of the entries in the slots from number `from` to number `to`, when `n` have been stored. */
  function SlotNumbers(n: nat, from: nat, to: nat): (which: seq<int>)
    requires from <= to
    ensures |which| == to - from
  {
    seq(to - from, i requires 0 <= i < to - from => Latest(n, Slot(from, i)))
  }

  predicate Consecutive(which: seq<int>, from: nat) { forall i :: 0 <= i < |which| ==> which[i] == from + i }

  lemma NumbersAre(which: seq<int>, from: nat)
    ensures Consecutive(which, from) ==> forall i :: 0 <= i < |which| ==> which[i] == from + i
  {
  }

  lemma NumbersExactly(n: nat, from: nat, to: nat)
    requires from <= to <= n && to < from + BUFFER_SIZE
    ensures Consecutive(SlotNumbers(n, from, to), from) <==> n <= from + BUFFER_SIZE || from == to
  {
    var which := SlotNumbers(n, from, to);
    if n <= from + BUFFER_SIZE {
      forall i | 0 <= i < to - from ensures which[i] == from + i {
        LatestIs(n, from + i);
      }
    } else if from < to {
      assert which[0] == Latest(n, Slot(from, 0)) >= n - BUFFER_SIZE;
    }
  }

  /** The slot after the last entry, and when it is the one of the last flip. */
  lemma NextSlot(n: nat, flipped: nat)
    requires flipped <= n < flipped + BUFFER_SIZE
    ensures (n % BUFFER_SIZE + 1) % BUFFER_SIZE == (n + 1) % BUFFER_SIZE
    ensures (n + 1) % BUFFER_SIZE == flipped % BUFFER_SIZE <==> n - flipped == BUFFER_SIZE - 1
  {
    hide Slot;
    WrapOnce(flipped, n - flipped);
    SlotIs(flipped, n - flipped);
    assert n % BUFFER_SIZE < BUFFER_SIZE - 1 ==> (n + 1) % BUFFER_SIZE == n % BUFFER_SIZE + 1;
  }

  lemma SlotIs(from: nat, i: nat)
    ensures Slot(from, i) == (from + i) % BUFFER_SIZE
  {
  }

  /** Storing one more entry changes the one slot it goes to. */
  lemma SlotsAfterPut(stored: seq<Entry>, e: Entry)
    ensures Latest(|stored| + 1, |stored| % BUFFER_SIZE) == |stored|
    ensures forall k :: 0 <= k < BUFFER_SIZE && k != |stored| % BUFFER_SIZE ==> Latest(|stored| + 1, k) == Latest(|stored|, k)
  {
    hide Latest;
    LatestIs(|stored| + 1, |stored|);
    forall k | 0 <= k < BUFFER_SIZE && k != |stored| % BUFFER_SIZE ensures Latest(|stored| + 1, k) == Latest(|stored|, k) {
      LatestElsewhere(|stored|, k);
    }
  }

  lemma LatestElsewhere(n: nat, k: nat)
    requires k < BUFFER_SIZE && k != n % BUFFER_SIZE
    ensures Latest(n + 1, k) == Latest(n, k)
  {
  }

  // ----- Frames -----

  /**
   * The frame history of one log: where the log stood at each of the last flips. `begins` is the number of entries stored
   * at every flip so far; flip 0 is the start of the program.
   */
  class FrameClock {
    const threadLog: ThreadLog
    const logStart: array<nat>
    var framePut: nat
    var framePutIndex: nat
    var frameCurrent: nat

    ghost var begins: seq<nat>

    ghost predicate Valid()
      reads this, logStart, threadLog, threadLog.log
    {
      && threadLog.Valid() && logStart.Length == FRAME_HISTORY
      && |begins| == framePutIndex + 1 && framePut == framePutIndex % FRAME_HISTORY
      && begins[0] == 0 && begins[framePutIndex] == threadLog.flipped
      && (forall f :: 0 <= f < framePutIndex ==> begins[f] <= begins[f + 1] < begins[f] + BUFFER_SIZE)
      && Marked(logStart[..], begins)
    }

    /** The number of entries stored when frame `f` began; frames before the first are empty. */
    ghost function Begin(f: int): nat
      reads this
      requires f < |begins|
    {
      Begun(begins, f)
    }

    constructor ()
      ensures Valid() && framePutIndex == 0 && begins == [0] && fresh(threadLog) && fresh(threadLog.log) && fresh(logStart)
    {
      threadLog := new ThreadLog();
      logStart := new nat[FRAME_HISTORY](_ => 0);
      framePut, framePutIndex, frameCurrent := 0, 0, 0;
      begins := [0];
    }

    /** Stores an entry between two flips. */
    method Put(e: Entry)
      requires Valid()
      modifies threadLog, threadLog.log
      ensures Valid()
      ensures threadLog.stored == old(threadLog.stored) || threadLog.stored == old(threadLog.stored) + [e]
    {
      threadLog.Put(e);
    }

    /** The part of a flip that starts a new frame and chooses the one to replay. */
    method Flip()
      requires Valid()
      modifies this, logStart, threadLog`nGet, threadLog`flipped
      ensures Valid() && framePutIndex == old(framePutIndex) + 1
      ensures begins == old(begins) + [|threadLog.stored|] && threadLog.stored == old(threadLog.stored)
      ensures frameCurrent == (framePutIndex + FRAME_HISTORY - FRAME_DELAY - 1) % FRAME_HISTORY
    {
      hide Marked;
      framePutIndex := framePutIndex + 1;
      framePut := (framePut + 1) % FRAME_HISTORY;
      frameCurrent := (framePut + FRAME_HISTORY - FRAME_DELAY - 1) % FRAME_HISTORY;
      NextPlaces(framePutIndex);
      var start := threadLog.Mark();
      MarkedAfterFlip(logStart[..], begins, |threadLog.stored|);
      logStart[framePut] := start;
      begins := begins + [|threadLog.stored|];
      assert logStart[..] == old(logStart[..])[framePut := start];
    }

    /**
     * Replays the current frame, which began four flips before the last one, at any later time. If at most as many entries
     * as the ring holds have been stored since it began, or it is empty, what is read is that frame's entries in order; this is
     * exactly when every slot still holds the entry it is read for.
     */
    method ReplayFrame() returns (out: seq<Entry>, ghost which: seq<int>)
      requires Valid() && framePutIndex > 0
      requires frameCurrent == (framePutIndex + FRAME_HISTORY - FRAME_DELAY - 1) % FRAME_HISTORY
      ensures Begin(framePutIndex - 4) <= Begin(framePutIndex - 3) <= |threadLog.stored|
      ensures |out| == |which| == Begin(framePutIndex - 3) - Begin(framePutIndex - 4)
      ensures |threadLog.stored| <= Begin(framePutIndex - 4) + BUFFER_SIZE ==>
                out == threadLog.stored[Begin(framePutIndex - 4)..Begin(framePutIndex - 3)]
      ensures Consecutive(which, Begin(framePutIndex - 4)) <==>
                |threadLog.stored| <= Begin(framePutIndex - 4) + BUFFER_SIZE || out == []
    {
      ghost var f := framePutIndex - FRAME_DELAY - 1;
      var next := (frameCurrent + 1) % FRAME_HISTORY;
      CurrentFrame(framePutIndex);
      BeginsGrow(f + 1);
      out, which := threadLog.Replay(logStart[frameCurrent], logStart[next], Begin(f), Begin(f + 1));
    }

    /** Frames begin in order, the last one no later than now, and none is as long as the ring. */
    lemma BeginsGrow(f: int)
      requires Valid() && f <= framePutIndex
      ensures Begin(f) <= threadLog.flipped <= |threadLog.stored|
      ensures f <= framePutIndex && Begin(f - 1) <= Begin(f) < Begin(f - 1) + BUFFER_SIZE
      decreases framePutIndex - f
    {
      if 0 <= f < framePutIndex {
        BeginsGrow(f + 1);
      }
    }
  }

  /** The last flip up to number `n` that used place `h` of the history. */
  function HistoryFrame(n: nat, h: nat): (f: int)
    requires h < FRAME_HISTORY
    ensures f <= n
  {
    n - (n - h) % FRAME_HISTORY
  }

  function Begun(begins: seq<nat>, f: int): nat
    requires f < |begins|
  {
    if f < 0 then 0 else begins[f]
  }

  /** Each place of the history holds the slot at which the last frame that used it began. */
  ghost predicate Marked(starts: seq<nat>, begins: seq<nat>) {
    && |starts| == FRAME_HISTORY && begins != []
    && forall h :: 0 <= h < FRAME_HISTORY ==> starts[h] == Begun(begins, HistoryFrame(|begins| - 1, h)) % BUFFER_SIZE
  }

  lemma MarkedAfterFlip(starts: seq<nat>, begins: seq<nat>, n: nat)
    requires Marked(starts, begins)
    ensures Marked(starts[|begins| % FRAME_HISTORY := n % BUFFER_SIZE], begins + [n])
  {
    hide HistoryFrame;
    var starts', begins' := starts[|begins| % FRAME_HISTORY := n % BUFFER_SIZE], begins + [n];
    forall h | 0 <= h < FRAME_HISTORY
      ensures starts'[h] == Begun(begins', HistoryFrame(|begins|, h)) % BUFFER_SIZE
    {
      HistoryAfterFlip(|begins|, h);
    }
  }

  lemma NextPlaces(n: nat)
    requires n > 0
    ensures ((n - 1) % FRAME_HISTORY + 1) % FRAME_HISTORY == n % FRAME_HISTORY
    ensures (n % FRAME_HISTORY + FRAME_HISTORY - FRAME_DELAY - 1) % FRAME_HISTORY == (n + FRAME_HISTORY - FRAME_DELAY - 1) % FRAME_HISTORY
  {
    Around((n - 1) % FRAME_HISTORY + 1, (n - 1) / FRAME_HISTORY);
    Around(n % FRAME_HISTORY + FRAME_HISTORY - FRAME_DELAY - 1, n / FRAME_HISTORY);
  }

  lemma Around(r: int, turns: int)
    ensures (r + turns * FRAME_HISTORY) % FRAME_HISTORY == r % FRAME_HISTORY
  {
  }

  lemma HistoryAfterFlip(n: nat, h: nat)
    requires n > 0 && h < FRAME_HISTORY
    ensures HistoryFrame(n, h) == if h == n % FRAME_HISTORY then n else HistoryFrame(n - 1, h)
  {
  }

  lemma CurrentFrame(n: nat)
    requires n > 0
    ensures var h := (n + FRAME_HISTORY - FRAME_DELAY - 1) % FRAME_HISTORY;
            && HistoryFrame(n, h) == n - FRAME_DELAY - 1
            && HistoryFrame(n, (h + 1) % FRAME_HISTORY) == n - FRAME_DELAY
  {
    var m := n + FRAME_HISTORY - FRAME_DELAY - 1;
    var h, turns := m % FRAME_HISTORY, m / FRAME_HISTORY;
    Around(FRAME_DELAY + 1, turns - 1);
    Around(FRAME_DELAY, if h + 1 < FRAME_HISTORY then turns - 1 else turns);
  }
}

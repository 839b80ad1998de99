/**
 * Who owns a client's socket: `send` (with nested sends for redirects) and `stop` under every interleaving of threads. A
 * critical section of the socket mutex is one step; the recursive request mutex is explicit.
 */
module ClientSocket {
  import opened Bytes

  type Thread = nat

  /**
   * One activation of `send`: before `send_` marks the socket as in use, between that mark and its removal, or after
   * `send_` has returned. `second` tells the retry from the first try.
   */
  datatype Frame = Entered(second: bool) | Active(second: bool) | Left(second: bool)

  /**
   * The client's fields, each thread's activations, innermost last, and whether an assertion has failed. `made` is how many
   * sockets have been created; an open one is the last of them.
   */
  datatype State = State(
    open: bool, made: nat, inFlight: int, from: Option<Thread>, shouldClose: bool,
    mutex: Option<Thread>, stacks: map<Thread, seq<Frame>>, failed: bool)
  {
    function Stack(t: Thread): seq<Frame> { if t in stacks then stacks[t] else [] }

    /** The assertion of `shutdown_ssl` and `close_socket`, when thread `t` closes the socket. */
    function Close(t: Thread): State {
      this.(open := false, failed := failed || !(inFlight == 0 || from == Some(t)))
    }

    function Check(b: bool): State { this.(failed := failed || !b) }

    function Top(t: Thread, f: Frame): State
      requires Stack(t) != []
    {
      this.(stacks := stacks[t := Stack(t)[..|Stack(t)| - 1] + [f]])
    }
  }

  const IDLE := State(false, 0, 0, None, false, None, map[], false)

  datatype Action =
    | Acquire(t: Thread)                               // `send`: the request mutex
    | Begin(t: Thread, alive: bool, connects: bool)    // `send_` up to the mark; what the socket and the peer do
    | CloseAsTold(t: Thread)                           // the response says to close the connection
    | End(t: Thread, ret: bool, closeConnection: bool) // the scope exit of `send_`
    | Retry(t: Thread)                                 // the second `send_`
    | Release(t: Thread)
    | Stop(t: Thread)

  function Last(fs: seq<Frame>): Frame
    requires fs != []
  {
    fs[|fs| - 1]
  }

  /** A nested send is made while a request is being handled. */
  predicate Enabled(s: State, a: Action) {
    var fs := s.Stack(a.t);
    match a
    case Acquire(t) => (s.mutex == None || s.mutex == Some(t)) && (fs == [] || Last(fs).Active?)
    case Begin(_, _, _) => fs != [] && Last(fs).Entered?
    case CloseAsTold(_) => fs != [] && Last(fs).Active?
    case End(_, _, _) => fs != [] && Last(fs).Active?
    case Retry(_) => fs != [] && Last(fs) == Left(false)
    case Release(_) => fs != [] && Last(fs).Left?
    case Stop(_) => true
  }

  function ApplyBegin(s: State, t: Thread, alive: bool, connects: bool): State
    requires s.Stack(t) != []
  {
    var f := Last(s.Stack(t));
    var s0 := s.(shouldClose := false);
    var isAlive := s0.open && alive;
    var s1 := if s0.open && !alive then s0.Close(t) else s0;
    if !isAlive && !connects then s1.Top(t, Left(f.second))
    else
      var s2 := (if isAlive then s1 else s1.(open := true, made := s1.made + 1)).Check(s1.inFlight > 1 ==> s1.from == Some(t));
      s2.(inFlight := s2.inFlight + 1, from := Some(t)).Top(t, Active(f.second))
  }

  function ApplyEnd(s: State, t: Thread, ret: bool, closeConnection: bool): State
    requires s.Stack(t) != []
  {
    var f := Last(s.Stack(t));
    var s0 := s.(inFlight := s.inFlight - 1);
    var s1 := if s0.inFlight <= 0 then s0.Check(s0.inFlight == 0).(from := None) else s0;
    var s2 := if s1.shouldClose || closeConnection || !ret then s1.Close(t) else s1;
    s2.Top(t, Left(f.second))
  }

  function Apply(s: State, a: Action): State
    requires Enabled(s, a)
  {
    match a
    case Acquire(t) => s.(mutex := Some(t), stacks := s.stacks[t := s.Stack(t) + [Entered(false)]])
    case Begin(t, alive, connects) => ApplyBegin(s, t, alive, connects)
    case CloseAsTold(t) => s.Close(t)
    case End(t, ret, closeConnection) => ApplyEnd(s, t, ret, closeConnection)
    case Retry(t) => s.Top(t, Entered(true))
    case Release(t) =>
      var rest := s.Stack(t)[..|s.Stack(t)| - 1];
      s.(stacks := s.stacks[t := rest], mutex := if rest == [] then None else s.mutex)
    case Stop(t) => if s.inFlight > 0 then s.(shouldClose := true) else s.Close(t)
  }

  predicate Runs(s: State, actions: seq<Action>, t: State)
    decreases |actions|
  {
    if actions == [] then s == t
    else Enabled(s, actions[0]) && Runs(Apply(s, actions[0]), actions[1..], t)
  }

  /** The requests a thread has under way: all its activations but the innermost, and that one while it is active. */
  function UnderWay(fs: seq<Frame>): nat {
    if |fs| == 0 then 0 else if Last(fs).Active? then |fs| else |fs| - 1
  }

  ghost predicate Inv(s: State) {
    && !s.failed
    && (forall t: Thread :: s.Stack(t) != [] ==> s.mutex == Some(t))
    && (s.mutex.Some? ==> s.Stack(s.mutex.value) != [])
    && (forall t: Thread, i :: 0 <= i < |s.Stack(t)| - 1 ==> s.Stack(t)[i].Active?)
    && s.inFlight == (if s.mutex.None? then 0 else UnderWay(s.Stack(s.mutex.value)))
    && s.from == (if s.inFlight > 0 then s.mutex else None)
  }

  lemma TopStack(s: State, t: Thread, f: Frame)
    requires s.Stack(t) != []
    ensures var u := s.Top(t, f);
            && |u.Stack(t)| == |s.Stack(t)| && Last(u.Stack(t)) == f
            && (forall i :: 0 <= i < |s.Stack(t)| - 1 ==> u.Stack(t)[i] == s.Stack(t)[i])
            && forall o: Thread :: o != t ==> u.Stack(o) == s.Stack(o)
  {
  }

  lemma StepInv(s: State, a: Action)
    requires Inv(s) && Enabled(s, a)
    ensures Inv(Apply(s, a))
  {
    match a
    case Acquire(t) => AcquireInv(s, t);
    case Begin(t, alive, connects) => BeginInv(s, t, alive, connects);
    case End(t, ret, closeConnection) => EndInv(s, t, ret, closeConnection);
    case Retry(t) => TopStack(s, t, Entered(true));
    case Release(t) => ReleaseInv(s, t);
    case _ =>
  }

  lemma AcquireInv(s: State, t: Thread)
    requires Inv(s) && Enabled(s, Acquire(t))
    ensures Inv(Apply(s, Acquire(t)))
  {
    var u := Apply(s, Acquire(t));
    assert u.Stack(t) == s.Stack(t) + [Entered(false)];
    assert forall o: Thread :: o != t ==> u.Stack(o) == s.Stack(o);
    assert s.mutex.None? ==> s.Stack(t) == [];
  }

  lemma BeginInv(s: State, t: Thread, alive: bool, connects: bool)
    requires Inv(s) && Enabled(s, Begin(t, alive, connects))
    ensures Inv(Apply(s, Begin(t, alive, connects)))
  {
    hide UnderWay;
    Counts(s, t);
    var f := Last(s.Stack(t));
    TopStack(s, t, Left(f.second));
    TopStack(s, t, Active(f.second));
    var u := Apply(s, Begin(t, alive, connects));
    Counts(u, t);
    assert forall o: Thread :: o != t ==> u.Stack(o) == s.Stack(o);
  }

  lemma EndInv(s: State, t: Thread, ret: bool, closeConnection: bool)
    requires Inv(s) && Enabled(s, End(t, ret, closeConnection))
    ensures Inv(Apply(s, End(t, ret, closeConnection)))
  {
    hide UnderWay;
    Counts(s, t);
    TopStack(s, t, Left(Last(s.Stack(t)).second));
    var u := Apply(s, End(t, ret, closeConnection));
    Counts(u, t);
    assert forall o: Thread :: o != t ==> u.Stack(o) == s.Stack(o);
  }

  lemma Counts(s: State, t: Thread)
    requires s.Stack(t) != []
    ensures UnderWay(s.Stack(t)) == if Last(s.Stack(t)).Active? then |s.Stack(t)| else |s.Stack(t)| - 1
  {
  }

  lemma ReleaseInv(s: State, t: Thread)
    requires Inv(s) && Enabled(s, Release(t))
    ensures Inv(Apply(s, Release(t)))
  {
    var u := Apply(s, Release(t));
    assert u.Stack(t) == s.Stack(t)[..|s.Stack(t)| - 1];
    assert forall o: Thread :: o != t ==> u.Stack(o) == s.Stack(o);
  }

  lemma {:induction false} RunInv(s: State, actions: seq<Action>, t: State)
    requires Inv(s) && Runs(s, actions, t)
    ensures Inv(t)
    decreases |actions|
  {
    if actions != [] {
      hide Inv, Apply;
      StepInv(s, actions[0]);
      RunInv(Apply(s, actions[0]), actions[1..], t);
    }
  }

  /**
   * In every interleaving the assertions hold; a count above zero means that the recorded thread holds the request mutex
   * and has that many requests under way; and when no thread is sending, the count is back at zero.
   */
  lemma OwnershipHolds(actions: seq<Action>, s: State)
    requires Runs(IDLE, actions, s)
    ensures !s.failed && s.inFlight >= 0
    ensures s.inFlight > 0 ==> s.from.Some? && s.mutex == s.from && s.inFlight == UnderWay(s.Stack(s.from.value))
    ensures (forall t: Thread :: s.Stack(t) == []) ==> s.inFlight == 0 && s.from == None && s.mutex == None
  {
    RunInv(IDLE, actions, s);
  }

  // ----- What a stop achieves -----

  predicate NoBegin(actions: seq<Action>) { forall i :: 0 <= i < |actions| ==> !actions[i].Begin? }
  predicate NoStop(actions: seq<Action>) { forall i :: 0 <= i < |actions| ==> !actions[i].Stop? }

  lemma StepFlag(s: State, a: Action)
    requires Enabled(s, a)
    ensures var t := Apply(s, a);
            && (a.Begin? ==> !t.shouldClose)
            && (!a.Begin? && !a.Stop? ==> t.shouldClose == s.shouldClose)
            && (a.Stop? ==> (t.shouldClose <==> s.shouldClose || s.inFlight > 0))
            && (!a.Begin? && !s.open ==> !t.open)
  {
  }

  /** The flag a stop sets stays until the next `send_` begins; only that can open a socket. */
  lemma {:induction false} FlagLasts(s: State, actions: seq<Action>, t: State)
    requires Runs(s, actions, t) && NoStop(actions)
    ensures if NoBegin(actions) then t.shouldClose == s.shouldClose && (!s.open ==> !t.open) else !t.shouldClose
    decreases |actions|
  {
    if actions != [] {
      hide Apply;
      StepFlag(s, actions[0]);
      var rest := actions[1..];
      assert forall i :: 0 <= i < |rest| ==> rest[i] == actions[i + 1];
      assert forall i :: 0 < i < |actions| ==> actions[i] == rest[i - 1];
      FlagLasts(Apply(s, actions[0]), rest, t);
    }
  }

  /**
   * What becomes of a stop that saw a request in flight: however the innermost request ends, the socket is open afterwards if
   * and only if it was open, a `send_` has begun since the stop, the request succeeded and its connection is to be kept.
   */
  lemma StopExactly(s: State, stopper: Thread, actions: seq<Action>, t: State, sender: Thread, ret: bool, closeConnection: bool)
    requires s.inFlight > 0 && Runs(Apply(s, Stop(stopper)), actions, t) && NoStop(actions)
    requires Enabled(t, End(sender, ret, closeConnection))
    ensures Apply(t, End(sender, ret, closeConnection)).open <==> t.open && !NoBegin(actions) && ret && !closeConnection
  {
    FlagLasts(Apply(s, Stop(stopper)), actions, t);
  }

  // ----- When the socket is open -----

  ghost predicate SawRequest(s: State, actions: seq<Action>) { exists u :: Runs(s, actions, u) && u.inFlight > 0 }

  /** A stop has seen a request in flight, and no `send_` has begun since. */
  ghost predicate StopPending(s: State, actions: seq<Action>) {
    exists i :: 0 <= i < |actions| && actions[i].Stop? && NoBegin(actions[i..]) && SawRequest(s, actions[..i])
  }

  /** The state before the last action of a run. */
  lemma {:induction false} BeforeLast(s: State, actions: seq<Action>, a: Action, t: State) returns (u: State)
    requires Runs(s, actions + [a], t)
    ensures Runs(s, actions, u) && Enabled(u, a) && Apply(u, a) == t
    decreases |actions|
  {
    hide Apply, Enabled;
    if actions == [] {
      u := s;
      assert actions + [a] == [a] && [a][1..] == [];
      assert Runs(s, [a], t);
    } else {
      assert (actions + [a])[1..] == actions[1..] + [a];
      u := BeforeLast(Apply(s, actions[0]), actions[1..], a, t);
    }
  }

  lemma {:induction false} RunsOneWay(s: State, actions: seq<Action>, t: State, u: State)
    requires Runs(s, actions, t) && Runs(s, actions, u)
    ensures t == u
    decreases |actions|
  {
    hide Apply, Enabled;
    if actions != [] {
      RunsOneWay(Apply(s, actions[0]), actions[1..], t, u);
    }
  }

  /** The flag says whether a stop is pending. */
  lemma {:induction false} FlagIs(actions: seq<Action>, t: State)
    requires Runs(IDLE, actions, t)
    ensures t.shouldClose <==> StopPending(IDLE, actions)
    decreases |actions|
  {
    hide Apply, Enabled;
    if actions != [] {
      var n := |actions| - 1;
      var xs, a := actions[..n], actions[n];
      assert actions == xs + [a];
      var u := BeforeLast(IDLE, xs, a, t);
      FlagIs(xs, u);
      StepFlag(u, a);
      PendingStep(xs, a, u);
    }
  }

  lemma PendingStep(xs: seq<Action>, a: Action, u: State)
    requires Runs(IDLE, xs, u)
    ensures StopPending(IDLE, xs + [a]) <==> !a.Begin? && (StopPending(IDLE, xs) || (a.Stop? && u.inFlight > 0))
  {
    hide Runs;
    var all, n := xs + [a], |xs|;
    assert all[..n] == xs && all[n..] == [a];
    forall i | 0 <= i < n ensures all[..i] == xs[..i] && (NoBegin(all[i..]) <==> NoBegin(xs[i..]) && !a.Begin?) {
      assert all[i..] == xs[i..] + [a];
      NoBeginJoin(xs[i..], a);
    }
    if a.Stop? && SawRequest(IDLE, xs) {
      var v :| Runs(IDLE, xs, v) && v.inFlight > 0;
      RunsOneWay(IDLE, xs, u, v);
    }
  }

  lemma NoBeginJoin(xs: seq<Action>, a: Action)
    ensures NoBegin(xs + [a]) <==> NoBegin(xs) && !a.Begin?
  {
    assert (xs + [a])[|xs|] == a;
    assert forall i :: 0 <= i < |xs| ==> (xs + [a])[i] == xs[i];
  }

  /** Exactly when the end of a request leaves the socket open, in every run. */
  lemma EndExactly(actions: seq<Action>, t: State, sender: Thread, ret: bool, closeConnection: bool)
    requires Runs(IDLE, actions, t) && Enabled(t, End(sender, ret, closeConnection))
    ensures var u := Apply(t, End(sender, ret, closeConnection));
            && (u.open <==> t.open && !StopPending(IDLE, actions) && ret && !closeConnection)
            && u.made == t.made && u.inFlight == t.inFlight - 1 && u.shouldClose == t.shouldClose
            && (u.from == if u.inFlight > 0 then t.from else None) && Last(u.Stack(sender)).Left?
  {
    FlagIs(actions, t);
  }

  /**
   * What the start of `send_` does to the socket: a live one is used again, any other is given up for a new one, and the
   * request is under way exactly if there is an open socket then.
   */
  lemma BeginExactly(s: State, t: Thread, alive: bool, connects: bool)
    requires Enabled(s, Begin(t, alive, connects))
    ensures var u := Apply(s, Begin(t, alive, connects)); var top := Last(u.Stack(t));
            && u.made == s.made + (if !(s.open && alive) && connects then 1 else 0)
            && (u.open <==> (s.open && alive) || connects) && (top.Active? <==> u.open) && (top.Left? <==> !u.open)
            && u.inFlight == s.inFlight + (if u.open then 1 else 0) && (u.open ==> u.from == Some(t)) && !u.shouldClose
            && top.second == Last(s.Stack(t)).second
  {
    TopStack(s, t, Active(Last(s.Stack(t)).second));
    TopStack(s, t, Left(Last(s.Stack(t)).second));
  }

  /** A stop and a response that says so close the socket at once, unless the stop finds a request in flight. */
  lemma ClosesAtOnce(s: State, t: Thread)
    ensures s.inFlight <= 0 ==> !Apply(s, Stop(t)).open && Apply(s, Stop(t)).shouldClose == s.shouldClose
    ensures s.inFlight > 0 ==> Apply(s, Stop(t)).open == s.open && Apply(s, Stop(t)).shouldClose
    ensures Enabled(s, CloseAsTold(t)) ==> !Apply(s, CloseAsTold(t)).open && Apply(s, CloseAsTold(t)).stacks == s.stacks
  {
  }

  predicate KeepsNone(actions: seq<Action>) {
    forall i :: 0 <= i < |actions| && actions[i].End? ==> actions[i].closeConnection || !actions[i].ret
  }

  /** When no connection is kept, no socket is open while no request is under way. */
  lemma {:induction false} ClosedFrom(s: State, actions: seq<Action>, t: State)
    requires Inv(s) && (s.inFlight == 0 ==> !s.open) && Runs(s, actions, t) && KeepsNone(actions)
    ensures t.inFlight == 0 ==> !t.open
    decreases |actions|
  {
    if actions != [] {
      hide Inv;
      var a, rest := actions[0], actions[1..];
      StepInv(s, a);
      CountIs(s);
      assert forall i :: 0 <= i < |rest| ==> rest[i] == actions[i + 1];
      ClosedStep(s, a);
      ClosedFrom(Apply(s, a), rest, t);
    }
  }

  lemma CountIs(s: State)
    requires Inv(s)
    ensures s.inFlight >= 0
  {
  }

  lemma ClosedStep(s: State, a: Action)
    requires s.inFlight >= 0 && (s.inFlight == 0 ==> !s.open) && Enabled(s, a)
    requires a.End? ==> a.closeConnection || !a.ret
    ensures Apply(s, a).inFlight == 0 ==> !Apply(s, a).open
  {
  }

  lemma ClosedWhenIdle(actions: seq<Action>, t: State)
    requires Runs(IDLE, actions, t) && KeepsNone(actions) && t.inFlight == 0
    ensures !t.open
  {
    ClosedFrom(IDLE, actions, t);
  }

  // ----- How often a request is tried -----

  function Count(actions: seq<Action>, which: Action -> bool): nat {
    if actions == [] then 0 else (if which(actions[0]) then 1 else 0) + Count(actions[1..], which)
  }

  /** How many more times the activations of `send` may call `send_`. */
  function Tries(fs: seq<Frame>): nat {
    if fs == [] then 0
    else Tries(fs[..|fs| - 1]) + (if Last(fs).Entered? then 1 else 0) + (if Last(fs).second then 0 else 1)
  }

  function TriesLeft(s: State): nat { if s.mutex.None? then 0 else Tries(s.Stack(s.mutex.value)) }

  lemma TopTries(s: State, t: Thread, f: Frame)
    requires s.Stack(t) != []
    ensures Tries(s.Top(t, f).Stack(t)) - Tries(s.Stack(t)) == Tries([f]) - Tries([Last(s.Stack(t))])
  {
    var fs := s.Stack(t);
    var gs := fs[..|fs| - 1] + [f];
    assert s.Top(t, f).Stack(t) == gs && gs[..|gs| - 1] == fs[..|fs| - 1];
    assert [f][..0] == [] && [Last(fs)][..0] == [];
  }

  lemma Holder(s: State, t: Thread)
    requires Inv(s)
    ensures s.Stack(t) != [] ==> s.mutex == Some(t)
    ensures s.mutex.None? ==> s.Stack(t) == []
  {
  }

  /** Only a new `send` adds tries, two at a time, and each `send_` takes one. */
  lemma StepTries(s: State, a: Action)
    requires Inv(s) && Enabled(s, a)
    ensures var before, after := TriesLeft(s), TriesLeft(Apply(s, a));
            (if a.Begin? then 1 else 0) + after <= before + if a.Acquire? then 2 else 0
  {
    hide Inv, Tries;
    Holder(s, a.t);
    match a
    case Acquire(t) => AcquireTries(s, t);
    case Begin(t, alive, connects) => BeginTries(s, t, alive, connects);
    case End(t, ret, closeConnection) => EndTries(s, t, ret, closeConnection);
    case Retry(t) => RetryTries(s, t);
    case Release(t) => ReleaseTries(s, t);
    case _ =>
  }

  lemma AcquireTries(s: State, t: Thread)
    requires Inv(s) && Enabled(s, Acquire(t))
    ensures TriesLeft(Apply(s, Acquire(t))) == TriesLeft(s) + 2
  {
    hide Inv;
    Holder(s, t);
    var fs, gs := s.Stack(t), s.Stack(t) + [Entered(false)];
    assert gs[..|gs| - 1] == fs && Last(gs) == Entered(false);
    assert Tries(gs) == Tries(fs) + 2;
    assert Apply(s, Acquire(t)).Stack(t) == gs;
    assert TriesLeft(s) == Tries(fs);
  }

  lemma BeginTries(s: State, t: Thread, alive: bool, connects: bool)
    requires s.mutex == Some(t) && Enabled(s, Begin(t, alive, connects))
    ensures 1 + TriesLeft(Apply(s, Begin(t, alive, connects))) <= TriesLeft(s)
  {
    hide Tries;
    var f := Last(s.Stack(t));
    TopTries(s, t, Active(f.second));
    TopTries(s, t, Left(f.second));
    SoleTries(f);
    SoleTries(Active(f.second));
    SoleTries(Left(f.second));
  }

  lemma EndTries(s: State, t: Thread, ret: bool, closeConnection: bool)
    requires s.mutex == Some(t) && Enabled(s, End(t, ret, closeConnection))
    ensures TriesLeft(Apply(s, End(t, ret, closeConnection))) == TriesLeft(s)
  {
    hide Tries;
    var f := Last(s.Stack(t));
    TopTries(s, t, Left(f.second));
    SoleTries(f);
    SoleTries(Left(f.second));
  }

  lemma RetryTries(s: State, t: Thread)
    requires s.mutex == Some(t) && Enabled(s, Retry(t))
    ensures TriesLeft(Apply(s, Retry(t))) == TriesLeft(s)
  {
    hide Tries;
    TopTries(s, t, Entered(true));
    SoleTries(Left(false));
    SoleTries(Entered(true));
  }

  lemma ReleaseTries(s: State, t: Thread)
    requires s.mutex == Some(t) && Enabled(s, Release(t))
    ensures TriesLeft(Apply(s, Release(t))) <= TriesLeft(s)
  {
    var fs := s.Stack(t);
    assert Apply(s, Release(t)).Stack(t) == fs[..|fs| - 1];
    assert Tries(fs) >= Tries(fs[..|fs| - 1]);
  }

  lemma SoleTries(f: Frame)
    ensures Tries([f]) == (if f.Entered? then 1 else 0) + if f.second then 0 else 1
  {
    assert [f][..0] == [];
  }

  lemma {:induction false} TriesFrom(s: State, actions: seq<Action>, t: State)
    requires Inv(s) && Runs(s, actions, t)
    ensures Count(actions, (a: Action) => a.Begin?) + TriesLeft(t) <= TriesLeft(s) + 2 * Count(actions, (a: Action) => a.Acquire?)
    decreases |actions|
  {
    if actions != [] {
      hide Inv, Apply, Enabled, TriesLeft;
      StepInv(s, actions[0]);
      StepTries(s, actions[0]);
      TriesFrom(Apply(s, actions[0]), actions[1..], t);
    }
  }

  /** In every run `send_` is called at most twice for each call of `send`. */
  lemma TriedTwice(actions: seq<Action>, t: State)
    requires Runs(IDLE, actions, t)
    ensures Count(actions, (a: Action) => a.Begin?) <= 2 * Count(actions, (a: Action) => a.Acquire?)
  {
    TriesFrom(IDLE, actions, t);
  }

  // ----- A stop that is lost -----

  /** Thread 1 alone is sending, with the activations `fs`. */
  function Sending(inFlight: int, shouldClose: bool, fs: seq<Frame>): State {
    State(true, 1, inFlight, if inFlight > 0 then Some(1) else None, shouldClose, Some(1), map[1 := fs], false)
  }

  lemma FirstBegins()
    ensures Runs(IDLE, [Acquire(1), Begin(1, true, true)], Sending(1, false, [Active(false)]))
  {
    hide Runs;
    var a := IDLE.(mutex := Some(1), stacks := map[1 := [Entered(false)]]);
    assert IDLE.Stack(1) + [Entered(false)] == [Entered(false)];
    assert Apply(IDLE, Acquire(1)).stacks == a.stacks;
    assert a.Stack(1)[..0] + [Active(false)] == [Active(false)];
    assert Apply(a, Begin(1, true, true)).stacks == map[1 := [Active(false)]];
    RunsTwo(IDLE, Acquire(1), Begin(1, true, true), Sending(1, false, [Active(false)]));
  }

  /** A first request is under way when thread 2 stops the client; a redirect then begins a second one. */
  lemma StopThenRedirect()
    ensures Runs(Sending(1, false, [Active(false)]), [Stop(2), Acquire(1)], Sending(1, true, [Active(false), Entered(false)]))
  {
    hide Runs;
    var b := Sending(1, false, [Active(false)]);
    var c := Apply(b, Stop(2));
    assert c.Stack(1) + [Entered(false)] == [Active(false), Entered(false)];
    assert Apply(c, Acquire(1)).stacks == map[1 := [Active(false), Entered(false)]];
    RunsTwo(b, Stop(2), Acquire(1), Sending(1, true, [Active(false), Entered(false)]));
  }

  lemma RedirectRuns()
    ensures Runs(Sending(1, true, [Active(false), Entered(false)]), [Begin(1, true, true), End(1, true, false)],
                 Sending(1, false, [Active(false), Left(false)]))
  {
    hide Runs;
    var a, b := Sending(1, true, [Active(false), Entered(false)]), Sending(2, false, [Active(false), Active(false)]);
    assert a.Stack(1)[..1] + [Active(false)] == [Active(false), Active(false)];
    assert Apply(a, Begin(1, true, true)).stacks == b.stacks;
    var c := Sending(1, false, [Active(false), Left(false)]);
    assert b.Stack(1)[..1] + [Left(false)] == [Active(false), Left(false)];
    assert Apply(b, End(1, true, false)).stacks == c.stacks;
    RunsTwo(a, Begin(1, true, true), End(1, true, false), c);
  }

  lemma RedirectEnds()
    ensures Runs(Sending(1, false, [Active(false), Left(false)]), [Release(1), End(1, true, false)],
                 Sending(0, false, [Left(false)]))
  {
    hide Runs;
    var c, d := Sending(1, false, [Active(false), Left(false)]), Sending(1, false, [Active(false)]);
    assert c.Stack(1)[..1] == [Active(false)];
    assert Apply(c, Release(1)).stacks == d.stacks;
    assert d.Stack(1)[..0] + [Left(false)] == [Left(false)];
    assert Apply(d, End(1, true, false)).stacks == map[1 := [Left(false)]];
    RunsTwo(c, Release(1), End(1, true, false), Sending(0, false, [Left(false)]));
  }

  lemma RunsTwo(s: State, a: Action, b: Action, t: State)
    requires Enabled(s, a) && Enabled(Apply(s, a), b) && Apply(Apply(s, a), b) == t
    ensures Runs(s, [a, b], t)
  {
    hide Apply, Enabled;
    assert [a, b][1..] == [b] && [b][1..] == [];
    assert Runs(t, [], t);
  }

  lemma {:induction false} RunsJoin(s: State, xs: seq<Action>, t: State, ys: seq<Action>, u: State)
    requires Runs(s, xs, t) && Runs(t, ys, u)
    ensures Runs(s, xs + ys, u)
    decreases |xs|
  {
    hide Apply, Enabled;
    if xs == [] {
      assert xs + ys == ys;
    } else {
      assert (xs + ys)[1..] == xs[1..] + ys;
      RunsJoin(Apply(s, xs[0]), xs[1..], t, ys, u);
    }
  }

  /**
   * A stop can be lost: it arrives while a request is under way, the redirect of that request clears the flag, and when
   * both have ended well the client is idle with an open socket.
   */
  lemma StopLost() returns (before: seq<Action>, after: seq<Action>, s: State)
    ensures Runs(IDLE, before + [Stop(2)] + after, s) && NoStop(after)
    ensures s.open && s.inFlight == 0 && s.Stack(1) == [Left(false)]
  {
    hide Runs, Apply;
    before := [Acquire(1), Begin(1, true, true)];
    after := [Acquire(1), Begin(1, true, true), End(1, true, false), Release(1), End(1, true, false)];
    s := Sending(0, false, [Left(false)]);
    FirstBegins();
    StopThenRedirect();
    RedirectRuns();
    RedirectEnds();
    var b, c, d := Sending(1, false, [Active(false)]), Sending(1, true, [Active(false), Entered(false)]), Sending(1, false, [Active(false), Left(false)]);
    var x, y, z, w := before, [Stop(2), Acquire(1)], [Begin(1, true, true), End(1, true, false)], [Release(1), End(1, true, false)];
    RunsJoin(IDLE, x, b, y, c);
    RunsJoin(IDLE, x + y, c, z, d);
    RunsJoin(IDLE, x + y + z, d, w, s);
    assert x + y + z + w == before + [Stop(2)] + after;
  }
}

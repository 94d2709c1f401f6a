/** Several producers probing one serial port: which of them ever touches the line. */
module PortLock {
  import opened Bytes

  type Pid = nat

  // ---------------------------------------------------------------- what the kernel does

  /** A call of one process. `Configure` sets the line up, `Use` flushes, reads or writes it, and `Close` is
      an orderly close, an error after the open, or a crash. */
  datatype Action = Open(p: Pid) | Lock(p: Pid) | Claim(p: Pid) | Configure(p: Pid) | Use(p: Pid) | Close(p: Pid)

  datatype Event = Began(p: Pid) | Acquired(p: Pid) | Released(p: Pid) | Touched(p: Pid)

  /** Who has the port open, the whole-device lock, and the flag that makes a later open fail. */
  datatype Kernel = Kernel(openers: set<Pid>, lock: Option<Pid>, exclusive: bool, trace: seq<Event>)

  predicate CanOpen(k: Kernel, p: Pid) {
    p !in k.openers && !k.exclusive
  }

  predicate CanLock(k: Kernel, p: Pid) {
    p in k.openers && (k.lock.None? || k.lock == Some(p))
  }

  /** Whether a call succeeds. The kernel asks nothing of the order of calls: whoever has the port open may
      lock it, claim it and touch the line. */
  predicate Succeeds(k: Kernel, a: Action) {
    match a
    case Open(p) => CanOpen(k, p)
    case Lock(p) => CanLock(k, p)
    case _ => a.p in k.openers
  }

  function EventOf(k: Kernel, a: Action): Option<Event>
    requires Succeeds(k, a)
  {
    match a
    case Open(p) => Some(Began(p))
    case Lock(p) => if k.lock.None? then Some(Acquired(p)) else None
    case Claim(_) => None
    case Configure(p) => Some(Touched(p))
    case Use(p) => Some(Touched(p))
    case Close(p) => if k.lock == Some(p) then Some(Released(p)) else None
  }

  function Appended(trace: seq<Event>, e: Option<Event>): seq<Event> {
    if e.Some? then trace + [e.value] else trace
  }

  /** The lock goes with its holder's descriptor, and the flag with the last descriptor. */
  function Call(k: Kernel, a: Action): Kernel {
    if !Succeeds(k, a) then k
    else
      var trace := Appended(k.trace, EventOf(k, a));
      match a
      case Open(p) => Kernel(k.openers + {p}, k.lock, k.exclusive, trace)
      case Lock(p) => Kernel(k.openers, Some(p), k.exclusive, trace)
      case Claim(_) => Kernel(k.openers, k.lock, true, trace)
      case Configure(_) => Kernel(k.openers, k.lock, k.exclusive, trace)
      case Use(_) => Kernel(k.openers, k.lock, k.exclusive, trace)
      case Close(p) =>
        Kernel(k.openers - {p}, if k.lock == Some(p) then None else k.lock, k.exclusive && k.openers - {p} != {}, trace)
  }

  // ---------------------------------------------------------------- what a process does

  /** How far a process has got. `Lost` is one that the lock turned away. */
  datatype Stage = Closed | Opened | Lost | Locked | Exclusive | Configured

  /** The order every producer keeps: open, lock, set the flag, configure, use; it may close at any point
      after the open, and there is nothing else it may do once the lock has turned it away. */
  predicate Permitted(stage: Stage, a: Action) {
    match a
    case Open(_) => stage == Closed
    case Lock(_) => stage == Opened
    case Claim(_) => stage == Locked
    case Configure(_) => stage == Exclusive
    case Use(_) => stage == Configured
    case Close(_) => stage != Closed
  }

  /** Where a call leaves the process that made it. */
  function NextStage(stage: Stage, a: Action, ok: bool): Stage {
    match a
    case Open(_) => if ok then Opened else stage
    case Lock(_) => if ok then Locked else Lost
    case Claim(_) => if ok then Exclusive else stage
    case Configure(_) => if ok then Configured else stage
    case Use(_) => stage
    case Close(_) => Closed
  }

  /** The kernel, and how far each process has got. */
  datatype State = State(kernel: Kernel, stages: map<Pid, Stage>)

  const UNUSED := State(Kernel({}, None, false, []), map[])

  function StageOf(s: State, p: Pid): Stage {
    if p in s.stages then s.stages[p] else Closed
  }

  /** One call of one process, in whatever order it comes. */
  function Step(s: State, a: Action): State {
    State(Call(s.kernel, a), s.stages[a.p := NextStage(StageOf(s, a.p), a, Succeeds(s.kernel, a))])
  }

  function Run(s: State, actions: seq<Action>): State
    decreases |actions|
  {
    if actions == [] then s else Run(Step(s, actions[0]), actions[1..])
  }

  /** Every process keeps the order, each by what its own calls returned. How they interleave is free. */
  predicate Follows(s: State, actions: seq<Action>)
    decreases |actions|
  {
    actions == [] || (Permitted(StageOf(s, actions[0].p), actions[0]) && Follows(Step(s, actions[0]), actions[1..]))
  }

  lemma {:induction false} RunJoin(s: State, a: seq<Action>, b: seq<Action>)
    ensures Run(s, a + b) == Run(Run(s, a), b)
    ensures Follows(s, a + b) <==> Follows(s, a) && Follows(Run(s, a), b)
    decreases |a|
  {
    if a == [] {
      assert a + b == b;
    } else {
      assert (a + b)[1..] == a[1..] + b;
      RunJoin(Step(s, a[0]), a[1..], b);
    }
  }

  // ---------------------------------------------------------------- what a trace must look like

  /** Who holds the port after a trace, if it is an orderly one: taken only when free, given back only by
      its holder, and touched only by its holder. */
  function Holder(trace: seq<Event>): Option<Option<Pid>> {
    if trace == [] then Some(None)
    else
      match Holder(trace[..|trace| - 1])
      case None => None
      case Some(holder) => HolderAfter(holder, trace[|trace| - 1])
  }

  function HolderAfter(holder: Option<Pid>, e: Event): Option<Option<Pid>> {
    match e
    case Began(_) => Some(holder)
    case Acquired(p) => if holder.None? then Some(Some(p)) else None
    case Released(p) => if holder == Some(p) then Some(None) else None
    case Touched(p) => if holder == Some(p) then Some(holder) else None
  }

  predicate Orderly(trace: seq<Event>) {
    Holder(trace).Some?
  }

  predicate TouchedSinceOpen(trace: seq<Event>, p: Pid) {
    if trace == [] then false
    else
      var e := trace[|trace| - 1];
      if e == Touched(p) then true else if e == Began(p) then false else TouchedSinceOpen(trace[..|trace| - 1], p)
  }

  lemma {:induction false} OneMore(trace: seq<Event>, e: Event)
    ensures Holder(trace + [e]) == (match Holder(trace) case None => None case Some(h) => HolderAfter(h, e))
    ensures forall p :: TouchedSinceOpen(trace + [e], p) <==> e == Touched(p) || (e != Began(p) && TouchedSinceOpen(trace, p))
  {
    assert (trace + [e])[..|trace|] == trace;
  }

  // ---------------------------------------------------------------- the invariant

  predicate Holds(stage: Stage) {
    stage in {Locked, Exclusive, Configured}
  }

  predicate Early(stage: Stage) {
    stage in {Opened, Lost, Locked, Exclusive}
  }

  /** Each process is where the kernel has it. */
  ghost predicate Known(k: Kernel, p: Pid, stage: Stage) {
    && (stage != Closed <==> p in k.openers)
    && (Holds(stage) <==> k.lock == Some(p))
    && (Early(stage) ==> !TouchedSinceOpen(k.trace, p))
  }

  ghost predicate Inv(s: State) {
    && (forall p: Pid :: Known(s.kernel, p, StageOf(s, p)))
    && Holder(s.kernel.trace) == Some(s.kernel.lock)
  }

  lemma {:induction false} CallKeepsOther(k: Kernel, a: Action, q: Pid, stage: Stage)
    requires q != a.p && Known(k, q, stage)
    ensures Known(Call(k, a), q, stage)
  {
    if Succeeds(k, a) && EventOf(k, a).Some? { OneMore(k.trace, EventOf(k, a).value); }
  }

  /** A call that follows the order, told without the trace: the marks it leaves, and its event. */
  lemma {:induction false} CallMarks(k: Kernel, a: Action, stage: Stage)
    requires (stage != Closed <==> a.p in k.openers) && (Holds(stage) <==> k.lock == Some(a.p)) && Permitted(stage, a)
    ensures var after, next := Call(k, a), NextStage(stage, a, Succeeds(k, a));
            (next != Closed <==> a.p in after.openers) && (Holds(next) <==> after.lock == Some(a.p))
    ensures !Succeeds(k, a) || EventOf(k, a).None? ==> Call(k, a).lock == k.lock
    ensures Succeeds(k, a) && EventOf(k, a).Some? ==> HolderAfter(k.lock, EventOf(k, a).value) == Some(Call(k, a).lock)
  {
  }

  lemma {:induction false} CallTouch(k: Kernel, a: Action, stage: Stage)
    requires Permitted(stage, a) && (stage != Closed <==> a.p in k.openers)
    requires Early(stage) ==> !TouchedSinceOpen(k.trace, a.p)
    ensures Early(NextStage(stage, a, Succeeds(k, a))) ==> !TouchedSinceOpen(Call(k, a).trace, a.p)
  {
    OwnTouch(k, a);
  }

  predicate TouchedAfter(before: bool, a: Action, ok: bool) {
    if ok && (a.Configure? || a.Use?) then true else if ok && a.Open? then false else before
  }

  lemma {:induction false} OwnTouch(k: Kernel, a: Action)
    ensures TouchedSinceOpen(Call(k, a).trace, a.p) == TouchedAfter(TouchedSinceOpen(k.trace, a.p), a, Succeeds(k, a))
  {
    if Succeeds(k, a) && EventOf(k, a).Some? { OneMore(k.trace, EventOf(k, a).value); }
  }

  lemma {:induction false} CallTrace(k: Kernel, a: Action)
    requires Holder(k.trace) == Some(k.lock)
    ensures Succeeds(k, a) && EventOf(k, a).Some? ==> Holder(Call(k, a).trace) == HolderAfter(k.lock, EventOf(k, a).value)
    ensures !Succeeds(k, a) || EventOf(k, a).None? ==> Call(k, a).trace == k.trace
  {
    if Succeeds(k, a) && EventOf(k, a).Some? { OneMore(k.trace, EventOf(k, a).value); }
  }

  lemma {:induction false} CallKeepsOwn(k: Kernel, a: Action, stage: Stage)
    requires Known(k, a.p, stage) && Permitted(stage, a) && Holder(k.trace) == Some(k.lock)
    ensures Known(Call(k, a), a.p, NextStage(stage, a, Succeeds(k, a)))
    ensures Holder(Call(k, a).trace) == Some(Call(k, a).lock)
  {
    CallMarks(k, a, stage);
    CallTouch(k, a, stage);
    CallTrace(k, a);
  }

  lemma {:induction false} StepKeeps(s: State, a: Action)
    requires Inv(s) && Permitted(StageOf(s, a.p), a)
    ensures Inv(Step(s, a))
  {
    CallKeepsOwn(s.kernel, a, StageOf(s, a.p));
    forall q: Pid ensures Known(Step(s, a).kernel, q, StageOf(Step(s, a), q)) {
      if q != a.p { CallKeepsOther(s.kernel, a, q, StageOf(s, q)); }
    }
  }

  lemma {:induction false} RunKeeps(s: State, actions: seq<Action>)
    requires Inv(s) && Follows(s, actions)
    ensures Inv(Run(s, actions))
    decreases |actions|
  {
    if actions != [] {
      StepKeeps(s, actions[0]);
      RunKeeps(Step(s, actions[0]), actions[1..]);
    }
  }

  /** For any number of producers that keep the order, and any interleaving of their calls, crashes
      included: at most one holds the port, and a process that the lock turned away has touched nothing
      since it openers. */
  lemma {:induction false} AlwaysSafe(actions: seq<Action>)
    requires Follows(UNUSED, actions)
    ensures var s := Run(UNUSED, actions);
            && (forall p, q :: Holds(StageOf(s, p)) && Holds(StageOf(s, q)) ==> p == q)
            && (forall p :: StageOf(s, p) == Lost ==> !TouchedSinceOpen(s.kernel.trace, p))
            && Orderly(s.kernel.trace)
  {
    RunKeeps(UNUSED, actions);
    var s := Run(UNUSED, actions);
    assert forall p: Pid :: Known(s.kernel, p, StageOf(s, p));
  }

  lemma {:induction false} OrderlyPrefix(trace: seq<Event>, k: nat)
    requires Orderly(trace) && k <= |trace|
    ensures Orderly(trace[..k])
    decreases |trace|
  {
    if k < |trace| {
      OrderlyPrefix(trace[..|trace| - 1], k);
      assert trace[..|trace| - 1][..k] == trace[..k];
    } else {
      assert trace[..k] == trace;
    }
  }

  /** Every touch of the line in every such run was by the process holding the port at that moment. */
  lemma {:induction false} OnlyTheHolderTouches(actions: seq<Action>, k: nat, p: Pid)
    requires Follows(UNUSED, actions)
    requires var trace := Run(UNUSED, actions).kernel.trace; k < |trace| && trace[k] == Touched(p)
    ensures Holder(Run(UNUSED, actions).kernel.trace[..k]) == Some(Some(p))
  {
    var trace := Run(UNUSED, actions).kernel.trace;
    AlwaysSafe(actions);
    OrderlyPrefix(trace, k + 1);
    assert trace[..k + 1][..k] == trace[..k];
  }

  // ---------------------------------------------------------------- why the order has to be kept

  /** The order is needed: whoever has the port open and does not hold it spoils the trace by touching the
      line, whatever came before. */
  lemma {:induction false} TouchWithoutLock(s: State, a: Action)
    requires a.Configure? || a.Use?
    requires a.p in s.kernel.openers && Holder(s.kernel.trace) == Some(s.kernel.lock)
    ensures Orderly(Step(s, a).kernel.trace) <==> s.kernel.lock == Some(a.p)
  {
    OneMore(s.kernel.trace, Touched(a.p));
  }

  /** The flag alone is not enough: two that open before either sets it, and then leave the lock out, both
      end up on the line. */
  lemma {:induction false} FlagAloneLetsTwoIn(p: Pid, q: Pid)
    requires p != q
    ensures var actions := [Open(p), Open(q), Claim(p), Claim(q), Configure(p), Configure(q)];
            var k := Run(UNUSED, actions).kernel;
            k.trace == [Began(p), Began(q), Touched(p), Touched(q)] && !Orderly(k.trace)
  {
    var s := Run(UNUSED, [Open(p), Open(q)] + [Claim(p), Claim(q)]);
    BothOpen(p, q);
    RunJoin(UNUSED, [Open(p), Open(q)], [Claim(p), Claim(q)]);
    RunTwo(Run(UNUSED, [Open(p), Open(q)]), Claim(p), Claim(q));
    RunJoin(UNUSED, [Open(p), Open(q)] + [Claim(p), Claim(q)], [Configure(p), Configure(q)]);
    RunTwo(s, Configure(p), Configure(q));
    assert [Open(p), Open(q)] + [Claim(p), Claim(q)] + [Configure(p), Configure(q)]
        == [Open(p), Open(q), Claim(p), Claim(q), Configure(p), Configure(q)];
    assert s.kernel == Kernel({p, q}, None, true, [Began(p), Began(q)]);
    assert Step(s, Configure(p)).kernel.trace == [Began(p), Began(q)] + [Touched(p)];
    TwoBegan(p, q);
  }

  lemma {:induction false} RunTwo(s: State, a: Action, b: Action)
    ensures Run(s, [a, b]) == Step(Step(s, a), b)
  {
    assert [a, b][1..] == [b] && |[b][1..]| == 0;
    assert Run(Step(s, a), [b]) == Step(Step(s, a), b);
  }

  lemma {:induction false} BothOpen(p: Pid, q: Pid)
    requires p != q
    ensures Run(UNUSED, [Open(p), Open(q)]).kernel == Kernel({p, q}, None, false, [Began(p), Began(q)])
  {
    RunTwo(UNUSED, Open(p), Open(q));
    assert [] + [Began(p)] + [Began(q)] == [Began(p), Began(q)];
    assert {} + {p} + {q} == {p, q};
  }

  lemma {:induction false} TwoBegan(p: Pid, q: Pid)
    ensures !Orderly([Began(p), Began(q), Touched(p), Touched(q)])
  {
    var trace := [Began(p), Began(q), Touched(p), Touched(q)];
    OneMore([], Began(p));
    OneMore([Began(p)], Began(q));
    assert [] + [Began(p)] == [Began(p)] && [Began(p)] + [Began(q)] == [Began(p), Began(q)];
    OneMore([Began(p), Began(q)], Touched(p));
    assert [Began(p), Began(q)] + [Touched(p)] == trace[..3];
  }

  // ---------------------------------------------------------------- the kernel's two marks, whatever the order

  ghost predicate Marked(k: Kernel) {
    (k.lock.Some? ==> k.lock.value in k.openers) && (k.exclusive ==> k.openers != {})
  }

  lemma {:induction false} MarksGoTogether(s: State, actions: seq<Action>)
    requires Marked(s.kernel)
    ensures Marked(Run(s, actions).kernel)
    decreases |actions|
  {
    if actions != [] {
      assert actions[0].Claim? && Succeeds(s.kernel, actions[0]) ==> actions[0].p in Call(s.kernel, actions[0]).openers;
      MarksGoTogether(Step(s, actions[0]), actions[1..]);
    }
  }

  /** A port nobody has open is free again, whatever anyone did with it: no lock and no flag outlives the
      descriptors. */
  lemma {:induction false} FreeAgain(actions: seq<Action>)
    requires Run(UNUSED, actions).kernel.openers == {}
    ensures var k := Run(UNUSED, actions).kernel; k.lock.None? && !k.exclusive
  {
    MarksGoTogether(UNUSED, actions);
  }

  /** However many have it open, the first to lock a free port wins, and whoever follows loses. */
  lemma {:induction false} FirstLockWins(s: State, p: Pid, q: Pid)
    requires s.kernel.lock.None? && p != q && p in s.kernel.openers && q in s.kernel.openers
    ensures var t := Run(s, [Lock(p), Lock(q)]); t.kernel.lock == Some(p) && StageOf(t, p) == Locked && StageOf(t, q) == Lost
  {
    RunTwo(s, Lock(p), Lock(q));
  }

  /** Once the flag is set nobody opens the port until a descriptor is closed. */
  lemma {:induction false} FlagTurnsAway(s: State, actions: seq<Action>, p: Pid)
    requires s.kernel.exclusive && p !in s.kernel.openers && forall a <- actions :: !a.Close?
    ensures Run(s, actions).kernel.exclusive && p !in Run(s, actions).kernel.openers
    decreases |actions|
  {
    if actions != [] {
      assert actions[0] in actions;
      FlagTurnsAway(Step(s, actions[0]), actions[1..], p);
    }
  }

  lemma {:induction false} FirstOf(s: State, a: Action, rest: seq<Action>)
    ensures Run(s, [a] + rest) == Run(Step(s, a), rest)
    ensures Follows(s, [a] + rest) <==> Permitted(StageOf(s, a.p), a) && Follows(Step(s, a), rest)
  {
    assert ([a] + rest)[1..] == rest;
  }

  /** And the order can be kept to the end: whoever finds the port free and keeps it holds the port, and has
      touched it only then. */
  lemma {:induction false} OneGetsThrough(s: State, p: Pid)
    requires s.kernel.openers == {} && s.kernel.lock.None? && !s.kernel.exclusive && StageOf(s, p) == Closed
    ensures var calls := [Open(p), Lock(p), Claim(p), Configure(p), Use(p)];
            var t := Run(s, calls);
            && Follows(s, calls) && StageOf(t, p) == Configured && t.kernel.openers == {p} && t.kernel.lock == Some(p)
            && t.kernel.exclusive && t.kernel.trace == s.kernel.trace + [Began(p)] + [Acquired(p)] + [Touched(p)] + [Touched(p)]
  {
    var began := Step(s, Open(p));
    var locked := Step(began, Lock(p));
    var claimed := Step(locked, Claim(p));
    var configured := Step(claimed, Configure(p));
    var fromUse: seq<Action> := [Use(p)] + [];
    var fromConfigure := [Configure(p)] + fromUse;
    var fromClaim := [Claim(p)] + fromConfigure;
    FirstOf(s, Open(p), [Lock(p)] + fromClaim);
    FirstOf(began, Lock(p), fromClaim);
    FirstOf(locked, Claim(p), fromConfigure);
    FirstOf(claimed, Configure(p), fromUse);
    FirstOf(configured, Use(p), []);
    assert [Open(p), Lock(p), Claim(p), Configure(p), Use(p)] == [Open(p)] + ([Lock(p)] + fromClaim);
  }

  // ---------------------------------------------------------------- opening, as one process sees it

  /** What opening finds: the port, that another producer has it, or a failure. */
  datatype Found = Port | Busy | Failed

  /** The calls that can fail on the way. Only the last comes after the line has been set up. */
  datatype Syscall = OpenFile | TakeLock | SetExclusive | ReadSettings | WriteSettings | SetBlocking

  /** What the others do before our next call but `k`, seeing how things stand. */
  type Others = (nat, State) -> seq<Action>

  ghost predicate KeepOrder(others: Others, me: Pid) {
    forall k: nat, s: State :: Follows(s, others(k, s)) && forall x <- others(k, s) :: x.p != me
  }

  ghost predicate Quiet(others: Others, k: nat) {
    forall s: State :: others(k, s) == []
  }

  /** The calls of one process. */
  function Mine(actions: seq<Action>, me: Pid): seq<Action> {
    if actions == [] then []
    else
      var last := actions[|actions| - 1];
      Mine(actions[..|actions| - 1], me) + (if last.p == me then [last] else [])
  }

  lemma {:induction false} MineAndOthers(a: seq<Action>, b: seq<Action>, me: Pid)
    requires forall x <- b :: x.p != me
    ensures Mine(a + b, me) == Mine(a, me)
    decreases |b|
  {
    if b == [] {
      assert a + b == a;
    } else {
      assert b[|b| - 1] in b && (a + b)[..|a + b| - 1] == a + b[..|b| - 1];
      MineAndOthers(a, b[..|b| - 1], me);
    }
  }

  lemma {:induction false} MineOneMore(a: seq<Action>, mine: Action)
    ensures Mine(a + [mine], mine.p) == Mine(a, mine.p) + [mine]
  {
    assert (a + [mine])[..|a|] == a;
  }

  lemma {:induction false} OthersLeaveAlone(s: State, actions: seq<Action>, me: Pid)
    requires forall x <- actions :: x.p != me
    ensures StageOf(Run(s, actions), me) == StageOf(s, me)
    ensures TouchedSinceOpen(Run(s, actions).kernel.trace, me) == TouchedSinceOpen(s.kernel.trace, me)
    decreases |actions|
  {
    if actions != [] {
      var a := actions[0];
      assert a in actions;
      if Succeeds(s.kernel, a) && EventOf(s.kernel, a).Some? { OneMore(s.kernel.trace, EventOf(s.kernel, a).value); }
      OthersLeaveAlone(Step(s, a), actions[1..], me);
    }
  }

  /** The port as one process finds it, everyone's calls so far included. */
  class Device {
    ghost const start: State
    ghost var calls: seq<Action>
    var state: State

    constructor (s: State)
      requires Inv(s)
      ensures Valid() && state == start == s && calls == []
    {
      start, calls := s, [];
      state := s;
    }

    /** Everyone has kept the order, ourselves included. */
    ghost predicate Valid()
      reads this
    {
      Inv(start) && Follows(start, calls) && state == Run(start, calls)
    }

    ghost predicate Touched(me: Pid)
      reads this
    {
      TouchedSinceOpen(state.kernel.trace, me)
    }

    /** One call of ours, then whatever the others do before our next one. */
    method Do(a: Action, others: Others, k: nat) returns (ok: bool)
      requires Valid() && Permitted(StageOf(state, a.p), a) && KeepOrder(others, a.p)
      modifies this
      ensures Valid() && ok == Succeeds(old(state.kernel), a)
      ensures StageOf(state, a.p) == NextStage(old(StageOf(state, a.p)), a, ok)
      ensures Mine(calls, a.p) == old(Mine(calls, a.p)) + [a]
      ensures Touched(a.p) == TouchedAfter(old(Touched(a.p)), a, ok)
      ensures Quiet(others, k) ==> state == Step(old(state), a)
    {
      ok := Succeeds(state.kernel, a);
      var next := Step(state, a);
      var theirs := others(k, next);
      Advance(a, theirs, next);
      calls := calls + [a] + theirs;
      state := Run(next, theirs);
    }

    lemma {:induction false} Advance(a: Action, theirs: seq<Action>, next: State)
      requires Valid() && Permitted(StageOf(state, a.p), a) && next == Step(state, a)
      requires Follows(next, theirs) && forall x <- theirs :: x.p != a.p
      ensures Follows(start, calls + [a] + theirs) && Run(start, calls + [a] + theirs) == Run(next, theirs)
      ensures Mine(calls + [a] + theirs, a.p) == Mine(calls, a.p) + [a]
      ensures StageOf(Run(next, theirs), a.p) == StageOf(next, a.p)
      ensures TouchedSinceOpen(Run(next, theirs).kernel.trace, a.p)
           == TouchedAfter(TouchedSinceOpen(state.kernel.trace, a.p), a, Succeeds(state.kernel, a))
    {
      assert |[a][1..]| == 0 && Run(state, [a]) == next;
      RunJoin(start, calls, [a]);
      RunJoin(start, calls + [a], theirs);
      MineOneMore(calls, a);
      MineAndOthers(calls + [a], theirs, a.p);
      OwnTouch(state.kernel, a);
      OthersLeaveAlone(next, theirs, a.p);
    }

    lemma {:induction false} InStage(me: Pid)
      requires Valid()
      ensures Known(state.kernel, me, StageOf(state, me)) && Holder(state.kernel.trace) == Some(state.kernel.lock)
    {
      RunKeeps(start, calls);
    }

    /** Set the flag and configure, holding the lock. */
    method SetUp(me: Pid, others: Others, fails: Syscall -> bool) returns (r: Found)
      requires Valid() && StageOf(state, me) == Locked && KeepOrder(others, me)
      modifies this
      ensures Valid() && !r.Busy?
      ensures r.Failed? <==> fails(SetExclusive) || fails(ReadSettings) || fails(WriteSettings) || fails(SetBlocking)
      ensures r.Failed? ==> StageOf(state, me) == Closed && (Touched(me) ==> fails(SetBlocking) || old(Touched(me)))
      ensures r.Port? ==> StageOf(state, me) == Configured
      ensures r.Port? ==> Mine(calls, me) == old(Mine(calls, me)) + [Claim(me)] + [Configure(me)]
    {
      r := Failed;
      var ok;
      InStage(me);
      if !fails(SetExclusive) {
        ok := Do(Claim(me), others, 2);
        InStage(me);
        if !fails(ReadSettings) && !fails(WriteSettings) {
          ok := Do(Configure(me), others, 3);
          if !fails(SetBlocking) { return Port; }
        }
      }
      ok := Do(Close(me), others, 4);
    }

    /** Take the lock of an open port, and go on. */
    method LockAndSetUp(me: Pid, others: Others, fails: Syscall -> bool) returns (r: Found)
      requires Valid() && StageOf(state, me) == Opened && KeepOrder(others, me)
      modifies this
      ensures Valid()
      ensures !r.Port? ==> StageOf(state, me) == Closed && (Touched(me) ==> (r.Failed? && fails(SetBlocking)) || old(Touched(me)))
      ensures r.Port? ==> StageOf(state, me) == Configured && forall c :: c != OpenFile ==> !fails(c)
      ensures r.Port? ==> Mine(calls, me) == old(Mine(calls, me)) + [Lock(me)] + [Claim(me)] + [Configure(me)]
      ensures r.Failed? ==> exists c :: fails(c)
      ensures r.Busy? ==> old(!CanLock(state.kernel, me))
    {
      var ok := false;
      if !fails(TakeLock) { ok := Do(Lock(me), others, 1); }
      if ok {
        r := SetUp(me, others, fails);
      } else {
        r := if fails(TakeLock) then Failed else Busy;
        ok := Do(Close(me), others, 2);
      }
    }

    /** Open, lock, set the flag, configure: in that order, whatever others do in between and whichever of
        the calls fails. A port is returned only while holding it, and otherwise nothing of ours is left
        open. On `Busy` nothing was touched; on a failure the line was touched only if the last call
        failed, and then, as every touch in the trace, while holding the port. */
    method OpenPort(me: Pid, others: Others, fails: Syscall -> bool) returns (r: Found)
      requires Valid() && StageOf(state, me) == Closed && KeepOrder(others, me)
      modifies this
      ensures Valid() && Orderly(state.kernel.trace)
      ensures r.Port? ==> StageOf(state, me) == Configured && state.kernel.lock == Some(me)
      ensures r.Port? ==> Mine(calls, me) == old(Mine(calls, me)) + [Open(me)] + [Lock(me)] + [Claim(me)] + [Configure(me)]
      ensures r.Port? ==> forall c :: !fails(c)
      ensures !r.Port? ==> me !in state.kernel.openers && state.kernel.lock != Some(me)
      ensures !r.Port? && Touched(me) ==> (r.Failed? && fails(SetBlocking)) || old(Touched(me))
      ensures r.Failed? ==> exists c :: fails(c)
      ensures old(state.kernel.exclusive) && !fails(OpenFile) ==> r.Busy?
      ensures r.Busy? && Quiet(others, 0) ==> old(state.kernel.exclusive || state.kernel.lock.Some?)
    {
      r := Failed;
      InStage(me);
      if !fails(OpenFile) {
        var ok := Do(Open(me), others, 0);
        InStage(me);
        if ok { r := LockAndSetUp(me, others, fails); } else { r := Busy; }
      }
      InStage(me);
    }
  }
}

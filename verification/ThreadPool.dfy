/** The thread pool of server.cc as a step system: any number of workers, each looping over
    `sem_wait`, `accept_connection`, `handle` and `sem_post`, with connections arriving at any
    time and steps interleaved in any order. */
module ThreadPool {

  type Conn = nat

  /** Where a worker stands: at `sem_wait`; past it, at `accept_connection`; holding an accepted
      socket; inside `handle`; and past it, at `sem_post`. */
  datatype Pc = Waiting | Accepting | Holding(c: Conn) | Handling(c: Conn) | Posting

  datatype Event = Accepted(c: Conn) | Begun(c: Conn) | Ended(c: Conn)

  /** `sema` is the semaphore's count, `pending` the queue of the listening socket.  The rest is
      history: what arrived, what `handle` returned from, and every accept and handle event. */
  datatype State = State(sema: nat, workers: seq<Pc>, pending: seq<Conn>,
                         arrived: seq<Conn>, handled: seq<Conn>, log: seq<Event>)

  datatype Action = Arrive(c: Conn) | Wait(t: nat) | Accept(t: nat) | Begin(t: nat) | End(t: nat) | Post(t: nat)

  /** `num_threads` detached threads and the calling thread itself. */
  function Init(numThreads: nat): State {
    State(1, seq(numThreads + 1, _ => Waiting), [], [], [], [])
  }

  predicate Enabled(s: State, a: Action) {
    match a
    case Arrive(_) => true
    case Wait(t) => t < |s.workers| && s.workers[t] == Waiting && s.sema > 0
    case Accept(t) => t < |s.workers| && s.workers[t] == Accepting && s.pending != []
    case Begin(t) => t < |s.workers| && s.workers[t].Holding?
    case End(t) => t < |s.workers| && s.workers[t].Handling?
    case Post(t) => t < |s.workers| && s.workers[t] == Posting
  }

  function Apply(s: State, a: Action): State
    requires Enabled(s, a)
  {
    match a
    case Arrive(c) => s.(pending := s.pending + [c], arrived := s.arrived + [c])
    case Wait(t) => s.(sema := s.sema - 1, workers := s.workers[t := Accepting])
    case Accept(t) =>
      var c := s.pending[0];
      s.(workers := s.workers[t := Holding(c)], pending := s.pending[1..], log := s.log + [Accepted(c)])
    case Begin(t) =>
      var c := s.workers[t].c;
      s.(workers := s.workers[t := Handling(c)], log := s.log + [Begun(c)])
    case End(t) =>
      var c := s.workers[t].c;
      s.(workers := s.workers[t := Posting], handled := s.handled + [c], log := s.log + [Ended(c)])
    case Post(t) => s.(sema := s.sema + 1, workers := s.workers[t := Waiting])
  }

  predicate IsRun(s: State, run: seq<Action>)
    decreases |run|
  {
    run == [] || (Enabled(s, run[0]) && IsRun(Apply(s, run[0]), run[1..]))
  }

  function RunFrom(s: State, run: seq<Action>): State
    requires IsRun(s, run)
    decreases |run|
  {
    if run == [] then s else RunFrom(Apply(s, run[0]), run[1..])
  }

  // ----- the server that handles one connection at a time -----

  datatype LinearPc = Idle | Got(c: Conn) | Busy(c: Conn)

  /** `run_linear`: accept, then handle, then accept the next. */
  datatype Linear = Linear(pc: LinearPc, pending: seq<Conn>, arrived: seq<Conn>, log: seq<Event>)

  function LinearArrive(l: Linear, c: Conn): Linear {
    l.(pending := l.pending + [c], arrived := l.arrived + [c])
  }

  ghost predicate LinearNext(l: Linear, m: Linear) {
    || (exists c :: m == LinearArrive(l, c))
    || (l.pc == Idle && l.pending != []
        && m == l.(pc := Got(l.pending[0]), pending := l.pending[1..], log := l.log + [Accepted(l.pending[0])]))
    || (l.pc.Got? && m == l.(pc := Busy(l.pc.c), log := l.log + [Begun(l.pc.c)]))
    || (l.pc.Busy? && m == l.(pc := Idle, log := l.log + [Ended(l.pc.c)]))
  }

  // ----- one worker at most is past the semaphore -----

  function BusyCount(ws: seq<Pc>): nat {
    if ws == [] then 0 else BusyCount(ws[1..]) + if ws[0] == Waiting then 0 else 1
  }

  /** The program counter of the first worker past the semaphore, if any. */
  function Current(ws: seq<Pc>): Pc {
    if ws == [] then Waiting else if ws[0] != Waiting then ws[0] else Current(ws[1..])
  }

  lemma {:induction false} BusyAfter(ws: seq<Pc>, t: nat, pc: Pc)
    requires t < |ws|
    ensures BusyCount(ws[t := pc])
         == BusyCount(ws) - (if ws[t] == Waiting then 0 else 1) + (if pc == Waiting then 0 else 1)
    decreases |ws|
  {
    if t == 0 {
    } else {
      BusyAfter(ws[1..], t - 1, pc);
      assert ws[t := pc][1..] == ws[1..][t - 1 := pc];
    }
  }

  lemma {:induction false} NoneBusy(ws: seq<Pc>)
    requires BusyCount(ws) == 0
    ensures Current(ws) == Waiting && forall t | 0 <= t < |ws| :: ws[t] == Waiting
    decreases |ws|
  {
    if ws == [] {
    } else {
      NoneBusy(ws[1..]);
      forall t | 0 < t < |ws|
        ensures ws[t] == Waiting
      {
        assert ws[t] == ws[1..][t - 1];
      }
    }
  }

  lemma {:induction false} OneBusy(ws: seq<Pc>, t: nat)
    requires BusyCount(ws) == 1 && t < |ws| && ws[t] != Waiting
    ensures Current(ws) == ws[t] && forall u | 0 <= u < |ws| && u != t :: ws[u] == Waiting
    decreases |ws|
  {
    if t == 0 {
      NoneBusy(ws[1..]);
      assert forall u | 0 < u < |ws| :: ws[u] == ws[1..][u - 1];
    } else {
      assert ws[t] == ws[1..][t - 1];
      if ws[0] != Waiting {
        NoneBusy(ws[1..]);
        assert false;
      }
      OneBusy(ws[1..], t - 1);
      assert forall u | 0 < u < |ws| :: ws[u] == ws[1..][u - 1];
    }
  }

  lemma {:induction false} SomeBusy(ws: seq<Pc>) returns (t: nat)
    requires BusyCount(ws) > 0
    ensures t < |ws| && ws[t] != Waiting
    decreases |ws|
  {
    if ws[0] != Waiting {
      t := 0;
    } else {
      t := SomeBusy(ws[1..]);
      t := t + 1;
    }
  }

  // ----- the invariant -----

  /** The log of connections handled one after the other. */
  function Serial(cs: seq<Conn>): seq<Event> {
    if cs == [] then []
    else
      var c := cs[|cs| - 1];
      Serial(cs[..|cs| - 1]) + [Accepted(c), Begun(c), Ended(c)]
  }

  function InFlight(pc: Pc): seq<Conn> {
    match pc case Holding(c) => [c] case Handling(c) => [c] case _ => []
  }

  function PartLog(pc: Pc): seq<Event> {
    match pc case Holding(c) => [Accepted(c)] case Handling(c) => [Accepted(c), Begun(c)] case _ => []
  }

  ghost predicate Inv(s: State) {
    && s.workers != [] && s.sema + BusyCount(s.workers) == 1
    && s.arrived == s.handled + InFlight(Current(s.workers)) + s.pending
    && s.log == Serial(s.handled) + PartLog(Current(s.workers))
  }

  lemma {:induction false} InitBusy(n: nat)
    ensures BusyCount(seq(n, _ => Waiting)) == 0
  {
    if n == 0 {
    } else {
      InitBusy(n - 1);
      assert seq(n, _ => Waiting)[1..] == seq(n - 1, _ => Waiting);
    }
  }

  lemma InitInv(numThreads: nat)
    ensures Inv(Init(numThreads))
  {
    InitBusy(numThreads + 1);
    NoneBusy(Init(numThreads).workers);
  }

  lemma SerialAppend(cs: seq<Conn>, c: Conn)
    ensures Serial(cs + [c]) == Serial(cs) + [Accepted(c), Begun(c), Ended(c)]
  {
    assert (cs + [c])[..|cs|] == cs;
  }

  /** What a worker's step does to the one program counter past the semaphore. */
  lemma WorkerStep(s: State, a: Action)
    requires Inv(s) && Enabled(s, a) && !a.Arrive?
    ensures var r := Apply(s, a);
      && r.sema + BusyCount(r.workers) == 1
      && Current(s.workers) == s.workers[a.t] && Current(r.workers) == r.workers[a.t]
  {
    var r := Apply(s, a);
    BusyAfter(s.workers, a.t, r.workers[a.t]);
    if BusyCount(s.workers) == 0 { NoneBusy(s.workers); } else { OneBusy(s.workers, a.t); }
    if BusyCount(r.workers) == 0 { NoneBusy(r.workers); } else { OneBusy(r.workers, a.t); }
  }

  /** One more event keeps the log in serial form. */
  lemma EventKeepsLog(log: seq<Event>, serial: seq<Event>, before: Pc, e: Event, after: Pc)
    requires log == serial + PartLog(before)
    requires match e
      case Accepted(c) => before == Accepting && after == Holding(c)
      case Begun(c) => before == Holding(c) && after == Handling(c)
      case Ended(c) => before == Handling(c) && after == Posting
    ensures log + [e] == if e.Ended? then serial + [Accepted(e.c), Begun(e.c), Ended(e.c)] else serial + PartLog(after)
  {
  }

  lemma StepKeepsInv(s: State, a: Action)
    requires Inv(s) && Enabled(s, a)
    ensures Inv(Apply(s, a))
  {
    if a.Arrive? {
      assert s.handled + InFlight(Current(s.workers)) + s.pending + [a.c]
          == s.handled + InFlight(Current(s.workers)) + (s.pending + [a.c]);
    } else {
      WorkerStep(s, a);
      StepKeepsOrder(s, a);
      StepKeepsLog(s, a);
    }
  }

  lemma StepKeepsLog(s: State, a: Action)
    requires Inv(s) && Enabled(s, a) && !a.Arrive?
    requires Current(s.workers) == s.workers[a.t] && Current(Apply(s, a).workers) == Apply(s, a).workers[a.t]
    ensures var r := Apply(s, a); r.log == Serial(r.handled) + PartLog(Current(r.workers))
  {
    var r := Apply(s, a);
    if a.Accept? || a.Begin? || a.End? {
      EventKeepsLog(s.log, Serial(s.handled), s.workers[a.t], r.log[|s.log|], r.workers[a.t]);
    }
    if a.End? {
      SerialAppend(s.handled, s.workers[a.t].c);
    }
  }

  lemma StepKeepsOrder(s: State, a: Action)
    requires Inv(s) && Enabled(s, a) && !a.Arrive?
    requires Current(s.workers) == s.workers[a.t] && Current(Apply(s, a).workers) == Apply(s, a).workers[a.t]
    ensures var r := Apply(s, a); r.arrived == r.handled + InFlight(Current(r.workers)) + r.pending
  {
    if a.Accept? {
      assert s.pending == [s.pending[0]] + s.pending[1..];
      ConnectionMoves(s.handled, s.pending[0], s.pending[1..]);
    }
    if a.End? {
      ConnectionMoves(s.handled, s.workers[a.t].c, s.pending);
    }
  }

  /** Pending, in flight or handled, a connection keeps its place in the order of arrival. */
  lemma ConnectionMoves(handled: seq<Conn>, c: Conn, pending: seq<Conn>)
    ensures handled + [] + ([c] + pending) == handled + [c] + pending == (handled + [c]) + [] + pending
  {
  }

  lemma {:induction false} RunKeepsInv(s: State, run: seq<Action>)
    requires Inv(s) && IsRun(s, run)
    ensures Inv(RunFrom(s, run)) && |RunFrom(s, run).workers| == |s.workers|
    decreases |run|
  {
    if run == [] {
    } else {
      StepKeepsInv(s, run[0]);
      RunKeepsInv(Apply(s, run[0]), run[1..]);
    }
  }

  // ----- main results -----

  /** In every run of a pool of any size: the semaphore and the workers past it add up to one,
      so calls of `handle` never overlap; connections are accepted and handled one after the
      other; and those that arrived are, in order, the handled ones, at most one in flight,
      and the pending ones. */
  lemma PoolSafety(numThreads: nat, run: seq<Action>)
    requires IsRun(Init(numThreads), run)
    ensures var s := RunFrom(Init(numThreads), run);
      && |s.workers| == numThreads + 1 && s.sema + BusyCount(s.workers) == 1
      && (forall t, u | 0 <= t < |s.workers| && 0 <= u < |s.workers| ::
            s.workers[t] != Waiting && s.workers[u] != Waiting ==> t == u)
      && s.arrived == s.handled + InFlight(Current(s.workers)) + s.pending
      && s.log == Serial(s.handled) + PartLog(Current(s.workers))
  {
    InitInv(numThreads);
    RunKeepsInv(Init(numThreads), run);
    var s := RunFrom(Init(numThreads), run);
    forall t, u | 0 <= t < |s.workers| && 0 <= u < |s.workers| && s.workers[t] != Waiting && s.workers[u] != Waiting
      ensures t == u
    {
      if BusyCount(s.workers) == 0 { NoneBusy(s.workers); } else { OneBusy(s.workers, t); }
    }
  }

  function AbsPc(pc: Pc): LinearPc {
    match pc case Holding(c) => Got(c) case Handling(c) => Busy(c) case _ => Idle
  }

  /** What the pool looks like from outside. */
  function Abs(s: State): Linear {
    Linear(AbsPc(Current(s.workers)), s.pending, s.arrived, s.log)
  }

  /** The pool refines `run_linear`: every step of any worker is a step of the linear server or
      changes nothing that it can see. */
  lemma PoolRefinesLinear(s: State, a: Action)
    requires Inv(s) && Enabled(s, a)
    ensures Inv(Apply(s, a))
    ensures LinearNext(Abs(s), Abs(Apply(s, a))) || Abs(s) == Abs(Apply(s, a))
  {
    StepKeepsInv(s, a);
    if a.Arrive? {
      assert Abs(Apply(s, a)) == LinearArrive(Abs(s), a.c);
    } else {
      WorkerStep(s, a);
      var l, m := Abs(s), Abs(Apply(s, a));
      assert l.pc == AbsPc(s.workers[a.t]) && m.pc == AbsPc(Apply(s, a).workers[a.t]);
      assert m.arrived == l.arrived;
    }
  }

  /** Worker steps left until nothing is left to do. */
  function StepsLeft(s: State): nat {
    5 * |s.pending| + (match Current(s.workers)
      case Waiting => 1 case Accepting => 0 case Holding(_) => 4 case Handling(_) => 3 case Posting => 2)
  }

  /** Every worker step is one of the steps left, whoever makes it. */
  lemma StepCounts(s: State, a: Action)
    requires Inv(s) && Enabled(s, a) && !a.Arrive?
    ensures StepsLeft(Apply(s, a)) == StepsLeft(s) - 1
  {
    WorkerStep(s, a);
  }

  /** While no worker is past the semaphore, it is open to every one of them. */
  lemma AnyMayPass(s: State)
    requires Inv(s) && Current(s.workers) == Waiting
    ensures forall t: nat | t < |s.workers| :: Enabled(s, Wait(t))
  {
    if BusyCount(s.workers) == 0 {
      NoneBusy(s.workers);
    } else {
      var t := SomeBusy(s.workers);
      OneBusy(s.workers, t);
    }
  }

  /** Some worker can step exactly while steps are left, and in particular whenever a connection
      is pending; and where none is past the semaphore, any of them can. */
  lemma Progress(s: State)
    requires Inv(s)
    ensures StepsLeft(s) > 0 <==> exists a: Action :: !a.Arrive? && Enabled(s, a)
    ensures Current(s.workers) == Waiting ==> forall t: nat | t < |s.workers| :: Enabled(s, Wait(t))
  {
    if Current(s.workers) == Waiting { AnyMayPass(s); }
    if StepsLeft(s) > 0 {
      if BusyCount(s.workers) == 0 {
        NoneBusy(s.workers);
        assert Enabled(s, Wait(0));
      } else {
        var t := SomeBusy(s.workers);
        OneBusy(s.workers, t);
        match s.workers[t]
        case Accepting => assert Enabled(s, Accept(t));
        case Holding(_) => assert Enabled(s, Begin(t));
        case Handling(_) => assert Enabled(s, End(t));
        case Posting => assert Enabled(s, Post(t));
      }
    } else {
      forall a: Action | !a.Arrive?
        ensures !Enabled(s, a)
      {
        if Enabled(s, a) { StepCounts(s, a); }
      }
    }
  }

  /** Without further arrivals every schedule stops after exactly the steps left, and when no
      worker can step, every connection that ever arrived has been handled, in order. */
  lemma {:induction false} EveryScheduleDrains(s: State, run: seq<Action>)
    requires Inv(s) && IsRun(s, run) && forall a <- run :: !a.Arrive?
    ensures var r := RunFrom(s, run);
      && |run| + StepsLeft(r) == StepsLeft(s) && r.arrived == s.arrived
      && ((forall a: Action :: Enabled(r, a) ==> a.Arrive?) ==> |run| == StepsLeft(s) && r.handled == s.arrived)
    decreases |run|
  {
    if run == [] {
      Progress(s);
      if StepsLeft(s) == 0 {
        assert s.pending == [] && InFlight(Current(s.workers)) == [];
      }
    } else {
      StepKeepsInv(s, run[0]);
      StepCounts(s, run[0]);
      EveryScheduleDrains(Apply(s, run[0]), run[1..]);
    }
  }

  // ----- bounded waiting -----

  function WorkerSteps(run: seq<Action>): nat {
    if run == [] then 0 else WorkerSteps(run[1..]) + if run[0].Arrive? then 0 else 1
  }

  /** Worker steps made so far, read off the state. */
  function Clock(s: State): int {
    5 * |s.handled| + (match Current(s.workers)
      case Waiting => 0 case Accepting => 1 case Holding(_) => 2 case Handling(_) => 3 case Posting => -1)
  }

  lemma ClockStep(s: State, a: Action)
    requires Inv(s) && Enabled(s, a)
    ensures Clock(Apply(s, a)) == Clock(s) + if a.Arrive? then 0 else 1
  {
    if !a.Arrive? { WorkerStep(s, a); }
  }

  lemma ClockAndLeft(s: State)
    requires Inv(s)
    ensures Clock(s) + StepsLeft(s) == 5 * |s.arrived| + 1
  {
  }

  lemma {:induction false} ClockRuns(s: State, run: seq<Action>)
    requires Inv(s) && IsRun(s, run)
    ensures var r := RunFrom(s, run);
      Inv(r) && Clock(r) == Clock(s) + WorkerSteps(run) && s.arrived <= r.arrived
    decreases |run|
  {
    if run == [] {
    } else {
      StepKeepsInv(s, run[0]);
      ClockStep(s, run[0]);
      ClockRuns(Apply(s, run[0]), run[1..]);
    }
  }

  /** Whatever arrives meanwhile, and in every schedule: once the workers have made the steps
      that were left, every connection that had arrived has been handled, in order. */
  lemma BoundedWaiting(s: State, run: seq<Action>)
    requires Inv(s) && IsRun(s, run) && WorkerSteps(run) >= StepsLeft(s)
    ensures s.arrived <= RunFrom(s, run).handled
  {
    var r := RunFrom(s, run);
    ClockRuns(s, run);
    ClockAndLeft(s);
    assert |r.handled| >= |s.arrived|;
    assert r.handled <= r.arrived;
  }
}

/** RequestServer and its workers: requests go through one bounded queue, and one null
    per worker is queued behind them to stop. Every push, pop, join and end of a request
    is a step; the steps of different threads may come in any order. */
module WorkerPool {
  type Request(==, !new)

  datatype Item = Job(r: Request) | Null

  datatype Worker = Waiting | Running(r: Request) | Stopped

  /** The thread that reads requests: it waits for one, pushes it, pushes nulls, and joins
      the workers. A push waits for room in the queue. */
  datatype Server = Serving | Pushing(r: Request) | Stopping(pushed: nat) | Joining(joined: nat)

  /** `submitted` are the requests that got into the queue; it, `taken` and `finished` are histories. */
  datatype Pool = Pool(
    capacity: nat,
    server: Server,
    queue: seq<Item>,
    workers: seq<Worker>,
    submitted: seq<Request>,
    taken: seq<Request>,
    finished: multiset<Request>)

  datatype Action = Arrive(r: Request) | Submit | Stop | PushNull | Pop(w: nat) | Finish(w: nat) | Join

  function Start(capacity: nat, threads: nat): Pool {
    Pool(capacity, Serving, [], Idle(threads), [], [], multiset{})
  }

  function Idle(n: nat): (ws: seq<Worker>)
    ensures |ws| == n && forall i :: 0 <= i < n ==> ws[i] == Waiting
  {
    if n == 0 then [] else Idle(n - 1) + [Waiting]
  }

  predicate Enabled(s: Pool, a: Action) {
    match a
    case Arrive(_) => s.server.Serving?
    case Submit => s.server.Pushing? && |s.queue| < s.capacity
    case Stop => s.server.Serving?
    case PushNull => s.server.Stopping? && (s.server.pushed == |s.workers| || |s.queue| < s.capacity)
    case Pop(w) => w < |s.workers| && s.workers[w].Waiting? && s.queue != []
    case Finish(w) => w < |s.workers| && s.workers[w].Running?
    case Join => s.server.Joining? && s.server.joined < |s.workers| && s.workers[s.server.joined].Stopped?
  }

  function Step(s: Pool, a: Action): Pool
    requires Enabled(s, a)
  {
    match a
    case Arrive(r) => s.(server := Pushing(r))
    case Submit =>
      s.(queue := s.queue + [Job(s.server.r)], submitted := s.submitted + [s.server.r], server := Serving)
    case Stop => s.(server := Stopping(0))
    case PushNull =>
      if s.server.pushed == |s.workers| then s.(server := Joining(0))
      else s.(queue := s.queue + [Null], server := Stopping(s.server.pushed + 1))
    case Pop(w) =>
      (match s.queue[0]
       case Job(r) => s.(queue := s.queue[1..], workers := s.workers[w := Running(r)], taken := s.taken + [r])
       case Null => s.(queue := s.queue[1..], workers := s.workers[w := Stopped]))
    case Finish(w) =>
      s.(workers := s.workers[w := Waiting], finished := s.finished + multiset{s.workers[w].r})
    case Join => s.(server := Joining(s.server.joined + 1))
  }

  // ----- counting

  function Jobs(q: seq<Item>): seq<Request> {
    if q == [] then [] else (if q[0].Job? then [q[0].r] else []) + Jobs(q[1..])
  }

  function Nulls(q: seq<Item>): nat {
    if q == [] then 0 else (if q[0].Null? then 1 else 0) + Nulls(q[1..])
  }

  function StoppedIn(ws: seq<Worker>): (n: nat)
    ensures n <= |ws|
  {
    if ws == [] then 0 else (if ws[0].Stopped? then 1 else 0) + StoppedIn(ws[1..])
  }

  function RunningIn(ws: seq<Worker>): multiset<Request> {
    if ws == [] then multiset{} else RunningOf(ws[0]) + RunningIn(ws[1..])
  }

  function RunningOf(w: Worker): multiset<Request> {
    if w.Running? then multiset{w.r} else multiset{}
  }

  lemma {:induction false} JobsAppend(q: seq<Item>, i: Item)
    ensures Jobs(q + [i]) == Jobs(q) + (if i.Job? then [i.r] else [])
    ensures Nulls(q + [i]) == Nulls(q) + (if i.Null? then 1 else 0)
    decreases |q|
  {
    if q == [] {
      assert q + [i] == [i];
    } else {
      assert (q + [i])[1..] == q[1..] + [i];
      JobsAppend(q[1..], i);
    }
  }

  lemma {:induction false} StoppedUpdate(ws: seq<Worker>, w: nat, x: Worker)
    requires w < |ws|
    ensures StoppedIn(ws[w := x]) == StoppedIn(ws) - (if ws[w].Stopped? then 1 else 0) + (if x.Stopped? then 1 else 0)
    decreases |ws|
  {
    if w > 0 {
      assert ws[w := x][1..] == ws[1..][w - 1 := x];
      StoppedUpdate(ws[1..], w - 1, x);
    } else {
      assert ws[w := x][1..] == ws[1..];
    }
  }

  lemma {:induction false} RunningUpdate(ws: seq<Worker>, w: nat, x: Worker)
    requires w < |ws|
    ensures RunningIn(ws[w := x]) + RunningOf(ws[w]) == RunningIn(ws) + RunningOf(x)
    decreases |ws|
  {
    if w > 0 {
      assert ws[w := x][1..] == ws[1..][w - 1 := x];
      RunningUpdate(ws[1..], w - 1, x);
      SumSwap(RunningOf(ws[0]), RunningIn(ws[1..][w - 1 := x]), RunningOf(ws[w]), RunningIn(ws[1..]), RunningOf(x));
    } else {
      assert ws[w := x][1..] == ws[1..];
      SumTurn(RunningOf(x), RunningIn(ws[1..]), RunningOf(ws[0]));
    }
  }

  lemma SumSwap(a: multiset<Request>, b: multiset<Request>, c: multiset<Request>, d: multiset<Request>,
                e: multiset<Request>)
    requires b + c == d + e
    ensures a + b + c == a + d + e
  {
    assert a + b + c == a + (b + c) && a + d + e == a + (d + e);
  }

  lemma SumTurn(a: multiset<Request>, b: multiset<Request>, c: multiset<Request>)
    ensures a + b + c == c + b + a
  {
  }

  lemma {:induction false} NoneRunning(ws: seq<Worker>)
    requires StoppedIn(ws) == |ws|
    ensures RunningIn(ws) == multiset{} && forall i :: 0 <= i < |ws| ==> ws[i].Stopped?
    decreases |ws|
  {
    if ws != [] { NoneRunning(ws[1..]); }
  }

  lemma {:induction false} SomeGoing(ws: seq<Worker>) returns (w: nat)
    requires StoppedIn(ws) < |ws|
    ensures w < |ws| && !ws[w].Stopped?
    decreases |ws|
  {
    if ws[0].Stopped? {
      w := SomeGoing(ws[1..]);
      w := w + 1;
    } else {
      w := 0;
    }
  }

  lemma {:induction false} AllIdle(n: nat)
    ensures StoppedIn(Idle(n)) == 0 && RunningIn(Idle(n)) == multiset{}
    decreases n
  {
    if n > 0 {
      IdleShape(n);
      AllIdle(n - 1);
    }
  }

  lemma {:induction false} IdleShape(n: nat)
    requires n > 0
    ensures Idle(n)[0] == Waiting && Idle(n)[1..] == Idle(n - 1)
  {
  }

  // ----- what every step keeps

  /** All requests are in front of all nulls. */
  ghost predicate NullsLast(q: seq<Item>) {
    forall i, j :: 0 <= i < j < |q| && q[i].Null? ==> q[j].Null?
  }

  ghost predicate OnlyNulls(q: seq<Item>) {
    forall i :: 0 <= i < |q| ==> q[i].Null?
  }

  function Pushed(s: Pool): nat {
    match s.server
    case Serving => 0
    case Pushing(_) => 0
    case Stopping(k) => k
    case Joining(_) => |s.workers|
  }

  ghost predicate Inv(s: Pool) {
    && Pushed(s) <= |s.workers|
    && Nulls(s.queue) + StoppedIn(s.workers) == Pushed(s)
    && NullsLast(s.queue) && (StoppedIn(s.workers) > 0 ==> OnlyNulls(s.queue))
    && s.submitted == s.taken + Jobs(s.queue)
    && multiset(s.taken) == s.finished + RunningIn(s.workers)
    && |s.queue| <= s.capacity
    && (s.server.Joining? ==> s.server.joined <= |s.workers|)
    && (s.server.Joining? ==> forall i :: 0 <= i < s.server.joined ==> s.workers[i].Stopped?)
  }

  lemma InitialInv(capacity: nat, threads: nat)
    ensures Inv(Start(capacity, threads))
  {
    AllIdle(threads);
  }

  lemma {:induction false} NoNull(q: seq<Item>)
    requires Nulls(q) == 0
    ensures forall i :: 0 <= i < |q| ==> q[i].Job?
    decreases |q|
  {
    if q != [] { NoNull(q[1..]); }
  }

  lemma KeepPush(s: Pool, a: Action)
    requires Inv(s) && Enabled(s, a) && (a.Arrive? || a.Submit? || a.PushNull? || a.Stop?)
    ensures Inv(Step(s, a))
  {
    hide Jobs, Nulls, StoppedIn, RunningIn;
    match a
    case Arrive(_) =>
    case Submit =>
      var r := s.server.r;
      NoNull(s.queue);
      JobsAppend(s.queue, Job(r));
      assert s.taken + Jobs(s.queue) + [r] == s.taken + (Jobs(s.queue) + [r]);
    case PushNull =>
      JobsAppend(s.queue, Null);
      assert Jobs(s.queue) + [] == Jobs(s.queue);
    case Stop =>
  }

  lemma FrontNulls(q: seq<Item>)
    requires q != [] && NullsLast(q)
    ensures NullsLast(q[1..]) && (OnlyNulls(q) ==> q[0].Null?) && (q[0].Null? ==> OnlyNulls(q[1..]))
    ensures Nulls(q) == Nulls(q[1..]) + (if q[0].Null? then 1 else 0)
    ensures Jobs(q) == (if q[0].Job? then [q[0].r] else []) + Jobs(q[1..])
  {
    forall i, j | 0 <= i < j < |q[1..]| && q[1..][i].Null? ensures q[1..][j].Null? {
      assert q[i + 1].Null? && q[j + 1] == q[1..][j];
    }
  }

  lemma KeepPopJob(s: Pool, w: nat)
    requires Inv(s) && Enabled(s, Pop(w)) && s.queue[0].Job?
    ensures Inv(Step(s, Pop(w)))
  {
    hide Jobs, Nulls, StoppedIn, RunningIn, NullsLast, OnlyNulls;
    var q, r := s.queue, s.queue[0].r;
    FrontNulls(q);
    StoppedUpdate(s.workers, w, Running(r));
    RunningUpdate(s.workers, w, Running(r));
    assert s.taken + ([r] + Jobs(q[1..])) == s.taken + [r] + Jobs(q[1..]);
    SplitCount(s.taken, [r]);
    MoreRunning(s.finished, RunningIn(s.workers), RunningIn(s.workers[w := Running(r)]), r);
  }

  lemma KeepPopNull(s: Pool, w: nat)
    requires Inv(s) && Enabled(s, Pop(w)) && s.queue[0].Null?
    ensures Inv(Step(s, Pop(w)))
  {
    hide Jobs, Nulls, StoppedIn, RunningIn, NullsLast, OnlyNulls;
    var q := s.queue;
    FrontNulls(q);
    assert [] + Jobs(q[1..]) == Jobs(q[1..]);
    StoppedUpdate(s.workers, w, Stopped);
    RunningUpdate(s.workers, w, Stopped);
    NoneMore(RunningIn(s.workers[w := Stopped]), RunningIn(s.workers));
  }

  lemma NoneMore(a: multiset<Request>, b: multiset<Request>)
    requires a + multiset{} == b + multiset{}
    ensures a == b
  {
    assert a + multiset{} == a && b + multiset{} == b;
  }

  lemma KeepPop(s: Pool, w: nat)
    requires Inv(s) && Enabled(s, Pop(w))
    ensures Inv(Step(s, Pop(w)))
  {
    hide Inv;
    if s.queue[0].Job? { KeepPopJob(s, w); } else { KeepPopNull(s, w); }
  }

  lemma MoreRunning(finished: multiset<Request>, was: multiset<Request>, now: multiset<Request>, r: Request)
    requires now + multiset{} == was + multiset{r}
    ensures finished + was + multiset{r} == finished + now
  {
    assert now == was + multiset{r};
  }

  lemma KeepFinish(s: Pool, w: nat)
    requires Inv(s) && Enabled(s, Finish(w))
    ensures Inv(Step(s, Finish(w)))
  {
    hide Jobs, Nulls, StoppedIn, RunningIn;
    var r := s.workers[w].r;
    StoppedUpdate(s.workers, w, Waiting);
    RunningUpdate(s.workers, w, Waiting);
    LessRunning(s.finished, RunningIn(s.workers), RunningIn(s.workers[w := Waiting]), r);
  }

  lemma LessRunning(finished: multiset<Request>, was: multiset<Request>, now: multiset<Request>, r: Request)
    requires now + multiset{r} == was + multiset{}
    ensures finished + was == finished + multiset{r} + now
  {
    assert was == now + multiset{r};
    assert finished + (now + multiset{r}) == finished + multiset{r} + now;
  }

  lemma StepKeepsInv(s: Pool, a: Action)
    requires Inv(s) && Enabled(s, a)
    ensures Inv(Step(s, a))
  {
    match a
    case Arrive(_) => KeepPush(s, a);
    case Submit => KeepPush(s, a);
    case Stop => KeepPush(s, a);
    case PushNull => KeepPush(s, a);
    case Pop(w) => KeepPop(s, w);
    case Finish(w) => KeepFinish(s, w);
    case Join =>
  }

  // ----- runs

  ghost predicate IsRun(s: Pool, acts: seq<Action>, t: Pool)
    decreases |acts|
  {
    if acts == [] then s == t
    else Enabled(s, acts[0]) && IsRun(Step(s, acts[0]), acts[1..], t)
  }

  lemma {:induction false} RunKeepsInv(s: Pool, acts: seq<Action>, t: Pool)
    requires Inv(s) && IsRun(s, acts, t)
    ensures Inv(t) && t.capacity == s.capacity && |t.workers| == |s.workers|
    decreases |acts|
  {
    hide Inv;
    if acts != [] {
      StepKeepsInv(s, acts[0]);
      RunKeepsInv(Step(s, acts[0]), acts[1..], t);
    }
  }

  /** endServer has returned. */
  predicate Ended(s: Pool) {
    s.server.Joining? && s.server.joined == |s.workers|
  }

  // ----- what a run was asked to do

  /** The requests that arrive in a run, in order. */
  function Arrivals(acts: seq<Action>): seq<Request> {
    if acts == [] then [] else (if acts[0].Arrive? then [acts[0].r] else []) + Arrivals(acts[1..])
  }

  /** How often a request is brought to its end. */
  function Finishes(acts: seq<Action>): nat {
    if acts == [] then 0 else (if acts[0].Finish? then 1 else 0) + Finishes(acts[1..])
  }

  function Held(server: Server): seq<Request> { if server.Pushing? then [server.r] else [] }

  lemma {:induction false} ArrivalsKept(s: Pool, acts: seq<Action>, t: Pool)
    requires IsRun(s, acts, t)
    ensures s.submitted + Held(s.server) + Arrivals(acts) == t.submitted + Held(t.server)
    ensures |t.finished| == |s.finished| + Finishes(acts)
    decreases |acts|
  {
    if acts != [] {
      var u := Step(s, acts[0]);
      ArrivalsKept(u, acts[1..], t);
      var first := if acts[0].Arrive? then [acts[0].r] else [];
      assert u.submitted + Held(u.server) == s.submitted + Held(s.server) + first;
      hide Step, Held;
      assert s.submitted + Held(s.server) + (first + Arrivals(acts[1..]))
          == s.submitted + Held(s.server) + first + Arrivals(acts[1..]);
    }
  }

  /** In every run: the requests that arrived are in the queue or behind it in the server's
      hand, or were taken from it, in the order of arrival, and none is lost. Those taken
      run or have been brought to their end, each once. Nulls are conserved. At the end
      every request that arrived has been run, unless there was no worker at all. */
  lemma ReachableSafe(capacity: nat, threads: nat, acts: seq<Action>, s: Pool)
    requires IsRun(Start(capacity, threads), acts, s)
    ensures Arrivals(acts) == s.submitted + Held(s.server) && s.submitted == s.taken + Jobs(s.queue)
    ensures multiset(s.taken) == s.finished + RunningIn(s.workers) && |s.finished| == Finishes(acts)
    ensures (threads - Pushed(s)) + Nulls(s.queue) + StoppedIn(s.workers) == threads
    ensures Ended(s) ==> StoppedIn(s.workers) == threads && RunningIn(s.workers) == multiset{}
    ensures Ended(s) && threads > 0 ==> s.queue == []
    ensures Ended(s) ==> (s.finished == multiset(Arrivals(acts)) <==> threads > 0 || Arrivals(acts) == [])
  {
    InitialInv(capacity, threads);
    RunKeepsInv(Start(capacity, threads), acts, s);
    ArrivalsKept(Start(capacity, threads), acts, s);
    hide RunningIn, Nulls, Jobs, StoppedIn, NullsLast;
    assert [] + [] + Arrivals(acts) == Arrivals(acts);
    if Ended(s) {
      AllStopped(s.workers);
      NoneRunning(s.workers);
      assert s.finished + multiset{} == s.finished;
      NullsIn(s.queue);
      assert s.taken + [] == s.taken && s.submitted + [] == s.submitted;
      if threads == 0 {
        NoThreads(capacity, acts, s);
      }
    }
  }

  lemma {:induction false} NullsIn(q: seq<Item>)
    ensures Nulls(q) == 0 && OnlyNulls(q) ==> q == []
    ensures q == [] ==> Jobs(q) == []
  {
  }

  /** Without workers nothing is ever taken. */
  lemma {:induction false} NoThreadsFrom(s: Pool, acts: seq<Action>, t: Pool)
    requires IsRun(s, acts, t) && s.workers == [] && s.taken == [] && s.finished == multiset{}
    ensures t.workers == [] && t.taken == [] && t.finished == multiset{}
    decreases |acts|
  {
    if acts != [] { NoThreadsFrom(Step(s, acts[0]), acts[1..], t); }
  }

  lemma NoThreads(capacity: nat, acts: seq<Action>, s: Pool)
    requires IsRun(Start(capacity, 0), acts, s)
    ensures s.finished == multiset{} && (multiset(s.submitted) == multiset{} <==> s.submitted == [])
  {
    NoThreadsFrom(Start(capacity, 0), acts, s);
    if s.submitted != [] { assert s.submitted[0] in multiset(s.submitted); }
  }

  lemma SplitCount(a: seq<Request>, b: seq<Request>)
    ensures multiset(a + b) == multiset(a) + multiset(b)
  {
  }

  lemma {:induction false} AllStopped(ws: seq<Worker>)
    requires forall i :: 0 <= i < |ws| ==> ws[i].Stopped?
    ensures StoppedIn(ws) == |ws|
    decreases |ws|
  {
    if ws != [] { AllStopped(ws[1..]); }
  }

  // ----- shutting down

  /** What is left to do once no more requests come. */
  function Measure(s: Pool): nat
    requires Inv(s)
  {
    5 * (|s.workers| - Pushed(s)) + 3 * |s.queue| + Busy(s.workers) +
    (match s.server case Serving => |s.workers| + 2 case Pushing(_) => |s.workers| + 6
     case Stopping(_) => |s.workers| + 1 case Joining(j) => |s.workers| - j)
  }

  function Busy(ws: seq<Worker>): nat {
    if ws == [] then 0 else (if ws[0].Running? then 1 else 0) + Busy(ws[1..])
  }

  lemma {:induction false} BusyUpdate(ws: seq<Worker>, w: nat, x: Worker)
    requires w < |ws|
    ensures Busy(ws[w := x]) == Busy(ws) - (if ws[w].Running? then 1 else 0) + (if x.Running? then 1 else 0)
    decreases |ws|
  {
    if w > 0 {
      assert ws[w := x][1..] == ws[1..][w - 1 := x];
      BusyUpdate(ws[1..], w - 1, x);
    } else {
      assert ws[w := x][1..] == ws[1..];
    }
  }

  /** Every step but the arrival of a request uses some of it up. */
  lemma StepDecreases(s: Pool, a: Action)
    requires Inv(s) && Enabled(s, a) && !a.Arrive?
    ensures Inv(Step(s, a)) && Measure(Step(s, a)) < Measure(s)
  {
    StepKeepsInv(s, a);
    hide Inv, Busy;
    match a
    case Pop(w) => BusyUpdate(s.workers, w, if s.queue[0].Job? then Running(s.queue[0].r) else Stopped);
    case Finish(w) => BusyUpdate(s.workers, w, Waiting);
    case Submit => InvPushed(s);
    case Stop => InvPushed(s);
    case PushNull => InvPushed(s);
    case Join =>
  }

  lemma InvPushed(s: Pool)
    requires Inv(s)
    ensures Pushed(s) <= |s.workers|
  {
  }

  /** There is room for what is to be pushed, now or once somebody has popped. */
  predicate Flows(s: Pool) {
    if s.server.Pushing? then |s.queue| < s.capacity || (s.capacity > 0 && s.workers != [])
    else s.capacity > 0 || s.workers == []
  }

  /** While a request is pushed no worker has stopped; afterwards the null of some worker
      that has not stopped is still to be pushed or popped. */
  lemma SomeStep(s: Pool) returns (a: Action)
    requires Inv(s) && !s.server.Serving? && !Ended(s) && Flows(s)
    ensures !a.Arrive? && !a.Stop? && Enabled(s, a)
  {
    hide Jobs, NullsLast, RunningIn, Nulls, StoppedIn;
    NullsFit(s.queue);
    if s.server.Pushing? && |s.queue| < s.capacity {
      a := Submit;
    } else if s.server.Stopping? && (s.server.pushed == |s.workers| || |s.queue| < s.capacity) {
      a := PushNull;
    } else if s.server.Joining? && s.workers[s.server.joined].Stopped? {
      a := Join;
    } else {
      if s.server.Joining? { NotAllStopped(s.workers, s.server.joined); }
      var w := SomeGoing(s.workers);
      a := if s.workers[w].Running? then Finish(w) else Pop(w);
    }
  }

  lemma {:induction false} NullsFit(q: seq<Item>)
    ensures Nulls(q) <= |q|
    decreases |q|
  {
    if q != [] { NullsFit(q[1..]); }
  }

  lemma {:induction false} NotAllStopped(ws: seq<Worker>, w: nat)
    requires w < |ws| && !ws[w].Stopped?
    ensures StoppedIn(ws) < |ws|
    decreases |ws|
  {
    if w > 0 { NotAllStopped(ws[1..], w - 1); }
  }

  predicate NoArrival(acts: seq<Action>) {
    forall i :: 0 <= i < |acts| ==> !acts[i].Arrive?
  }

  /** However the threads are scheduled, a shutdown takes at most as many steps as there
      is left to do ... */
  lemma {:induction false} ShutdownBounded(s: Pool, acts: seq<Action>, t: Pool)
    requires Inv(s) && IsRun(s, acts, t) && NoArrival(acts)
    ensures Inv(t) && |acts| + Measure(t) <= Measure(s)
    decreases |acts|
  {
    hide Inv, Measure;
    if acts != [] {
      StepDecreases(s, acts[0]);
      ShutdownBounded(Step(s, acts[0]), acts[1..], t);
    }
  }

  ghost predicate Stuck(s: Pool) {
    forall a: Action :: !Enabled(s, a)
  }

  /** ... and it only comes to rest at its end, exactly if the queue has room for a null
      or there are no workers. A request that waits to be pushed waits for ever exactly if
      the queue is full and nobody will ever pop from it. */
  lemma StuckIffNoRoom(s: Pool)
    requires Inv(s) && !s.server.Serving? && !Ended(s)
    ensures !s.server.Pushing? && (s.capacity > 0 || s.workers == []) ==> !Stuck(s)
    ensures s.server == Stopping(0) && s.capacity == 0 && s.workers != [] ==> (Stuck(s) <==> Busy(s.workers) == 0)
    ensures s.server.Pushing? ==>
              (Stuck(s) <==> |s.queue| == s.capacity && Busy(s.workers) == 0 && (s.workers == [] || s.capacity == 0))
  {
    if Flows(s) {
      var a := SomeStep(s);
      assert Enabled(s, a);
    } else if s.server.Pushing? || s.server == Stopping(0) {
      hide Inv;
      NothingToPop(s);
      if Busy(s.workers) == 0 {
        forall a: Action ensures !Enabled(s, a) {
          if a.Finish? && a.w < |s.workers| { NotBusy(s.workers, a.w); }
        }
      } else {
        var w := SomeBusy(s.workers);
        assert Enabled(s, Finish(w));
      }
    }
  }

  lemma NothingToPop(s: Pool)
    requires Inv(s) && !Flows(s)
    ensures s.queue == [] || s.workers == []
    ensures |s.queue| <= s.capacity
  {
  }

  lemma {:induction false} NotBusy(ws: seq<Worker>, w: nat)
    requires w < |ws| && Busy(ws) == 0
    ensures !ws[w].Running?
    decreases |ws|
  {
    if w > 0 { NotBusy(ws[1..], w - 1); }
  }

  lemma {:induction false} SomeBusy(ws: seq<Worker>) returns (w: nat)
    requires Busy(ws) > 0
    ensures w < |ws| && ws[w].Running?
    decreases |ws|
  {
    if ws[0].Running? {
      w := 0;
    } else {
      w := SomeBusy(ws[1..]);
      w := w + 1;
    }
  }

  /** A shutdown that has come to rest has run every request that arrived. */
  lemma ShutdownCompletes(capacity: nat, threads: nat, acts: seq<Action>, s: Pool)
    requires IsRun(Start(capacity, threads), acts, s) && !s.server.Serving?
    requires capacity > 0 && threads > 0 && Stuck(s)
    ensures Ended(s) && s.queue == [] && s.finished == multiset(Arrivals(acts))
  {
    InitialInv(capacity, threads);
    RunKeepsInv(Start(capacity, threads), acts, s);
    hide Inv, Stuck, Arrivals;
    if !Ended(s) { StuckIffNoRoom(s); }
    ReachableSafe(capacity, threads, acts, s);
  }

  // ----- the two configurations that fail

  /** Without workers a shutdown ends with the request it was given unserved. */
  lemma NobodyServes(capacity: nat, r: Request) returns (s: Pool)
    requires capacity > 0
    ensures IsRun(Start(capacity, 0), [Arrive(r), Submit, Stop, PushNull], s)
    ensures Ended(s) && s.submitted == [r] && s.finished == multiset{}
  {
    var s0 := Step(Start(capacity, 0), Arrive(r));
    var s1 := Step(s0, Submit);
    var s2 := Step(s1, Stop);
    s := Step(s2, PushNull);
    assert [Stop, PushNull][1..] == [PushNull] && [Submit, Stop, PushNull][1..] == [Stop, PushNull];
    assert [Arrive(r), Submit, Stop, PushNull][1..] == [Submit, Stop, PushNull];
    assert IsRun(s2, [PushNull], s) && IsRun(s1, [Stop, PushNull], s) && IsRun(s0, [Submit, Stop, PushNull], s);
  }

  /** With no worker and no room the first request waits for ever. */
  lemma FullForEver(r: Request) returns (s: Pool)
    ensures IsRun(Start(0, 0), [Arrive(r)], s) && Stuck(s) && !Ended(s)
  {
    s := Step(Start(0, 0), Arrive(r));
    assert IsRun(s, [], s);
  }

  /** Without room in the queue a shutdown is stuck at its first null. */
  lemma NoRoomForNull(threads: nat) returns (s: Pool)
    requires threads > 0
    ensures IsRun(Start(0, threads), [Stop], s) && Stuck(s) && !Ended(s)
  {
    s := Step(Start(0, threads), Stop);
    assert IsRun(s, [], s);
    forall i | 0 <= i < threads ensures s.workers[i] == Waiting {}
  }
}

/** The concurrent priority queue: any number of threads push and pop through an
    aggregator, and whoever empties its mailbox executes the whole batch. Every run is
    linearizable: a call takes effect when its batch is taken over, between its beginning
    and its return, and these effects in their order are those of a sequential queue. */
module ConcurrentQueue {
  import opened PriorityQueue

  type Tid = nat

  datatype Option<T> = None | Some(value: T)

  datatype Pc =
    | Idle
    | Begin                          // the operation record is made
    | Loaded(head: Option<Tid>)      // the mailbox has been read, its head is the record's next
    | Waiting                        // waits for its status
    | First                          // found the mailbox empty: waits for handler_busy to be 0
    | Claiming                       // has seen it 0
    | Grabbing                       // has set it
    | Handling                       // executes the batch it has taken

  /** A thread with its call: a number of its own, the operation, and the status so far. */
  datatype Thread = Thread(pc: Pc, id: nat, op: Op, st: Status)

  /** `due` are results of the batch that its callers cannot see yet. The rest is history:
      who has set handler_busy, the operation of every call, the calls in the order in
      which they took effect, what the returned ones returned, and for every call those
      that had returned before it began. */
  datatype State = State(
    th: map<Tid, Thread>,
    mailbox: seq<Tid>,
    busy: bool,
    due: map<Tid, Status>,
    contents: multiset<Item>,
    who: Option<Tid>,
    asked: seq<Op>,
    order: seq<Event>,
    results: map<nat, Event>,
    earlier: seq<set<nat>>)

  /** What a batch comes to is one of the outcomes that HandleOperations guarantees. */
  datatype Outcome = Outcome(sts: seq<Status>, hist: seq<Event>, after: multiset<Item>)

  datatype Action =
    | Call(op: Op) | Load | Swap | SeeFree | SetBusy | Grab(o: Outcome) | Report(u: Tid) | Release | Return

  function Head(mailbox: seq<Tid>): Option<Tid> { if mailbox == [] then None else Some(mailbox[0]) }

  function OpsOf(th: map<Tid, Thread>, ts: seq<Tid>): (ops: seq<Op>)
    requires forall i :: 0 <= i < |ts| ==> ts[i] in th
    ensures |ops| == |ts| && forall i :: 0 <= i < |ts| ==> ops[i] == th[ts[i]].op
  {
    if ts == [] then [] else [th[ts[0]].op] + OpsOf(th, ts[1..])
  }

  predicate AllIn(th: map<Tid, Thread>, ts: seq<Tid>) { forall i :: 0 <= i < |ts| ==> ts[i] in th }

  ghost predicate Enabled(s: State, t: Tid, a: Action) {
    t in s.th &&
    match a
    case Call(_) => s.th[t].pc == Idle
    case Load => s.th[t].pc == Begin
    case Swap => s.th[t].pc.Loaded?
    case SeeFree => s.th[t].pc == First && !s.busy
    case SetBusy => s.th[t].pc == Claiming
    case Grab(o) =>
      && s.th[t].pc == Grabbing && AllIn(s.th, s.mailbox)
      && Linearizes(s.contents, OpsOf(s.th, s.mailbox), o.sts, o.hist, o.after)
    case Report(u) => s.th[t].pc == Handling && u in s.due && u in s.th
    case Release => s.th[t].pc == Handling && s.due == map[]
    case Return => s.th[t].pc == Waiting && s.th[t].st != Wait
  }

  /** The batch's history with the numbers of the calls. */
  function Labelled(th: map<Tid, Thread>, ts: seq<Tid>, hist: seq<Event>): (r: seq<Event>)
    requires AllIn(th, ts) && forall i :: 0 <= i < |hist| ==> hist[i].k < |ts|
    ensures |r| == |hist|
    ensures forall i :: 0 <= i < |hist| ==> r[i] == Event(th[ts[hist[i].k]].id, hist[i].op, hist[i].st)
  {
    if hist == [] then []
    else
      var e := hist[|hist| - 1];
      Labelled(th, ts, hist[..|hist| - 1]) + [Event(th[ts[e.k]].id, e.op, e.st)]
  }

  function Due(ts: seq<Tid>, sts: seq<Status>): map<Tid, Status>
    requires |ts| == |sts|
  {
    if ts == [] then map[] else Due(ts[1..], sts[1..])[ts[0] := sts[0]]
  }

  ghost function Fire(s: State, t: Tid, a: Action): State
    requires Enabled(s, t, a)
  {
    var me := s.th[t];
    match a
    case Call(op) =>
      s.(th := s.th[t := Thread(Begin, |s.asked|, op, Wait)], asked := s.asked + [op],
         earlier := s.earlier + [s.results.Keys])
    case Load => s.(th := s.th[t := me.(pc := Loaded(Head(s.mailbox)))])
    case Swap =>
      if Head(s.mailbox) == me.pc.head then
        s.(th := s.th[t := me.(pc := if me.pc.head.None? then First else Waiting)], mailbox := [t] + s.mailbox)
      else s.(th := s.th[t := me.(pc := Begin)])
    case SeeFree => s.(th := s.th[t := me.(pc := Claiming)])
    case SetBusy => s.(th := s.th[t := me.(pc := Grabbing)], busy := true, who := Some(t))
    case Grab(o) =>
      s.(th := s.th[t := me.(pc := Handling)], mailbox := [], due := Due(s.mailbox, o.sts), contents := o.after,
         order := s.order + Labelled(s.th, s.mailbox, o.hist))
    case Report(u) => s.(th := s.th[u := s.th[u].(st := s.due[u])], due := s.due - {u})
    case Release => s.(th := s.th[t := me.(pc := Waiting)], busy := false, who := None)
    case Return => s.(th := s.th[t := me.(pc := Idle)], results := s.results[me.id := Event(me.id, me.op, me.st)])
  }

  predicate Initial(s: State) {
    && (forall t :: t in s.th ==> s.th[t].pc == Idle)
    && s.mailbox == [] && !s.busy && s.due == map[] && s.contents == multiset{} && s.who == None
    && s.asked == [] && s.order == [] && s.results == map[] && s.earlier == []
  }

  // ----- what holds of the threads

  predicate Distinct(ts: seq<Tid>) { forall i, j :: 0 <= i < j < |ts| ==> ts[i] != ts[j] }

  predicate IsLast(ts: seq<Tid>, t: Tid) { ts != [] && ts[|ts| - 1] == t }

  predicate Opener(p: Pc) { p.First? || p.Claiming? || p.Grabbing? }

  predicate Active(p: Pc) { p.Grabbing? || p.Handling? }

  predicate Entered(p: Pc) { p.Begin? || p.Loaded? }

  /** The call has taken effect with this result. */
  predicate Took(order: seq<Event>, x: Thread, st: Status) { Event(x.id, x.op, st) in order }

  predicate Untaken(order: seq<Event>, id: nat) { forall i :: 0 <= i < |order| ==> order[i].k != id }

  /** The call is under way. */
  predicate Running(asked: seq<Op>, results: map<nat, Event>, x: Thread) {
    x.id < |asked| && asked[x.id] == x.op && x.id !in results
  }

  /** A call that has not taken effect waits in the mailbox or is on its way there; one
      that has is in the order with the result it has got or will get. */
  predicate CallOk(x: Thread, inMail: bool, due: Option<Status>, order: seq<Event>) {
    if x.pc.Idle? then !inMail && due.None?
    else if Entered(x.pc) then !inMail && due.None? && x.st == Wait && Untaken(order, x.id)
    else if inMail then due.None? && x.st == Wait && (x.pc.Waiting? || Opener(x.pc)) && Untaken(order, x.id)
    else if due.Some? then x.st == Wait && (x.pc.Waiting? || x.pc.Handling?) && Took(order, x, due.value)
    else x.st != Wait && (x.pc.Waiting? || x.pc.Handling?) && Took(order, x, x.st)
  }

  /** Only the last one in the mailbox may become the handler, and it knows who handles. */
  predicate PlaceOk(p: Pc, last: bool, who: bool, busy: bool) {
    last == Opener(p) && who == Active(p) && (p.Claiming? ==> !busy)
  }

  function DueOf(due: map<Tid, Status>, t: Tid): Option<Status> { if t in due then Some(due[t]) else None }

  predicate ThreadOk(s: State, t: Tid)
    requires t in s.th
  {
    && PlaceOk(s.th[t].pc, IsLast(s.mailbox, t), s.who == Some(t), s.busy)
    && CallOk(s.th[t], t in s.mailbox, DueOf(s.due, t), s.order)
    && (!s.th[t].pc.Idle? ==> Running(s.asked, s.results, s.th[t]))
  }

  predicate DistinctIds(th: map<Tid, Thread>) {
    forall t, u :: t in th && u in th && t != u && !th[t].pc.Idle? && !th[u].pc.Idle? ==> th[t].id != th[u].id
  }

  lemma SameIds(th: map<Tid, Thread>, th': map<Tid, Thread>)
    requires DistinctIds(th) && th'.Keys == th.Keys
    requires forall t :: t in th ==> th'[t].id == th[t].id && (th[t].pc.Idle? ==> th'[t].pc.Idle?)
    ensures DistinctIds(th')
  {
  }

  ghost predicate ThreadsOk(s: State) {
    (forall t :: t in s.th ==> ThreadOk(s, t)) && DistinctIds(s.th)
  }

  ghost predicate Shape(s: State) {
    && Distinct(s.mailbox) && AllIn(s.th, s.mailbox) && s.due.Keys <= s.th.Keys
    && (s.busy <==> s.who.Some?) && (s.who.Some? ==> s.who.value in s.th)
    && (s.due != map[] ==> s.who.Some? && s.th[s.who.value].pc.Handling?)
  }

  // ----- what holds of the history

  /** No call takes effect twice, or as another operation than was asked for. */
  ghost predicate Genuine(order: seq<Event>, asked: seq<Op>) {
    && (forall i :: 0 <= i < |order| ==> order[i].k < |asked| && order[i].op == asked[order[i].k])
    && forall i, j :: 0 <= i < j < |order| ==> order[i].k != order[j].k
  }

  /** A call that had returned before another one began takes effect before it. */
  ghost predicate RealTime(order: seq<Event>, earlier: seq<set<nat>>) {
    forall j, a :: 0 <= j < |order| && order[j].k < |earlier| && a in earlier[order[j].k] ==> TakesEffect(order[..j], a)
  }

  predicate TakesEffect(order: seq<Event>, a: nat) { exists i :: 0 <= i < |order| && order[i].k == a }

  ghost predicate History(s: State) {
    && Explains(multiset{}, s.order) && Replay(multiset{}, s.order) == s.contents
    && Genuine(s.order, s.asked) && RealTime(s.order, s.earlier)
    && |s.earlier| == |s.asked|
    && (forall a :: a in s.results ==> s.results[a] in s.order && s.results[a].k == a)
    && forall b :: 0 <= b < |s.earlier| ==> s.earlier[b] <= s.results.Keys
  }

  ghost predicate Inv(s: State) { Shape(s) && ThreadsOk(s) && History(s) }

  lemma InitialInv(s: State)
    requires Initial(s)
    ensures Inv(s)
  {
    ReplayEmpty(multiset{});
  }

  // ----- the batch

  lemma {:induction false} IdsIn(hist: seq<Event>, k: nat)
    requires k in Ids(hist)
    ensures TakesEffect(hist, k)
    decreases |hist|
  {
    var m := |hist| - 1;
    if hist[m].k != k {
      IdsIn(hist[..m], k);
      var i :| 0 <= i < m && hist[..m][i].k == k;
      assert hist[i].k == k;
    }
  }

  lemma {:induction false} IdsTwice(hist: seq<Event>, i: nat, j: nat)
    requires i < j < |hist| && hist[i].k == hist[j].k
    ensures Ids(hist)[hist[i].k] >= 2
    decreases |hist|
  {
    var m := |hist| - 1;
    if j < m { IdsTwice(hist[..m], i, j); } else { IdsContain(hist[..m], i); }
  }

  /** In the batch's history every operation of the batch is, once. */
  lemma EachOnce(ops: seq<Op>, o: Outcome, q: multiset<Item>)
    requires Linearizes(q, ops, o.sts, o.hist, o.after)
    ensures |o.sts| == |ops|
    ensures forall i :: 0 <= i < |o.hist| ==>
              && o.hist[i].k < |ops| && o.hist[i].op == ops[o.hist[i].k] && o.hist[i].st == o.sts[o.hist[i].k]
    ensures forall i, j :: 0 <= i < j < |o.hist| ==> o.hist[i].k != o.hist[j].k
    ensures forall k :: 0 <= k < |ops| ==> TakesEffect(o.hist, k)
  {
    hide Explains, Replay, Ids, Indices;
    forall i, j | 0 <= i < j < |o.hist| ensures o.hist[i].k != o.hist[j].k {
      if o.hist[i].k == o.hist[j].k {
        IdsTwice(o.hist, i, j);
        IndicesOnce(|ops|, o.hist[i].k);
      }
    }
    forall k | 0 <= k < |ops| ensures TakesEffect(o.hist, k) {
      IndicesOnce(|ops|, k);
      IdsIn(o.hist, k);
    }
  }

  lemma {:induction false} NeverWait(q: multiset<Item>, hist: seq<Event>, i: nat)
    requires Explains(q, hist) && i < |hist|
    ensures hist[i].st != Wait
    decreases |hist|
  {
    if i < |hist| - 1 { NeverWait(q, hist[..|hist| - 1], i); }
  }

  lemma {:induction false} DueIs(ts: seq<Tid>, sts: seq<Status>)
    requires |ts| == |sts| && Distinct(ts)
    ensures forall t :: t in Due(ts, sts) <==> t in ts
    ensures forall i :: 0 <= i < |ts| ==> Due(ts, sts)[ts[i]] == sts[i]
    decreases |ts|
  {
    if ts != [] {
      assert forall i, j :: 0 <= i < j < |ts[1..]| ==> ts[1..][i] == ts[i + 1] && ts[1..][j] == ts[j + 1];
      DueIs(ts[1..], sts[1..]);
      forall i | 0 <= i < |ts| ensures Due(ts, sts)[ts[i]] == sts[i] {
        if i > 0 { assert ts[i] == ts[1..][i - 1] && sts[i] == sts[1..][i - 1] && ts[i] != ts[0]; }
      }
    }
  }

  /** Relabelling changes nothing a sequential queue would notice. */
  lemma {:induction false} SameExplained(q: multiset<Item>, a: seq<Event>, b: seq<Event>)
    requires |a| == |b| && forall i :: 0 <= i < |a| ==> a[i].op == b[i].op && a[i].st == b[i].st
    ensures Explains(q, a) == Explains(q, b) && Replay(q, a) == Replay(q, b)
    decreases |a|
  {
    hide Allowed;
    if a != [] { SameExplained(q, a[..|a| - 1], b[..|b| - 1]); }
  }

  // ----- every step keeps the invariant

  lemma CallHistory(s: State, s': State, op: Op)
    requires History(s) && s'.asked == s.asked + [op] && s'.earlier == s.earlier + [s.results.Keys]
    requires s'.order == s.order && s'.results == s.results && s'.contents == s.contents
    ensures History(s') && |s.asked| !in s.results && Untaken(s.order, |s.asked|)
  {
    hide Explains, Replay, TakesEffect;
    forall a | a in s.results ensures a < |s.asked| {
      var i :| 0 <= i < |s.order| && s.order[i] == s.results[a];
    }
  }

  lemma SameHistory(s: State, s': State)
    requires History(s) && s'.asked == s.asked && s'.earlier == s.earlier
    requires s'.order == s.order && s'.results == s.results && s'.contents == s.contents
    ensures History(s')
  {
    hide Explains, Replay, TakesEffect, Genuine, RealTime;
  }

  /** Nothing but the record of thread t and histories it does not look at has changed. */
  lemma OthersKept(s: State, s': State, t: Tid)
    requires ThreadsOk(s) && s'.th.Keys == s.th.Keys && forall u :: u in s.th && u != t ==> s'.th[u] == s.th[u]
    requires s'.mailbox == s.mailbox && s'.busy == s.busy && s'.who == s.who && s'.due == s.due
    requires s'.order == s.order && s'.asked == s.asked && s'.results == s.results
    ensures forall u :: u in s.th && u != t ==> ThreadOk(s', u)
  {
    hide Took, Untaken, Running, IsLast, DistinctIds, PlaceOk, CallOk;
    forall u | u in s.th && u != t ensures ThreadOk(s', u) { assert ThreadOk(s, u); }
  }

  /** A step that changes nothing but the thread's own program counter. */
  lemma OwnStep(s: State, t: Tid, pc: Pc)
    requires Inv(s) && t in s.th && !s.th[t].pc.Idle? && !pc.Idle?
    requires PlaceOk(pc, IsLast(s.mailbox, t), s.who == Some(t), s.busy)
    requires CallOk(s.th[t].(pc := pc), t in s.mailbox, DueOf(s.due, t), s.order)
    requires s.who == Some(t) && s.th[t].pc.Handling? ==> pc.Handling?
    ensures Inv(s.(th := s.th[t := s.th[t].(pc := pc)]))
  {
    hide History, Distinct, IsLast, DistinctIds, PlaceOk, CallOk, ThreadOk;
    var s' := s.(th := s.th[t := s.th[t].(pc := pc)]);
    SameHistory(s, s');
    SameIds(s.th, s'.th);
    OthersKept(s, s', t);
    OwnThread(s, t, pc);
  }

  lemma OwnThread(s: State, t: Tid, pc: Pc)
    requires t in s.th && ThreadOk(s, t) && !s.th[t].pc.Idle?
    requires PlaceOk(pc, IsLast(s.mailbox, t), s.who == Some(t), s.busy)
    requires CallOk(s.th[t].(pc := pc), t in s.mailbox, DueOf(s.due, t), s.order)
    ensures ThreadOk(s.(th := s.th[t := s.th[t].(pc := pc)]), t)
  {
    hide PlaceOk, CallOk, IsLast;
  }

  lemma KeepLoad(s: State, t: Tid)
    requires Inv(s) && Enabled(s, t, Load)
    ensures Inv(Fire(s, t, Load))
  {
    assert ThreadOk(s, t);
    hide Inv, IsLast, Running, ThreadsOk;
    OwnStep(s, t, Loaded(Head(s.mailbox)));
  }

  lemma KeepSwapMiss(s: State, t: Tid)
    requires Inv(s) && Enabled(s, t, Swap) && Head(s.mailbox) != s.th[t].pc.head
    ensures Inv(Fire(s, t, Swap))
  {
    assert ThreadOk(s, t);
    hide Inv, IsLast, Running, ThreadsOk;
    OwnStep(s, t, Begin);
  }

  lemma KeepSeeFree(s: State, t: Tid)
    requires Inv(s) && Enabled(s, t, SeeFree)
    ensures Inv(Fire(s, t, SeeFree))
  {
    assert ThreadOk(s, t);
    hide Inv, IsLast, Running, ThreadsOk;
    OwnStep(s, t, Claiming);
  }

  lemma KeepCall(s: State, t: Tid, op: Op)
    requires Inv(s) && Enabled(s, t, Call(op))
    ensures Inv(Fire(s, t, Call(op)))
  {
    hide History, Distinct, IsLast, Took, Untaken, DistinctIds, CallOk, PlaceOk;
    var s' := Fire(s, t, Call(op));
    CallHistory(s, s', op);
    assert ThreadOk(s, t);
    forall u | u in s'.th ensures ThreadOk(s', u) { CallThread(s, s', t, op, u); }
    CallIds(s, t, op);
  }

  lemma CallThread(s: State, s': State, t: Tid, op: Op, u: Tid)
    requires t in s.th && u in s.th && ThreadOk(s, t) && ThreadOk(s, u) && s.th[t].pc == Idle
    requires s' == s.(th := s.th[t := Thread(Begin, |s.asked|, op, Wait)], asked := s.asked + [op],
                      earlier := s.earlier + [s.results.Keys])
    requires |s.asked| !in s.results && Untaken(s.order, |s.asked|)
    ensures ThreadOk(s', u)
  {
    hide IsLast, Took, Untaken;
  }

  /** Its number is new. */
  lemma CallIds(s: State, t: Tid, op: Op)
    requires ThreadsOk(s) && t in s.th
    ensures DistinctIds(s.th[t := Thread(Begin, |s.asked|, op, Wait)])
  {
    hide IsLast, CallOk, PlaceOk;
    forall u | u in s.th && !s.th[u].pc.Idle? ensures s.th[u].id < |s.asked| { assert ThreadOk(s, u); }
  }

  lemma PushedFront(ts: seq<Tid>, t: Tid, u: Tid)
    requires t !in ts
    ensures IsLast([t] + ts, u) <==> if ts == [] then u == t else IsLast(ts, u)
    ensures u in [t] + ts <==> u == t || u in ts
    ensures Distinct(ts) ==> Distinct([t] + ts)
  {
  }

  lemma KeepSwap(s: State, t: Tid)
    requires Inv(s) && Enabled(s, t, Swap) && Head(s.mailbox) == s.th[t].pc.head
    ensures Inv(Fire(s, t, Swap))
  {
    assert ThreadOk(s, t);
    SwapThreads(s, t);
    NotThere(s, t);
    PushedFront(s.mailbox, t, t);
    hide History, Distinct, ThreadsOk, ThreadOk;
    SameHistory(s, Fire(s, t, Swap));
  }

  lemma SwapThreads(s: State, t: Tid)
    requires ThreadsOk(s) && Enabled(s, t, Swap) && Head(s.mailbox) == s.th[t].pc.head
    ensures ThreadsOk(Fire(s, t, Swap))
  {
    hide IsLast, Took, Untaken, DistinctIds, ThreadOk;
    var s' := Fire(s, t, Swap);
    SameIds(s.th, s'.th);
    forall u | u in s'.th ensures ThreadOk(s', u) { SwapThread(s, s', t, u); }
  }

  lemma NotThere(s: State, t: Tid)
    requires t in s.th && ThreadOk(s, t) && Entered(s.th[t].pc)
    ensures t !in s.mailbox
  {
    hide Took, Untaken, Running, IsLast;
  }

  lemma SwapThread(s: State, s': State, t: Tid, u: Tid)
    requires t in s.th && u in s.th && ThreadOk(s, t) && ThreadOk(s, u) && s.th[t].pc == Loaded(Head(s.mailbox))
    requires s' == s.(th := s.th[t := s.th[t].(pc := if s.mailbox == [] then First else Waiting)],
                      mailbox := [t] + s.mailbox)
    ensures ThreadOk(s', u)
  {
    hide IsLast, Took;
    PushedFront(s.mailbox, t, u);
    if s.mailbox == [] { EmptyLast(u); }
  }

  lemma EmptyLast(u: Tid)
    ensures !IsLast([], u)
  {
  }

  lemma OnlyOpener(s: State, t: Tid)
    requires ThreadsOk(s) && t in s.th && Opener(s.th[t].pc)
    ensures t in s.mailbox && forall u :: u in s.th && u != t ==> !Opener(s.th[u].pc)
  {
    hide Took, Untaken, Running, DistinctIds;
    assert ThreadOk(s, t);
    forall u | u in s.th && u != t ensures !Opener(s.th[u].pc) { assert ThreadOk(s, u); }
  }

  lemma KeepSetBusy(s: State, t: Tid)
    requires Inv(s) && Enabled(s, t, SetBusy)
    ensures Inv(Fire(s, t, SetBusy))
  {
    assert ThreadOk(s, t);
    hide History, Distinct, IsLast, Took, Untaken, Running, DistinctIds, ThreadOk, CallOk;
    var s' := Fire(s, t, SetBusy);
    SameHistory(s, s');
    SameIds(s.th, s'.th);
    OnlyOpener(s, t);
    NotBusy(s, t);
    forall u | u in s'.th ensures ThreadOk(s', u) { SetBusyThread(s, s', t, u); }
  }

  lemma NotBusy(s: State, t: Tid)
    requires Shape(s) && t in s.th && ThreadOk(s, t) && s.th[t].pc == Claiming
    ensures !s.busy && s.who == None && s.due == map[]
  {
    hide Distinct, CallOk, Running, IsLast;
  }

  lemma SetBusyThread(s: State, s': State, t: Tid, u: Tid)
    requires t in s.th && u in s.th && ThreadOk(s, t) && ThreadOk(s, u) && s.th[t].pc == Claiming
    requires !s.busy && s.who == None && (u != t ==> !Opener(s.th[u].pc))
    requires s' == s.(th := s.th[t := s.th[t].(pc := Grabbing)], busy := true, who := Some(t))
    ensures ThreadOk(s', u)
  {
    hide IsLast, Took, Untaken;
  }

  lemma ResultGiven(s: State, x: Thread, st: Status)
    requires History(s) && Took(s.order, x, st)
    ensures st != Wait
  {
    var i :| 0 <= i < |s.order| && s.order[i] == Event(x.id, x.op, st);
    NeverWait(multiset{}, s.order, i);
  }

  lemma TookSame(order: seq<Event>, x: Thread, st: Status)
    ensures Took(order, x.(st := st), st) == Took(order, x, st)
  {
  }

  lemma KeepReport(s: State, t: Tid, u: Tid)
    requires Inv(s) && Enabled(s, t, Report(u))
    ensures Inv(Fire(s, t, Report(u)))
  {
    hide History, Distinct, DistinctIds, IsLast, Took, Untaken, Running, CallOk, ThreadOk;
    var s' := Fire(s, t, Report(u));
    SameHistory(s, s');
    SameIds(s.th, s'.th);
    forall v | v in s'.th ensures ThreadOk(s', v) { ReportThread(s, s', u, v); }
    ReportShape(s, s', t, u);
  }

  lemma ReportShape(s: State, s': State, t: Tid, u: Tid)
    requires Shape(s) && t in s.th && s.th[t].pc == Handling && ThreadOk(s, t) && u in s.due
    requires s' == s.(th := s.th[u := s.th[u].(st := s.due[u])], due := s.due - {u})
    ensures Shape(s')
  {
    hide Distinct, IsLast, CallOk, Running;
  }

  lemma ReportThread(s: State, s': State, u: Tid, v: Tid)
    requires History(s) && u in s.th && v in s.th && ThreadOk(s, u) && ThreadOk(s, v) && u in s.due
    requires s' == s.(th := s.th[u := s.th[u].(st := s.due[u])], due := s.due - {u})
    ensures ThreadOk(s', v)
  {
    hide History, IsLast, Untaken;
    if v == u {
      hide Took;
      ResultGiven(s, s.th[u], s.due[u]);
      TookSame(s.order, s.th[u], s.due[u]);
    }
  }

  lemma KeepRelease(s: State, t: Tid)
    requires Inv(s) && Enabled(s, t, Release)
    ensures Inv(Fire(s, t, Release))
  {
    var s' := Fire(s, t, Release);
    SameHistory(s, s');
    SameIds(s.th, s'.th);
    hide History, Distinct, IsLast, DistinctIds, Took, Untaken, Running;
    assert ThreadOk(s, t);
    forall u | u in s'.th ensures ThreadOk(s', u) { ReleaseThread(s, s', t, u); }
  }

  lemma ReleaseThread(s: State, s': State, t: Tid, u: Tid)
    requires t in s.th && u in s.th && ThreadOk(s, t) && ThreadOk(s, u) && s.th[t].pc == Handling && s.due == map[]
    requires s' == s.(th := s.th[t := s.th[t].(pc := Waiting)], busy := false, who := None)
    ensures ThreadOk(s', u)
  {
    hide IsLast, Untaken;
  }

  lemma ReturnHistory(s: State, s': State, x: Thread)
    requires History(s) && Took(s.order, x, x.st) && x.id !in s.results
    requires s'.results == s.results[x.id := Event(x.id, x.op, x.st)]
    requires s'.asked == s.asked && s'.earlier == s.earlier && s'.order == s.order && s'.contents == s.contents
    ensures History(s')
  {
    hide Explains, Replay, TakesEffect, Genuine, RealTime;
    forall b | 0 <= b < |s'.earlier| ensures s'.earlier[b] <= s'.results.Keys {
      assert s.earlier[b] <= s.results.Keys;
    }
  }

  lemma KeepReturn(s: State, t: Tid)
    requires Inv(s) && Enabled(s, t, Return)
    ensures Inv(Fire(s, t, Return))
  {
    assert ThreadOk(s, t);
    ReturnThreads(s, t);
    Returned(s, t);
    hide History, Distinct, ThreadsOk, ThreadOk, Took;
    ReturnHistory(s, Fire(s, t, Return), s.th[t]);
  }

  lemma ReturnThreads(s: State, t: Tid)
    requires ThreadsOk(s) && Enabled(s, t, Return)
    ensures ThreadsOk(Fire(s, t, Return))
  {
    hide IsLast, Took, Untaken, DistinctIds, ThreadOk;
    var s' := Fire(s, t, Return);
    SameIds(s.th, s'.th);
    forall u | u in s'.th ensures ThreadOk(s', u) { ReturnThread(s, s', t, u); }
  }

  lemma Returned(s: State, t: Tid)
    requires t in s.th && ThreadOk(s, t) && s.th[t].pc == Waiting && s.th[t].st != Wait
    ensures Took(s.order, s.th[t], s.th[t].st) && s.th[t].id !in s.results
  {
    hide Took, Untaken, IsLast, PlaceOk;
  }

  lemma ReturnThread(s: State, s': State, t: Tid, u: Tid)
    requires ThreadsOk(s) && t in s.th && u in s.th && s.th[t].pc == Waiting && s.th[t].st != Wait
    requires s' == s.(th := s.th[t := s.th[t].(pc := Idle)],
                      results := s.results[s.th[t].id := Event(s.th[t].id, s.th[t].op, s.th[t].st)])
    ensures ThreadOk(s', u)
  {
    hide IsLast, Took, Untaken;
    assert ThreadOk(s, t) && ThreadOk(s, u);
  }

  // ----- taking over the batch

  predicate IsCall(th: map<Tid, Thread>, ts: seq<Tid>, e: Event, k: nat)
    requires AllIn(th, ts)
  {
    k < |ts| && e.k == th[ts[k]].id && e.op == th[ts[k]].op
  }

  ghost predicate InBatch(th: map<Tid, Thread>, ts: seq<Tid>, e: Event)
    requires AllIn(th, ts)
  {
    exists k: nat :: IsCall(th, ts, e, k)
  }

  /** The batch as it enters the order. */
  ghost predicate Batch(th: map<Tid, Thread>, ts: seq<Tid>, sts: seq<Status>, more: seq<Event>)
    requires AllIn(th, ts)
  {
    && |sts| == |ts|
    && (forall i :: 0 <= i < |ts| ==> Took(more, th[ts[i]], sts[i]))
    && (forall i :: 0 <= i < |more| ==> InBatch(th, ts, more[i]))
    && forall i, j :: 0 <= i < j < |more| ==> more[i].k != more[j].k
  }

  predicate DifferentIds(th: map<Tid, Thread>, ts: seq<Tid>)
    requires AllIn(th, ts)
  {
    forall i, j :: 0 <= i < |ts| && 0 <= j < |ts| && i != j ==> th[ts[i]].id != th[ts[j]].id
  }

  lemma MailboxIds(s: State)
    requires Shape(s) && ThreadsOk(s)
    ensures DifferentIds(s.th, s.mailbox)
  {
    hide Took, Untaken, Running, IsLast;
    forall i, j | 0 <= i < |s.mailbox| && 0 <= j < |s.mailbox| && i != j
      ensures s.th[s.mailbox[i]].id != s.th[s.mailbox[j]].id
    {
      assert ThreadOk(s, s.mailbox[i]) && ThreadOk(s, s.mailbox[j]);
      assert i < j ==> s.mailbox[i] != s.mailbox[j];
      assert j < i ==> s.mailbox[j] != s.mailbox[i];
    }
  }

  lemma BatchIs(th: map<Tid, Thread>, ts: seq<Tid>, q: multiset<Item>, o: Outcome) returns (more: seq<Event>)
    requires AllIn(th, ts) && DifferentIds(th, ts) && Linearizes(q, OpsOf(th, ts), o.sts, o.hist, o.after)
    ensures (forall i :: 0 <= i < |o.hist| ==> o.hist[i].k < |ts|) && more == Labelled(th, ts, o.hist)
    ensures |o.sts| == |ts| && Batch(th, ts, o.sts, more) && Explains(q, more) && Replay(q, more) == o.after
  {
    var ops := OpsOf(th, ts);
    EachOnce(ops, o, q);
    more := Labelled(th, ts, o.hist);
    SameExplained(q, o.hist, more);
    hide Explains, Replay, Linearizes, OpsOf, TakesEffect, Batch, Labelled, DifferentIds;
    BatchFrom(th, ts, ops, o, more);
  }

  ghost predicate Relabelled(th: map<Tid, Thread>, ts: seq<Tid>, o: Outcome, more: seq<Event>)
    requires AllIn(th, ts) && |o.sts| == |ts|
  {
    && |more| == |o.hist|
    && forall j :: 0 <= j < |o.hist| ==>
         o.hist[j].k < |ts| && more[j] == Event(th[ts[o.hist[j].k]].id, th[ts[o.hist[j].k]].op, o.sts[o.hist[j].k])
  }

  lemma BatchFrom(th: map<Tid, Thread>, ts: seq<Tid>, ops: seq<Op>, o: Outcome, more: seq<Event>)
    requires AllIn(th, ts) && DifferentIds(th, ts) && |ops| == |ts| == |o.sts| && |more| == |o.hist|
    requires forall i :: 0 <= i < |ts| ==> ops[i] == th[ts[i]].op
    requires forall j :: 0 <= j < |o.hist| ==>
               && o.hist[j].k < |ops| && o.hist[j].op == ops[o.hist[j].k] && o.hist[j].st == o.sts[o.hist[j].k]
    requires forall j :: 0 <= j < |o.hist| ==> more[j] == Event(th[ts[o.hist[j].k]].id, o.hist[j].op, o.hist[j].st)
    requires forall i, j :: 0 <= i < j < |o.hist| ==> o.hist[i].k != o.hist[j].k
    requires forall k :: 0 <= k < |ops| ==> TakesEffect(o.hist, k)
    ensures Batch(th, ts, o.sts, more)
  {
    assert Relabelled(th, ts, o, more);
    hide TakesEffect, Took, InBatch, Relabelled, DifferentIds;
    forall i | 0 <= i < |ts| ensures Took(more, th[ts[i]], o.sts[i]) {
      assert TakesEffect(o.hist, i);
      TookIn(th, ts, o, more, i);
    }
    forall i | 0 <= i < |more| ensures InBatch(th, ts, more[i]) { InBatchOf(th, ts, o, more, i); }
    forall i, j | 0 <= i < j < |more| ensures more[i].k != more[j].k { IdsApart(th, ts, o, more, i, j); }
  }

  lemma TookIn(th: map<Tid, Thread>, ts: seq<Tid>, o: Outcome, more: seq<Event>, i: nat)
    requires AllIn(th, ts) && |o.sts| == |ts| && Relabelled(th, ts, o, more) && i < |ts| && TakesEffect(o.hist, i)
    ensures Took(more, th[ts[i]], o.sts[i])
  {
    var j :| 0 <= j < |o.hist| && o.hist[j].k == i;
    assert more[j] == Event(th[ts[i]].id, th[ts[i]].op, o.sts[i]);
  }

  lemma InBatchOf(th: map<Tid, Thread>, ts: seq<Tid>, o: Outcome, more: seq<Event>, i: nat)
    requires AllIn(th, ts) && |o.sts| == |ts| && Relabelled(th, ts, o, more) && i < |more|
    ensures InBatch(th, ts, more[i])
  {
    assert IsCall(th, ts, more[i], o.hist[i].k);
  }

  lemma IdsApart(th: map<Tid, Thread>, ts: seq<Tid>, o: Outcome, more: seq<Event>, i: nat, j: nat)
    requires AllIn(th, ts) && |o.sts| == |ts| && Relabelled(th, ts, o, more) && DifferentIds(th, ts) && i < j < |more|
    requires |o.hist| == |more| && o.hist[i].k != o.hist[j].k
    ensures more[i].k != more[j].k
  {
    assert more[i].k == th[ts[o.hist[i].k]].id && more[j].k == th[ts[o.hist[j].k]].id;
  }

  lemma GrabGenuine(s: State, sts: seq<Status>, more: seq<Event>)
    requires Shape(s) && ThreadsOk(s) && Genuine(s.order, s.asked) && Batch(s.th, s.mailbox, sts, more)
    ensures Genuine(s.order + more, s.asked)
  {
    hide Took, Distinct, IsLast, DistinctIds;
    forall i | 0 <= i < |more|
      ensures more[i].k < |s.asked| && more[i].op == s.asked[more[i].k]
      ensures forall j :: 0 <= j < |s.order| ==> s.order[j].k != more[i].k
    {
      var k: nat :| IsCall(s.th, s.mailbox, more[i], k);
      assert ThreadOk(s, s.mailbox[k]);
    }
  }

  lemma GrabRealTime(s: State, more: seq<Event>)
    requires History(s)
    ensures RealTime(s.order + more, s.earlier)
  {
    hide Explains, Replay, Genuine;
    var order := s.order + more;
    forall j, a | 0 <= j < |order| && order[j].k < |s.earlier| && a in s.earlier[order[j].k]
      ensures TakesEffect(order[..j], a)
    {
      if j < |s.order| {
        assert order[..j] == s.order[..j];
        assert s.order[j] == order[j];
      } else {
        assert a in s.results;
        var i :| 0 <= i < |s.order| && s.order[i] == s.results[a];
        assert order[..j][i] == s.order[i];
      }
    }
  }

  lemma GrabHistory(s: State, s': State, sts: seq<Status>, more: seq<Event>)
    requires Shape(s) && ThreadsOk(s) && History(s) && Batch(s.th, s.mailbox, sts, more)
    requires Explains(s.contents, more) && Replay(s.contents, more) == s'.contents
    requires s'.order == s.order + more && s'.asked == s.asked && s'.earlier == s.earlier && s'.results == s.results
    ensures History(s')
  {
    ExplainsAppend(multiset{}, s.order, more);
    GrabGenuine(s, sts, more);
    GrabRealTime(s, more);
    hide Explains, Replay, Genuine, RealTime, Batch, Shape, ThreadsOk;
  }

  lemma UntakenMore(order: seq<Event>, more: seq<Event>, th: map<Tid, Thread>, ts: seq<Tid>, sts: seq<Status>, u: Tid)
    requires AllIn(th, ts) && Batch(th, ts, sts, more) && u in th && u !in ts && Untaken(order, th[u].id)
    requires DistinctIds(th) && !th[u].pc.Idle? && forall i :: 0 <= i < |ts| ==> !th[ts[i]].pc.Idle?
    ensures Untaken(order + more, th[u].id)
  {
    hide Took;
    forall i | 0 <= i < |more| ensures more[i].k != th[u].id {
      var k: nat :| IsCall(th, ts, more[i], k);
    }
  }

  lemma TookMore(order: seq<Event>, more: seq<Event>, x: Thread, st: Status)
    requires Took(order, x, st) || Took(more, x, st)
    ensures Took(order + more, x, st)
  {
  }

  lemma TookMoved(order: seq<Event>, x: Thread, pc: Pc, st: Status)
    ensures Took(order, x.(pc := pc), st) == Took(order, x, st)
  {
  }

  lemma Occupied(s: State, sts: seq<Status>)
    requires Shape(s) && ThreadsOk(s)
    ensures forall i :: 0 <= i < |s.mailbox| ==> !s.th[s.mailbox[i]].pc.Idle?
  {
    hide Took, Untaken, Running, DistinctIds, IsLast, Distinct;
    forall i | 0 <= i < |s.mailbox| ensures !s.th[s.mailbox[i]].pc.Idle? { assert ThreadOk(s, s.mailbox[i]); }
  }

  /** The other threads, and the handler itself, after the batch has been taken over. */
  lemma GrabThread(s: State, s': State, t: Tid, sts: seq<Status>, more: seq<Event>, u: Tid)
    requires Shape(s) && ThreadsOk(s) && Batch(s.th, s.mailbox, sts, more)
    requires t in s.th && s.th[t].pc == Grabbing && u in s.th && |sts| == |s.mailbox|
    requires s'.th == s.th[t := s.th[t].(pc := Handling)] && s'.mailbox == [] && s'.due == Due(s.mailbox, sts)
    requires s'.order == s.order + more && s'.busy == s.busy && s'.who == s.who && s'.asked == s.asked
    requires s'.results == s.results
    ensures ThreadOk(s', u)
  {
    hide Distinct, Due, Took, Untaken, Batch, IsLast, DistinctIds;
    DueIs(s.mailbox, sts);
    OnlyOpener(s, t);
    assert ThreadOk(s, u) && ThreadOk(s, t);
    assert s.due == map[];
    EmptyLast(u);
    var x := s.th[u];
    if u in s.mailbox {
      GrabbedThread(s, s', t, sts, more, u);
    } else if Entered(x.pc) {
      Occupied(s, sts);
      UntakenMore(s.order, more, s.th, s.mailbox, sts, u);
    } else if !x.pc.Idle? {
      TookMore(s.order, more, x, x.st);
    }
  }

  /** Those whose calls are in the batch. */
  lemma GrabbedThread(s: State, s': State, t: Tid, sts: seq<Status>, more: seq<Event>, u: Tid)
    requires AllIn(s.th, s.mailbox) && Distinct(s.mailbox) && Batch(s.th, s.mailbox, sts, more) && u in s.mailbox
    requires s'.due == Due(s.mailbox, sts) && s'.order == s.order + more
    ensures u in s'.due && Took(s'.order, s.th[u], s'.due[u])
    ensures Took(s'.order, s.th[u].(pc := Handling), s'.due[u])
  {
    hide Due, Distinct, Took;
    DueIs(s.mailbox, sts);
    var i :| 0 <= i < |s.mailbox| && s.mailbox[i] == u;
    TookMore(s.order, more, s.th[u], sts[i]);
    TookMoved(s'.order, s.th[u], Handling, sts[i]);
  }

  lemma KeepGrab(s: State, t: Tid, o: Outcome)
    requires Inv(s) && Enabled(s, t, Grab(o))
    ensures Inv(Fire(s, t, Grab(o)))
  {
    hide Explains, Replay, Linearizes, Took, Untaken, Running, IsLast, History, Batch, ThreadOk, DistinctIds;
    MailboxIds(s);
    var more := BatchIs(s.th, s.mailbox, s.contents, o);
    var s' := Fire(s, t, Grab(o));
    GrabHistory(s, s', o.sts, more);
    forall u | u in s'.th ensures ThreadOk(s', u) { GrabThread(s, s', t, o.sts, more, u); }
    SameIds(s.th, s'.th);
    GrabShape(s, s', t, o.sts);
  }

  lemma GrabShape(s: State, s': State, t: Tid, sts: seq<Status>)
    requires Shape(s) && ThreadsOk(s) && t in s.th && s.th[t].pc == Grabbing && |sts| == |s.mailbox|
    requires s'.th == s.th[t := s.th[t].(pc := Handling)] && s'.mailbox == [] && s'.due == Due(s.mailbox, sts)
    requires s'.busy == s.busy && s'.who == s.who
    ensures Shape(s')
  {
    hide Due, Took, Untaken, Running, IsLast, DistinctIds;
    DueIs(s.mailbox, sts);
    assert ThreadOk(s, t);
  }

  lemma StepKeepsInv(s: State, t: Tid, a: Action)
    requires Inv(s) && Enabled(s, t, a)
    ensures Inv(Fire(s, t, a))
  {
    hide Inv, Fire;
    match a {
      case Call(op) => KeepCall(s, t, op);
      case Load => KeepLoad(s, t);
      case Swap => if Head(s.mailbox) == s.th[t].pc.head { KeepSwap(s, t); } else { KeepSwapMiss(s, t); }
      case SeeFree => KeepSeeFree(s, t);
      case SetBusy => KeepSetBusy(s, t);
      case Grab(o) => KeepGrab(s, t, o);
      case Report(u) => KeepReport(s, t, u);
      case Release => KeepRelease(s, t);
      case Return => KeepReturn(s, t);
    }
  }

  // ----- some thread can always move

  datatype Move = Move(t: Tid, a: Action)

  lemma Greatest(q: multiset<Item>) returns (x: Item)
    requires q != multiset{}
    ensures x in q && forall y :: y in q ==> !Less(x, y)
    decreases |q|
  {
    x :| x in q;
    var rest := q - multiset{x};
    assert forall y :: y in q ==> y == x || y in rest;
    if rest != multiset{} {
      var z := Greatest(rest);
      if Less(x, z) { x := z; }
    }
  }

  /** Every batch comes to something: executed from front to back, for instance. */
  lemma {:induction false} SomeOutcome(q: multiset<Item>, ops: seq<Op>) returns (o: Outcome)
    ensures Linearizes(q, ops, o.sts, o.hist, o.after)
    decreases |ops|
  {
    hide Explains, Replay, Ids, Indices;
    if ops == [] {
      o := Outcome([], [], q);
      ReplayEmpty(q);
      IdsEmpty();
      assert Indices(0) == [];
    } else {
      var m := |ops| - 1;
      var before := SomeOutcome(q, ops[..m]);
      var st := Failed;
      if ops[m].Push? {
        st := Pushed;
      } else if before.after != multiset{} {
        var x := Greatest(before.after);
        st := Popped(x);
      }
      o := Outcome(before.sts + [st], before.hist + [Event(m, ops[m], st)], After(before.after, ops[m], st));
      OneMore(q, ops, before, st, o);
    }
  }

  lemma OneMore(q: multiset<Item>, ops: seq<Op>, before: Outcome, st: Status, o: Outcome)
    requires ops != [] && Linearizes(q, ops[..|ops| - 1], before.sts, before.hist, before.after)
    requires Allowed(before.after, ops[|ops| - 1], st)
    requires o.sts == before.sts + [st] && o.hist == before.hist + [Event(|ops| - 1, ops[|ops| - 1], st)]
    requires o.after == After(before.after, ops[|ops| - 1], st)
    ensures Linearizes(q, ops, o.sts, o.hist, o.after)
  {
    hide Explains, Replay, Ids, Indices, Allowed, After;
    var m := |ops| - 1;
    var e := Event(m, ops[m], st);
    IdsSnoc(before.hist, e);
    IndicesOnce(m, 0);
    ReplaySnoc(q, before.hist, e);
  }

  /** The handler can take over its batch, report a result, or release the others. */
  lemma HandlerMoves(s: State, t: Tid) returns (a: Action)
    requires Inv(s) && t in s.th && Active(s.th[t].pc)
    ensures Enabled(s, t, a)
  {
    hide History, ThreadsOk, Distinct, Linearizes, OpsOf;
    if s.th[t].pc.Grabbing? {
      var o := SomeOutcome(s.contents, OpsOf(s.th, s.mailbox));
      a := Grab(o);
    } else if s.due == map[] {
      a := Release;
    } else {
      var u :| u in s.due;
      a := Report(u);
    }
  }

  /** While a call is under way some thread can take a step. */
  lemma NeverStuck(s: State, t: Tid) returns (m: Move)
    requires Inv(s) && t in s.th && !s.th[t].pc.Idle?
    ensures Enabled(s, m.t, m.a)
  {
    hide History, Distinct, Took, Untaken, Running, DistinctIds;
    assert ThreadOk(s, t);
    match s.th[t].pc
    case Begin => m := Move(t, Load);
    case Loaded(_) => m := Move(t, Swap);
    case Waiting =>
      if s.th[t].st != Wait {
        m := Move(t, Return);
      } else if s.due != map[] {
        m := ServingMoves(s);
      } else {
        m := OpenerMoves(s, s.mailbox[|s.mailbox| - 1]);
      }
    case Grabbing => var a := HandlerMoves(s, t); m := Move(t, a);
    case Handling => var a := HandlerMoves(s, t); m := Move(t, a);
    case _ => m := OpenerMoves(s, t);
  }

  lemma ServingMoves(s: State) returns (m: Move)
    requires Inv(s) && s.who.Some?
    ensures Enabled(s, m.t, m.a)
  {
    hide History, Distinct, CallOk, Running, DistinctIds;
    assert ThreadOk(s, s.who.value);
    var a := HandlerMoves(s, s.who.value);
    m := Move(s.who.value, a);
  }

  lemma OpenerMoves(s: State, t: Tid) returns (m: Move)
    requires Inv(s) && t in s.th && IsLast(s.mailbox, t)
    ensures Enabled(s, m.t, m.a)
  {
    hide History, Distinct, CallOk, Running, DistinctIds;
    assert ThreadOk(s, t);
    if s.busy {
      m := ServingMoves(s);
    } else if s.th[t].pc.First? {
      m := Move(t, SeeFree);
    } else {
      m := Move(t, SetBusy);
    }
  }

  // ----- runs

  ghost predicate Run(s: State, run: seq<Move>, s': State)
    decreases |run|
  {
    if run == [] then s == s'
    else Enabled(s, run[0].t, run[0].a) && Run(Fire(s, run[0].t, run[0].a), run[1..], s')
  }

  lemma {:induction false} RunKeepsInv(s: State, run: seq<Move>, s': State)
    requires Inv(s) && Run(s, run, s')
    ensures Inv(s')
    decreases |run|
  {
    hide Inv, Fire, Enabled;
    if run != [] {
      StepKeepsInv(s, run[0].t, run[0].a);
      RunKeepsInv(Fire(s, run[0].t, run[0].a), run[1..], s');
    }
  }

  /** The concurrent queue is linearizable. After any run by any number of threads there is
      one order of calls, each as it was asked for and none twice, in which a sequential
      priority queue that starts empty gives every result that was returned and holds what
      the queue holds now; and a call that had returned before another one began comes
      before it. At no time two threads execute a batch. */
  lemma Linearizable(s: State, run: seq<Move>, s': State)
    requires Initial(s) && Run(s, run, s')
    ensures Explains(multiset{}, s'.order) && Replay(multiset{}, s'.order) == s'.contents
    ensures Genuine(s'.order, s'.asked)
    ensures forall a :: a in s'.results ==> s'.results[a].k == a && s'.results[a] in s'.order
    ensures |s'.earlier| == |s'.asked| && RealTime(s'.order, s'.earlier)
    ensures forall t, u :: t in s'.th && u in s'.th && Active(s'.th[t].pc) && Active(s'.th[u].pc) ==> t == u
  {
    InitialInv(s);
    RunKeepsInv(s, run, s');
    hide Explains, Replay, Genuine, RealTime, Run, Shape;
    forall t | t in s'.th && Active(s'.th[t].pc) ensures s'.who == Some(t) { assert ThreadOk(s', t); }
  }
}

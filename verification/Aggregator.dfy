/** tbb::aggregator: any number of threads hand operations to whichever of them
    empties the mailbox. A thread owns one operation record and uses it again for
    its next call, so a record's address may come back to the mailbox; the mailbox
    and the handler's list are chains of `next` links through those records. */
module Aggregator {
  type Tid = nat

  datatype Link = Null | To(t: Tid)

  datatype Pc =
    | Idle                                // outside execute_impl
    | Begin                               // operation created, mailbox not read yet
    | Loaded(res: Link)                   // mailbox read and stored in my_next, about to swap
    | Waiting                             // swapped over a non-null head: spins on status
    | First                               // swapped over null: spins on handler_busy
    | Claiming                            // saw handler_busy == 0
    | Grabbing                            // stored handler_busy = 1
    | Handling(list: Link, current: Link) // walks the grabbed chain

  /** A thread with its operation record: link, status, and how many operations it
      has submitted and how many of them have been applied. */
  datatype Thread = Thread(pc: Pc, next: Link, done: bool, submitted: nat, applied: nat)

  /** `mail`, `pend` and `who` are auxiliary: the operations chained from the mailbox
      and from the handler's list, and the thread that set handler_busy. */
  datatype State = State(th: map<Tid, Thread>, mailbox: Link, busy: bool,
                         mail: seq<Tid>, pend: seq<Tid>, who: Link)

  datatype Action = Create | Load | Swap | SeeFree | SetBusy | Grab | Apply | Finish | Release | Wake

  predicate Enabled(s: State, t: Tid, a: Action) {
    t in s.th &&
    match a
    case Create => s.th[t].pc == Idle
    case Load => s.th[t].pc == Begin
    case Swap => s.th[t].pc.Loaded?
    case SeeFree => s.th[t].pc == First && !s.busy
    case SetBusy => s.th[t].pc == Claiming
    case Grab => s.th[t].pc == Grabbing
    case Apply => s.th[t].pc.Handling? && s.th[t].pc.current == Null && s.th[t].pc.list.To? && s.th[t].pc.list.t in s.th
    case Finish => s.th[t].pc.Handling? && s.th[t].pc.current.To? && s.th[t].pc.current.t in s.th
    case Release => s.th[t].pc == Handling(Null, Null)
    case Wake => s.th[t].pc == Waiting && s.th[t].done
  }

  function Fire(s: State, t: Tid, a: Action): State
    requires Enabled(s, t, a)
  {
    var me := s.th[t];
    match a
    case Create => s.(th := s.th[t := me.(pc := Begin, done := false)])
    case Load => s.(th := s.th[t := me.(pc := Loaded(s.mailbox), next := s.mailbox)])
    case Swap =>
      if s.mailbox == me.pc.res then
        s.(th := s.th[t := me.(pc := if me.pc.res == Null then First else Waiting, submitted := me.submitted + 1)],
           mailbox := To(t), mail := [t] + s.mail)
      else s.(th := s.th[t := me.(pc := Begin)])
    case SeeFree => s.(th := s.th[t := me.(pc := Claiming)])
    case SetBusy => s.(th := s.th[t := me.(pc := Grabbing)], busy := true, who := To(t))
    case Grab => s.(th := s.th[t := me.(pc := Handling(s.mailbox, Null))], mailbox := Null, pend := s.mail, mail := [])
    case Apply =>
      var r := me.pc.list.t;
      var th := s.th[r := s.th[r].(applied := s.th[r].applied + 1)];
      s.(th := th[t := th[t].(pc := Handling(s.th[r].next, To(r)))], pend := if s.pend == [] then [] else s.pend[1..])
    case Finish =>
      var r := me.pc.current.t;
      var th := s.th[r := s.th[r].(done := true)];
      s.(th := th[t := th[t].(pc := Handling(me.pc.list, Null))])
    case Release => s.(th := s.th[t := me.(pc := Idle)], busy := false, who := Null)
    case Wake => s.(th := s.th[t := me.(pc := Idle)])
  }

  predicate Initial(s: State) {
    && (forall t :: t in s.th ==> s.th[t].pc == Idle && s.th[t].submitted == s.th[t].applied == 0)
    && s.mailbox == Null && !s.busy && s.mail == [] && s.pend == [] && s.who == Null
  }

  // ----- the invariant

  /** Following the links from `head` visits exactly `ts`. */
  predicate Chain(th: map<Tid, Thread>, head: Link, ts: seq<Tid>)
    decreases |ts|
  {
    if ts == [] then head == Null
    else head == To(ts[0]) && ts[0] in th && Chain(th, th[ts[0]].next, ts[1..])
  }

  predicate Distinct(ts: seq<Tid>) {
    forall i, j :: 0 <= i < j < |ts| ==> ts[i] != ts[j]
  }

  predicate Opener(p: Pc) { p.First? || p.Claiming? || p.Grabbing? }
  predicate Active(p: Pc) { p.Grabbing? || p.Handling? }

  /** The operation the handler has applied but not reported yet. */
  function Current(s: State): Link {
    if s.who.To? && s.who.t in s.th && s.th[s.who.t].pc.Handling? then s.th[s.who.t].pc.current else Null
  }

  predicate IsLast(ts: seq<Tid>, t: Tid) { ts != [] && ts[|ts| - 1] == t }

  /** What a thread may look like, given whether its operation is in the mailbox, in
      the handler's list, or being reported. */
  predicate ThreadOk(x: Thread, inMail: bool, inPend: bool, reported: bool, last: bool, who: bool) {
    var served := x.applied == x.submitted;
    var pending := !x.done && x.submitted == x.applied + 1;
    && last == Opener(x.pc) && who == Active(x.pc)
    && match x.pc
       case Idle => served && !inMail && !inPend && !reported
       case Begin => served && !x.done && !inMail && !inPend && !reported
       case Loaded(res) => served && !x.done && x.next == res && !inMail && !inPend && !reported
       case Waiting =>
         || (inMail && !inPend && !reported && pending)
         || (!inMail && inPend && !reported && pending)
         || (!inMail && !inPend && reported && served && !x.done)
         || (!inMail && !inPend && !reported && served && x.done)
       case First => inMail && !inPend && !reported && pending
       case Claiming => inMail && !inPend && !reported && pending
       case Grabbing => inMail && !inPend && !reported && pending
       case Handling(_, _) =>
         || (!inMail && inPend && !reported && pending)
         || (!inMail && !inPend && reported && served && !x.done)
         || (!inMail && !inPend && !reported && served && x.done)
  }

  predicate ThreadIn(s: State, t: Tid)
    requires t in s.th
  {
    ThreadOk(s.th[t], t in s.mail, t in s.pend, Current(s) == To(t), IsLast(s.mail, t), s.who == To(t))
  }

  predicate Shape(s: State) {
    && Chain(s.th, s.mailbox, s.mail) && Distinct(s.mail) && (forall t :: t in s.mail ==> t in s.th)
    && Distinct(s.pend) && (forall t :: t in s.pend ==> t in s.th)
    && (s.who.To? ==> s.who.t in s.th) && (s.busy <==> s.who.To?)
    && (if s.who.To? && s.th[s.who.t].pc.Handling? then Chain(s.th, s.th[s.who.t].pc.list, s.pend) else s.pend == [])
    && (Current(s).To? ==> Current(s).t in s.th)
    && (forall t :: t in s.th && s.th[t].pc.Claiming? ==> !s.busy)
  }

  ghost predicate Inv(s: State) {
    Shape(s) && forall t :: t in s.th ==> ThreadIn(s, t)
  }

  lemma InitialInv(s: State)
    requires Initial(s)
    ensures Inv(s)
  {
  }

  lemma {:induction false} ChainFrame(th: map<Tid, Thread>, th': map<Tid, Thread>, head: Link, ts: seq<Tid>)
    requires Chain(th, head, ts)
    requires forall t :: t in ts && t in th ==> t in th' && th'[t].next == th[t].next
    ensures Chain(th', head, ts)
    decreases |ts|
  {
    if ts != [] { ChainFrame(th, th', th[ts[0]].next, ts[1..]); }
  }

  /** A step that touches only thread `t` keeps the other threads as they are. */
  lemma OthersKept(s: State, s': State, t: Tid)
    requires Inv(s) && t in s.th && t in s'.th && s'.th == s.th[t := s'.th[t]]
    requires forall u :: u in s.th && u != t ==>
               && (u in s.mail <==> u in s'.mail) && (u in s.pend <==> u in s'.pend)
               && (Current(s) == To(u) <==> Current(s') == To(u))
               && (IsLast(s.mail, u) <==> IsLast(s'.mail, u)) && (s.who == To(u) <==> s'.who == To(u))
    ensures forall u :: u in s'.th && u != t ==> ThreadIn(s', u)
  {
    hide ThreadOk, Shape;
    forall u | u in s'.th && u != t ensures ThreadIn(s', u) {
      assert ThreadIn(s, u);
    }
  }

  /** A step that changes no list and no link inside them keeps the chains. */
  lemma ChainsKept(s: State, th': map<Tid, Thread>)
    requires Inv(s) && s.th.Keys <= th'.Keys
    requires forall u :: u in s.mail || u in s.pend ==> u in s.th && th'[u].next == s.th[u].next
    ensures Chain(th', s.mailbox, s.mail)
    ensures s.who.To? && s.th[s.who.t].pc.Handling? ==> Chain(th', s.th[s.who.t].pc.list, s.pend)
  {
    ChainFrame(s.th, th', s.mailbox, s.mail);
    if s.who.To? && s.th[s.who.t].pc.Handling? { ChainFrame(s.th, th', s.th[s.who.t].pc.list, s.pend); }
  }

  /** Replacing a thread that is no handler by one that fits in the same place. */
  lemma KeepLocal(s: State, t: Tid, x: Thread)
    requires Inv(s) && t in s.th && !s.th[t].pc.Handling? && !x.pc.Handling?
    requires ThreadOk(x, t in s.mail, t in s.pend, Current(s) == To(t), IsLast(s.mail, t), s.who == To(t))
    requires x.next == s.th[t].next || (t !in s.mail && t !in s.pend)
    requires x.pc.Claiming? ==> !s.busy
    ensures Inv(s.(th := s.th[t := x]))
  {
    hide Chain, Distinct, ThreadOk, IsLast;
    var s' := s.(th := s.th[t := x]);
    assert Current(s') == Current(s);
    OthersKept(s, s', t);
    ChainsKept(s, s'.th);
  }

  /** Steps of thread `t` that leave the mailbox, the lists and the roles alone. */
  lemma KeepPrivate(s: State, t: Tid, a: Action)
    requires Inv(s) && Enabled(s, t, a) && (a.Create? || a.Load? || a.SeeFree? || a.Wake?)
    ensures Inv(Fire(s, t, a))
  {
    hide Chain, Distinct, IsLast;
    assert ThreadIn(s, t);
    KeepLocal(s, t, Fire(s, t, a).th[t]);
  }

  lemma KeepSwapMiss(s: State, t: Tid)
    requires Inv(s) && Enabled(s, t, Swap) && s.mailbox != s.th[t].pc.res
    ensures Inv(Fire(s, t, Swap))
  {
    hide Chain, Distinct, IsLast;
    assert ThreadIn(s, t);
    KeepLocal(s, t, Fire(s, t, Swap).th[t]);
  }

  lemma Prepended(ts: seq<Tid>, t: Tid)
    ensures ([t] + ts)[1..] == ts
    ensures forall u :: u in [t] + ts <==> u == t || u in ts
    ensures forall u :: IsLast([t] + ts, u) <==> if ts == [] then u == t else IsLast(ts, u)
    ensures Distinct(ts) && t !in ts ==> Distinct([t] + ts)
  {
  }

  /** The swap succeeds even if the mailbox was emptied and refilled meanwhile: the
      stored link is the current head either way. */
  lemma KeepSwapHit(s: State, t: Tid)
    requires Inv(s) && Enabled(s, t, Swap) && s.mailbox == s.th[t].pc.res
    ensures Inv(Fire(s, t, Swap))
  {
    hide Shape, ThreadIn;
    SwapShape(s, t);
    SwapThreads(s, t);
  }

  lemma SwapShape(s: State, t: Tid)
    requires Inv(s) && Enabled(s, t, Swap) && s.mailbox == s.th[t].pc.res
    ensures Shape(Fire(s, t, Swap))
  {
    hide IsLast, Distinct;
    var s' := Fire(s, t, Swap);
    assert ThreadIn(s, t);
    hide ThreadOk;
    Prepended(s.mail, t);
    ChainsKept(s, s'.th);
    assert Chain(s'.th, s'.mailbox, s'.mail);
  }

  lemma SwapThreads(s: State, t: Tid)
    requires Inv(s) && Enabled(s, t, Swap) && s.mailbox == s.th[t].pc.res
    ensures forall u :: u in s.th ==> ThreadIn(Fire(s, t, Swap), u)
  {
    hide Chain, Distinct, IsLast;
    var s' := Fire(s, t, Swap);
    SwapThread(s, s', t);
    assert ThreadIn(s, t);
    EmptyChain(s.th, s.mailbox, s.mail);
    Prepended(s.mail, t);
    hide ThreadOk;
    OthersKept(s, s', t);
  }

  lemma SwapThread(s: State, s': State, t: Tid)
    requires Inv(s) && Enabled(s, t, Swap) && s.mailbox == s.th[t].pc.res && s' == Fire(s, t, Swap)
    ensures ThreadIn(s', t)
  {
    hide Chain, Distinct;
    assert ThreadIn(s, t);
    Prepended(s.mail, t);
    assert s.mailbox == Null <==> s.mail == [] by { EmptyChain(s.th, s.mailbox, s.mail); }
    if s.mail != [] { assert !IsLast(s.mail, t); }
  }

  lemma EmptyChain(th: map<Tid, Thread>, head: Link, ts: seq<Tid>)
    requires Chain(th, head, ts)
    ensures head == Null <==> ts == []
    ensures ts != [] ==> head == To(ts[0]) && ts[0] in th && Chain(th, th[ts[0]].next, ts[1..])
  {
  }

  lemma KeepSetBusy(s: State, t: Tid)
    requires Inv(s) && Enabled(s, t, SetBusy)
    ensures Inv(Fire(s, t, SetBusy))
  {
    var s' := Fire(s, t, SetBusy);
    assert ThreadIn(s, t);
    OnlyOpener(s, t);
    OthersKept(s, s', t);
    hide Chain, Distinct;
    ChainsKept(s, s'.th);
  }

  /** At most one thread is between its swap over null and its grab. */
  lemma OnlyOpener(s: State, t: Tid)
    requires Inv(s) && t in s.th && Opener(s.th[t].pc)
    ensures forall u :: u in s.th && Opener(s.th[u].pc) ==> u == t
  {
    assert ThreadIn(s, t);
    forall u | u in s.th && Opener(s.th[u].pc) ensures u == t { assert ThreadIn(s, u); }
  }

  lemma KeepGrab(s: State, t: Tid)
    requires Inv(s) && Enabled(s, t, Grab)
    ensures Inv(Fire(s, t, Grab))
  {
    var s' := Fire(s, t, Grab);
    assert ThreadIn(s, t);
    OnlyOpener(s, t);
    hide Distinct;
    ChainsKept(s, s'.th);
    hide Chain;
    forall u | u in s'.th && u != t ensures ThreadIn(s', u) {
      assert ThreadIn(s, u);
    }
  }

  lemma KeepApply(s: State, t: Tid)
    requires Inv(s) && Enabled(s, t, Apply)
    ensures Inv(Fire(s, t, Apply))
  {
    hide Chain, Distinct, IsLast;
    var s' := Fire(s, t, Apply);
    var r := s.th[t].pc.list.t;
    assert ThreadIn(s, t) && ThreadIn(s, r);
    assert s.who == To(t);
    EmptyChain(s.th, s.th[t].pc.list, s.pend);
    assert s.pend[0] == r;
    HeadGone(s.pend);
    ChainsKept(s, s'.th);
    ChainTail(s, s'.th, t);
    ApplyThreads(s, s', t, r);
  }

  lemma ApplyThreads(s: State, s': State, t: Tid, r: Tid)
    requires Inv(s) && Enabled(s, t, Apply) && s' == Fire(s, t, Apply)
    requires s.who == To(t) && s.th[t].pc.list == To(r) && s.pend != [] && s.pend[0] == r
    ensures forall u :: u in s'.th ==> ThreadIn(s', u)
  {
    hide Chain, IsLast;
    HeadGone(s.pend);
    hide Distinct;
    assert ThreadIn(s, r) && ThreadIn(s, t);
    forall u | u in s'.th ensures ThreadIn(s', u) {
      assert ThreadIn(s, u);
    }
  }

  lemma HeadGone(ts: seq<Tid>)
    requires ts != [] && Distinct(ts)
    ensures Distinct(ts[1..])
    ensures forall u :: u in ts[1..] <==> u in ts && u != ts[0]
  {
    forall u | u in ts && u != ts[0] ensures u in ts[1..] {
      var i :| 0 <= i < |ts| && ts[i] == u;
      assert ts[1..][i - 1] == u;
    }
  }

  lemma ChainTail(s: State, th': map<Tid, Thread>, t: Tid)
    requires Inv(s) && t in s.th && s.who == To(t) && s.th[t].pc.Handling? && s.pend != []
    requires s.th.Keys <= th'.Keys && forall u :: u in s.th ==> th'[u].next == s.th[u].next
    ensures s.pend[0] in s.th && Chain(th', s.th[s.pend[0]].next, s.pend[1..])
  {
    ChainFrame(s.th, th', s.th[s.pend[0]].next, s.pend[1..]);
  }

  lemma KeepFinish(s: State, t: Tid)
    requires Inv(s) && Enabled(s, t, Finish)
    ensures Inv(Fire(s, t, Finish))
  {
    hide Chain, Distinct, IsLast;
    var s' := Fire(s, t, Finish);
    var r := s.th[t].pc.current.t;
    assert ThreadIn(s, t) && ThreadIn(s, r);
    assert s.who == To(t);
    ChainsKept(s, s'.th);
    forall u | u in s'.th ensures ThreadIn(s', u) {
      assert ThreadIn(s, u);
    }
  }

  lemma KeepRelease(s: State, t: Tid)
    requires Inv(s) && Enabled(s, t, Release)
    ensures Inv(Fire(s, t, Release))
  {
    var s' := Fire(s, t, Release);
    assert ThreadIn(s, t);
    assert s.who == To(t);
    EmptyChain(s.th, s.th[t].pc.list, s.pend);
    hide Chain, Distinct, IsLast;
    ChainsKept(s, s'.th);
    forall u | u in s'.th ensures ThreadIn(s', u) {
      assert ThreadIn(s, u);
    }
  }

  lemma StepKeepsInv(s: State, t: Tid, a: Action)
    requires Inv(s) && Enabled(s, t, a)
    ensures Inv(Fire(s, t, a))
  {
    hide Inv, Fire;
    match a {
      case Swap => if s.mailbox == s.th[t].pc.res { KeepSwapHit(s, t); } else { KeepSwapMiss(s, t); }
      case SetBusy => KeepSetBusy(s, t);
      case Grab => KeepGrab(s, t);
      case Apply => KeepApply(s, t);
      case Finish => KeepFinish(s, t);
      case Release => KeepRelease(s, t);
      case _ => KeepPrivate(s, t, a);
    }
  }

  // ----- runs

  datatype Event = Event(t: Tid, a: Action)

  /** The interleaving `run` takes `s` to `s'`. */
  ghost predicate Run(s: State, run: seq<Event>, s': State)
    decreases |run|
  {
    if run == [] then s == s'
    else Enabled(s, run[0].t, run[0].a) && Run(Fire(s, run[0].t, run[0].a), run[1..], s')
  }

  lemma {:induction false} RunKeepsInv(s: State, run: seq<Event>, s': State)
    requires Inv(s) && Run(s, run, s')
    ensures Inv(s')
    decreases |run|
  {
    hide Inv, Fire;
    if run != [] {
      StepKeepsInv(s, run[0].t, run[0].a);
      RunKeepsInv(Fire(s, run[0].t, run[0].a), run[1..], s');
    }
  }

  /** In every reachable state at most one thread is an opener, at most one is a
      handler, and each operation has been applied at most once: exactly once for
      every thread outside execute_impl. */
  lemma ReachableSafe(s: State, run: seq<Event>, s': State)
    requires Initial(s) && Run(s, run, s')
    ensures forall t, u :: t in s'.th && u in s'.th && Opener(s'.th[t].pc) && Opener(s'.th[u].pc) ==> t == u
    ensures forall t, u :: t in s'.th && u in s'.th && Active(s'.th[t].pc) && Active(s'.th[u].pc) ==> t == u
    ensures forall t :: t in s'.th ==> s'.th[t].applied <= s'.th[t].submitted <= s'.th[t].applied + 1
    ensures forall t :: t in s'.th && s'.th[t].pc.Idle? ==> s'.th[t].applied == s'.th[t].submitted
  {
    InitialInv(s);
    RunKeepsInv(s, run, s');
    hide Shape, Run;
    forall t | t in s'.th && Opener(s'.th[t].pc) ensures IsLast(s'.mail, t) { assert ThreadIn(s', t); }
    forall t | t in s'.th && Active(s'.th[t].pc) ensures s'.who == To(t) { assert ThreadIn(s', t); }
    forall t | t in s'.th ensures s'.th[t].applied <= s'.th[t].submitted <= s'.th[t].applied + 1
                                  && (s'.th[t].pc.Idle? ==> s'.th[t].applied == s'.th[t].submitted) {
      assert ThreadIn(s', t);
    }
  }

  /** execute_impl returns only after its operation was applied and reported. */
  lemma ReturnsAfterApplied(s: State, run: seq<Event>, s': State, t: Tid, a: Action)
    requires Initial(s) && Run(s, run, s')
    requires Enabled(s', t, a) && (a.Wake? || a.Release?)
    ensures s'.th[t].submitted == s'.th[t].applied && s'.th[t].done
  {
    InitialInv(s);
    RunKeepsInv(s, run, s');
    assert ThreadIn(s', t);
    if a.Release? {
      EmptyChain(s'.th, s'.th[t].pc.list, s'.pend);
    }
  }

  /** The operations the handler still has to apply all belong to threads that are
      waiting for it: a batch consists of overlapping calls. */
  lemma BatchOverlaps(s: State, run: seq<Event>, s': State, t: Tid)
    requires Initial(s) && Run(s, run, s') && t in s'.pend
    ensures t in s'.th && (s'.th[t].pc.Waiting? || s'.th[t].pc.Handling?) && s'.th[t].submitted == s'.th[t].applied + 1
  {
    InitialInv(s);
    RunKeepsInv(s, run, s');
    assert ThreadIn(s', t);
  }

  /** An operation in the mailbox stays there until somebody grabs the mailbox. */
  lemma {:induction false} MailStays(s: State, run: seq<Event>, s': State, t: Tid)
    requires Run(s, run, s') && t in s.mail
    requires forall i :: 0 <= i < |run| ==> !run[i].a.Grab?
    ensures t in s'.mail
    decreases |run|
  {
    if run != [] {
      MailStays(Fire(s, run[0].t, run[0].a), run[1..], s', t);
    }
  }

  /** How often the mailbox has been grabbed: the number of the batch whose operations
      are being applied. */
  function Grabs(run: seq<Event>): nat
    decreases |run|
  {
    if run == [] then 0 else (if run[0].a.Grab? then 1 else 0) + Grabs(run[1..])
  }

  lemma {:induction false} GrabsAppend(a: seq<Event>, b: seq<Event>)
    ensures Grabs(a + b) == Grabs(a) + Grabs(b)
    decreases |a|
  {
    if a == [] {
      assert a + b == b;
    } else {
      assert (a + b)[1..] == a[1..] + b;
      GrabsAppend(a[1..], b);
    }
  }

  lemma {:induction false} SomeGrab(run: seq<Event>, i: nat)
    requires i < |run| && run[i].a.Grab?
    ensures Grabs(run) > 0
    decreases i
  {
    if i > 0 { SomeGrab(run[1..], i - 1); }
  }

  /** An operation in the mailbox when others have been applied comes in a later batch than
      each of these: the order of the batches respects the order of the calls. */
  lemma LaterBatch(s0: State, before: seq<Event>, s: State, run: seq<Event>, s': State, t: Tid)
    requires Initial(s0) && Run(s0, before, s) && t in s.mail
    requires Run(s, run, s') && t in s'.pend
    ensures forall i :: 0 <= i < |before| && before[i].a.Apply? ==> Grabs(before[..i]) < Grabs(before + run)
  {
    InitialInv(s0);
    RunKeepsInv(s0, before, s);
    RunKeepsInv(s, run, s');
    hide Run, Grabs, Inv, Fire, Enabled;
    if forall i :: 0 <= i < |run| ==> !run[i].a.Grab? {
      MailStays(s, run, s', t);
      NotInBoth(s', t);
    } else {
      var j :| 0 <= j < |run| && run[j].a.Grab?;
      SomeGrab(run, j);
      GrabsBefore(before, run);
    }
  }

  lemma GrabsBefore(before: seq<Event>, run: seq<Event>)
    ensures forall i :: 0 <= i < |before| ==> Grabs(before[..i]) + Grabs(run) <= Grabs(before + run)
  {
    hide Grabs;
    GrabsAppend(before, run);
    forall i | 0 <= i < |before| ensures Grabs(before[..i]) <= Grabs(before) {
      GrabsAppend(before[..i], before[i..]);
      assert before[..i] + before[i..] == before;
    }
  }

  lemma NotInBoth(s: State, t: Tid)
    requires Inv(s) && t in s.mail
    ensures t !in s.pend
  {
    if t in s.th { assert ThreadIn(s, t); }
  }

  /** Nobody is stuck: while some thread is inside execute_impl, a thread other than
      through a new call can move. */
  lemma NeverStuck(s: State, run: seq<Event>, s': State, t: Tid) returns (u: Tid, a: Action)
    requires Initial(s) && Run(s, run, s')
    requires t in s'.th && s'.th[t].pc != Idle
    ensures Enabled(s', u, a) && a != Create
  {
    InitialInv(s);
    RunKeepsInv(s, run, s');
    u, a := Movable(s', t);
  }

  lemma Movable(s: State, t: Tid) returns (u: Tid, a: Action)
    requires Inv(s) && t in s.th && s.th[t].pc != Idle
    ensures Enabled(s, u, a) && a != Create
  {
    assert ThreadIn(s, t);
    if s.who.To? {
      u := s.who.t;
      assert ThreadIn(s, u);
      if s.th[u].pc.Grabbing? { a := Grab; }
      else if s.th[u].pc.current.To? { a := Finish; }
      else if s.th[u].pc.list.To? { a := Apply; EmptyChain(s.th, s.th[u].pc.list, s.pend); }
      else { a := Release; }
    } else if s.mail != [] {
      u := s.mail[|s.mail| - 1];
      assert ThreadIn(s, u);
      a := if s.th[u].pc.First? then SeeFree else SetBusy;
    } else {
      u := t;
      a := if s.th[t].pc.Begin? then Load else if s.th[t].pc.Loaded? then Swap else Wake;
    }
  }
}

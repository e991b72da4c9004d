/** From every state of the concurrent queue all calls under way can be completed, without
    another call being made. */
module ConcurrentReturn {
  import opened PriorityQueue
  import opened ConcurrentQueue

  predicate NoCalls(run: seq<Move>) { forall i :: 0 <= i < |run| ==> !run[i].a.Call? }

  ghost predicate Leads(s: State, t: State) { exists run :: NoCalls(run) && Run(s, run, t) }

  lemma {:induction false} RunAppend(s: State, a: seq<Move>, m: State, b: seq<Move>, t: State)
    requires Run(s, a, m) && Run(m, b, t)
    ensures Run(s, a + b, t)
    decreases |a|
  {
    hide Fire, Enabled;
    if a == [] {
      assert a + b == b;
    } else {
      assert (a + b)[1..] == a[1..] + b;
      RunAppend(Fire(s, a[0].t, a[0].a), a[1..], m, b, t);
    }
  }

  lemma LeadsOn(s: State, m: State, t: State)
    requires Leads(s, m) && Leads(m, t)
    ensures Leads(s, t)
  {
    hide Run;
    var a :| NoCalls(a) && Run(s, a, m);
    var b :| NoCalls(b) && Run(m, b, t);
    RunAppend(s, a, m, b, t);
    assert NoCalls(a + b);
  }

  lemma Stays(s: State)
    ensures Leads(s, s)
  {
    assert NoCalls([]) && Run(s, [], s);
  }

  lemma OneStep(s: State, t: Tid, a: Action) returns (s': State)
    requires Inv(s) && Enabled(s, t, a) && !a.Call?
    ensures s' == Fire(s, t, a) && Leads(s, s') && Inv(s')
  {
    hide Inv, Fire, Enabled;
    s' := Fire(s, t, a);
    StepKeepsInv(s, t, a);
    var run := [Move(t, a)];
    assert run[1..] == [];
    assert Run(s', [], s') && Run(s, run, s');
    assert NoCalls(run);
  }

  function Entering(s: State): set<Tid> { set t | t in s.th && Entered(s.th[t].pc) }

  function Inside(s: State): set<Tid> { set t | t in s.th && !s.th[t].pc.Idle? }

  // ----- first all get into the mailbox

  lemma Enters(s: State, t: Tid) returns (s': State)
    requires Inv(s) && t in s.th && s.th[t].pc == Begin
    ensures Inv(s') && Leads(s, s') && Entering(s') == Entering(s) - {t}
  {
    hide Inv, Leads;
    var s1 := OneStep(s, t, Load);
    assert s1.th[t].pc == Loaded(Head(s.mailbox)) && s1.mailbox == s.mailbox;
    s' := OneStep(s1, t, Swap);
    LeadsOn(s, s1, s');
  }

  lemma {:induction false} AllEnter(s: State) returns (s': State)
    requires Inv(s)
    ensures Inv(s') && Leads(s, s') && Entering(s') == {}
    decreases |Entering(s)|
  {
    hide Inv, Leads, Fire, Enabled, Entered;
    if Entering(s) == {} {
      s' := s;
      Stays(s);
    } else {
      var t :| t in Entering(s);
      var m := EntersAnyway(s, t);
      Fewer(Entering(s), t);
      s' := AllEnter(m);
      LeadsOn(s, m, s');
    }
  }

  lemma Fewer(a: set<Tid>, t: Tid)
    requires t in a
    ensures |a - {t}| < |a|
  {
    assert a == (a - {t}) + {t};
  }

  lemma EntersAnyway(s: State, t: Tid) returns (s': State)
    requires Inv(s) && t in Entering(s)
    ensures Inv(s') && Leads(s, s') && Entering(s') == Entering(s) - {t}
  {
    hide Inv, Leads;
    if s.th[t].pc == Begin {
      s' := Enters(s, t);
    } else if Head(s.mailbox) == s.th[t].pc.head {
      s' := OneStep(s, t, Swap);
    } else {
      var m := OneStep(s, t, Swap);
      assert Entering(m) == Entering(s);
      s' := Enters(m, t);
      LeadsOn(s, m, s');
    }
  }

  // ----- then the batches are executed

  lemma {:induction false} AllReported(s: State, t: Tid) returns (s': State)
    requires Inv(s) && t in s.th && s.th[t].pc == Handling
    ensures Inv(s') && Leads(s, s') && s'.due == map[] && s'.mailbox == s.mailbox && s'.who == s.who
    ensures t in s'.th && s'.th[t].pc == Handling && Entering(s') == Entering(s)
    decreases |s.due.Keys|
  {
    hide Leads, History, ThreadsOk, Distinct;
    if s.due == map[] {
      s' := s;
      Stays(s);
    } else {
      var u :| u in s.due;
      assert u in s.th;
      hide Shape;
      var m := OneStep(s, t, Report(u));
      Fewer(s.due.Keys, u);
      assert m.due.Keys == s.due.Keys - {u};
      hide Inv;
      s' := AllReported(m, t);
      LeadsOn(s, m, s');
    }
  }

  lemma Handled(s: State, t: Tid) returns (s': State)
    requires Inv(s) && t in s.th && s.th[t].pc == Handling
    ensures Inv(s') && Leads(s, s') && s'.who == None && s'.mailbox == s.mailbox && Entering(s') == Entering(s)
  {
    hide Inv, Leads;
    var m := AllReported(s, t);
    s' := OneStep(m, t, Release);
    LeadsOn(s, m, s');
  }

  lemma CanGrab(s: State, t: Tid) returns (o: Outcome)
    requires Inv(s) && t in s.th && s.th[t].pc == Grabbing
    ensures Enabled(s, t, Grab(o))
  {
    hide History, ThreadsOk, Distinct, Linearizes, OpsOf;
    o := SomeOutcome(s.contents, OpsOf(s.th, s.mailbox));
  }

  lemma GrabIs(s: State, t: Tid, o: Outcome)
    requires Enabled(s, t, Grab(o))
    ensures var s' := Fire(s, t, Grab(o));
            s'.th == s.th[t := s.th[t].(pc := Handling)] && s'.mailbox == [] && Entering(s') == Entering(s)
  {
    hide Linearizes, OpsOf, Labelled, Due;
  }

  lemma Grabbed(s: State, t: Tid) returns (s': State)
    requires Inv(s) && t in s.th && s.th[t].pc == Grabbing
    ensures Inv(s') && Leads(s, s') && s'.who == None && s'.mailbox == [] && Entering(s') == Entering(s)
  {
    hide Inv, Leads, Fire, Enabled, Entering;
    var o := CanGrab(s, t);
    GrabIs(s, t, o);
    var m := OneStep(s, t, Grab(o));
    s' := Handled(m, t);
    LeadsOn(s, m, s');
  }

  /** Whoever handles comes to the end of its batch. */
  lemma Released(s: State) returns (s': State)
    requires Inv(s)
    ensures Inv(s') && Leads(s, s') && s'.who == None && Entering(s') == Entering(s)
  {
    hide Leads, History, Distinct, CallOk, Running, DistinctIds;
    if s.who == None {
      s' := s;
      Stays(s);
    } else {
      var t := s.who.value;
      assert ThreadOk(s, t);
      hide Inv;
      if s.th[t].pc == Grabbing { s' := Grabbed(s, t); } else { s' := Handled(s, t); }
    }
  }

  lemma Claimed(s: State, t: Tid) returns (s': State)
    requires Inv(s) && t in s.th && s.th[t].pc == Claiming
    ensures Inv(s') && Leads(s, s') && s'.who == None && s'.mailbox == [] && Entering(s') == Entering(s)
  {
    hide Inv, Leads;
    var m := OneStep(s, t, SetBusy);
    s' := Grabbed(m, t);
    LeadsOn(s, m, s');
  }

  lemma Opened(s: State, t: Tid) returns (s': State)
    requires Inv(s) && t in s.th && s.th[t].pc == First && !s.busy
    ensures Inv(s') && Leads(s, s') && s'.who == None && s'.mailbox == [] && Entering(s') == Entering(s)
  {
    hide Inv, Leads;
    var m := OneStep(s, t, SeeFree);
    s' := Claimed(m, t);
    LeadsOn(s, m, s');
  }

  /** The mailbox is emptied and nobody handles. */
  lemma Emptied(s: State) returns (s': State)
    requires Inv(s)
    ensures Inv(s') && Leads(s, s') && s'.who == None && s'.mailbox == [] && Entering(s') == Entering(s)
  {
    var m := Released(s);
    hide Leads, History, Distinct, CallOk, Running, DistinctIds;
    if m.mailbox == [] {
      s' := m;
    } else {
      var t := m.mailbox[|m.mailbox| - 1];
      assert t in m.th && IsLast(m.mailbox, t);
      assert ThreadOk(m, t);
      hide Inv;
      if m.th[t].pc == First { s' := Opened(m, t); } else { s' := Claimed(m, t); }
      LeadsOn(s, m, s');
    }
  }

  // ----- and all return

  /** With nobody on the way in, in the mailbox or handling, whoever is inside has its result. */
  lemma HasResult(s: State, t: Tid)
    requires Inv(s) && s.who == None && s.mailbox == [] && Entering(s) == {} && t in Inside(s)
    ensures Enabled(s, t, Return)
  {
    hide History, Distinct, Running, DistinctIds, Took, Untaken;
    assert ThreadOk(s, t);
    assert t !in Entering(s);
  }

  lemma {:induction false} AllReturn(s: State) returns (s': State)
    requires Inv(s) && s.who == None && s.mailbox == [] && Entering(s) == {}
    ensures Inv(s') && Leads(s, s') && Inside(s') == {}
    decreases |Inside(s)|
  {
    hide Inv, Leads;
    if Inside(s) == {} {
      s' := s;
      Stays(s);
    } else {
      var t :| t in Inside(s);
      HasResult(s, t);
      var m := OneStep(s, t, Return);
      Fewer(Inside(s), t);
      assert Inside(m) == Inside(s) - {t} && Entering(m) == Entering(s);
      s' := AllReturn(m);
      LeadsOn(s, m, s');
    }
  }

  /** All calls under way can be completed without another call being made, by whatever
      threads made them and wherever they are. */
  lemma CanComplete(s: State) returns (s': State)
    requires Inv(s)
    ensures Leads(s, s') && forall t :: t in s'.th ==> s'.th[t].pc == Idle
  {
    hide Inv, Leads;
    var a := AllEnter(s);
    var b := Emptied(a);
    s' := AllReturn(b);
    LeadsOn(s, a, b);
    LeadsOn(s, b, s');
    forall t | t in s'.th ensures s'.th[t].pc == Idle { assert t !in Inside(s'); }
  }

  // ----- what a run was asked

  /** The operations of the calls of a run, in order. */
  function CallsIn(run: seq<Move>): seq<Op> {
    if run == [] then [] else (if run[0].a.Call? then [run[0].a.op] else []) + CallsIn(run[1..])
  }

  /** How many calls return in it. */
  function ReturnsIn(run: seq<Move>): nat {
    if run == [] then 0 else (if run[0].a.Return? then 1 else 0) + ReturnsIn(run[1..])
  }

  lemma StepAsked(s: State, t: Tid, a: Action)
    requires Inv(s) && Enabled(s, t, a)
    ensures Fire(s, t, a).asked == s.asked + (if a.Call? then [a.op] else [])
    ensures |Fire(s, t, a).results| == |s.results| + (if a.Return? then 1 else 0)
  {
    if a.Return? { StepReturns(s, t); }
    hide Inv;
    if a.Grab? { GrabAsks(s, t, a.o); } else { OtherAsks(s, t, a); }
    hide Fire, Enabled;
  }

  lemma GrabAsks(s: State, t: Tid, o: Outcome)
    requires Enabled(s, t, Grab(o))
    ensures Fire(s, t, Grab(o)).asked == s.asked && Fire(s, t, Grab(o)).results == s.results
  {
    hide Linearizes, OpsOf, Labelled, Due;
  }

  lemma OtherAsks(s: State, t: Tid, a: Action)
    requires Enabled(s, t, a) && !a.Grab?
    ensures Fire(s, t, a).asked == s.asked + (if a.Call? then [a.op] else [])
    ensures !a.Return? ==> Fire(s, t, a).results == s.results
  {
    hide Linearizes, OpsOf, Labelled, Due, Head;
  }

  lemma StepReturns(s: State, t: Tid)
    requires Inv(s) && Enabled(s, t, Return)
    ensures |Fire(s, t, Return).results| == |s.results| + 1
  {
    assert ThreadOk(s, t);
    hide Inv, ThreadOk;
    Returned(s, t);
    MapGrows(s.results, s.th[t].id, Event(s.th[t].id, s.th[t].op, s.th[t].st));
  }

  lemma MapGrows(m: map<nat, Event>, k: nat, e: Event)
    requires k !in m
    ensures |m[k := e]| == |m| + 1
  {
    assert m[k := e].Keys == m.Keys + {k};
    assert |m[k := e]| == |m[k := e].Keys| && |m| == |m.Keys|;
  }

  /** The operations asked for are those of the calls of the run, none is lost, and every
      return leaves a result. */
  lemma {:induction false} AskedAre(s: State, run: seq<Move>, s': State)
    requires Inv(s) && Run(s, run, s')
    ensures s'.asked == s.asked + CallsIn(run) && |s'.results| == |s.results| + ReturnsIn(run)
    decreases |run|
  {
    hide Inv, Fire, Enabled;
    if run != [] {
      StepAsked(s, run[0].t, run[0].a);
      StepKeepsInv(s, run[0].t, run[0].a);
      AskedAre(Fire(s, run[0].t, run[0].a), run[1..], s');
    }
  }
}

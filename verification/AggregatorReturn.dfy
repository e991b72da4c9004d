/** From every state of the aggregator all calls under way can be completed, without another
    call being made; and no call is lost. */
module AggregatorReturn {
  import opened Aggregator

  predicate NoCalls(run: seq<Event>) { forall i :: 0 <= i < |run| ==> !run[i].a.Create? }

  ghost predicate Leads(s: State, t: State) { exists run :: NoCalls(run) && Run(s, run, t) }

  lemma {:induction false} RunAppend(s: State, a: seq<Event>, m: State, b: seq<Event>, t: State)
    requires Run(s, a, m) && Run(m, b, t)
    ensures Run(s, a + b, t)
    decreases |a|
  {
    hide Fire, Enabled;
    if a == [] {
      assert a + b == b;
    } else {
      assert (a + b)[1..] == a[1..] + b;
      RunAppend(Fire(s, a[0].t, a[0].a), a[1..], m, b, t);
    }
  }

  lemma LeadsOn(s: State, m: State, t: State)
    requires Leads(s, m) && Leads(m, t)
    ensures Leads(s, t)
  {
    hide Run;
    var a :| NoCalls(a) && Run(s, a, m);
    var b :| NoCalls(b) && Run(m, b, t);
    RunAppend(s, a, m, b, t);
    assert NoCalls(a + b);
  }

  lemma Stays(s: State)
    ensures Leads(s, s)
  {
    assert NoCalls([]) && Run(s, [], s);
  }

  lemma OneStep(s: State, t: Tid, a: Action) returns (s': State)
    requires Inv(s) && Enabled(s, t, a) && !a.Create?
    ensures s' == Fire(s, t, a) && Leads(s, s') && Inv(s')
  {
    hide Inv, Fire, Enabled;
    s' := Fire(s, t, a);
    StepKeepsInv(s, t, a);
    var run := [Event(t, a)];
    assert run[1..] == [];
    assert Run(s', [], s') && Run(s, run, s');
    assert NoCalls(run);
  }

  predicate Entered(p: Pc) { p.Begin? || p.Loaded? }

  function Entering(s: State): set<Tid> { set t | t in s.th && Entered(s.th[t].pc) }

  function Inside(s: State): set<Tid> { set t | t in s.th && s.th[t].pc != Idle }

  lemma Fewer(a: set<Tid>, t: Tid)
    requires t in a
    ensures |a - {t}| < |a|
  {
    assert a == (a - {t}) + {t};
  }

  // ----- first all get into the mailbox

  lemma Enters(s: State, t: Tid) returns (s': State)
    requires Inv(s) && t in s.th && s.th[t].pc == Begin
    ensures Inv(s') && Leads(s, s') && Entering(s') == Entering(s) - {t}
  {
    hide Inv, Leads;
    var m := OneStep(s, t, Load);
    assert m.th[t].pc == Loaded(s.mailbox) && m.mailbox == s.mailbox;
    s' := OneStep(m, t, Swap);
    LeadsOn(s, m, s');
  }

  lemma EntersAnyway(s: State, t: Tid) returns (s': State)
    requires Inv(s) && t in Entering(s)
    ensures Inv(s') && Leads(s, s') && Entering(s') == Entering(s) - {t}
  {
    hide Inv, Leads;
    if s.th[t].pc == Begin {
      s' := Enters(s, t);
    } else if s.mailbox == s.th[t].pc.res {
      s' := OneStep(s, t, Swap);
    } else {
      var m := OneStep(s, t, Swap);
      assert Entering(m) == Entering(s);
      s' := Enters(m, t);
      LeadsOn(s, m, s');
    }
  }

  lemma {:induction false} AllEnter(s: State) returns (s': State)
    requires Inv(s)
    ensures Inv(s') && Leads(s, s') && Entering(s') == {}
    decreases |Entering(s)|
  {
    hide Inv, Leads, Fire, Enabled, Entered;
    if Entering(s) == {} {
      s' := s;
      Stays(s);
    } else {
      var t :| t in Entering(s);
      var m := EntersAnyway(s, t);
      Fewer(Entering(s), t);
      s' := AllEnter(m);
      LeadsOn(s, m, s');
    }
  }

  // ----- then the batches are executed

  /** What the handler does next. */
  lemma HandlerNext(s: State, t: Tid)
    requires Inv(s) && t in s.th && s.th[t].pc.Handling?
    ensures if s.th[t].pc.current.To? then Enabled(s, t, Finish)
            else if s.th[t].pc.list.To? then Enabled(s, t, Apply) && s.pend != []
            else Enabled(s, t, Release)
    ensures s.who == To(t)
  {
    hide Distinct, IsLast;
    assert ThreadIn(s, t);
    if s.th[t].pc.current.Null? && s.th[t].pc.list.To? { EmptyChain(s.th, s.th[t].pc.list, s.pend); }
  }

  function Left(s: State, t: Tid): nat
    requires t in s.th
  {
    2 * |s.pend| + (if s.th[t].pc.Handling? && s.th[t].pc.current.To? then 1 else 0)
  }

  lemma FinishIs(s: State, t: Tid)
    requires Enabled(s, t, Finish)
    ensures var s' := Fire(s, t, Finish);
            && t in s'.th && s'.th[t].pc == Handling(s.th[t].pc.list, Null) && Left(s', t) == Left(s, t) - 1
            && s'.mailbox == s.mailbox && Entering(s') == Entering(s)
  {
  }

  lemma ApplyIs(s: State, t: Tid)
    requires Enabled(s, t, Apply) && s.pend != []
    ensures var s' := Fire(s, t, Apply);
            && t in s'.th && s'.th[t].pc.Handling? && Left(s', t) == Left(s, t) - 1
            && s'.mailbox == s.mailbox && Entering(s') == Entering(s)
  {
  }

  lemma {:induction false} Handled(s: State, t: Tid) returns (s': State)
    requires Inv(s) && t in s.th && s.th[t].pc.Handling?
    ensures Inv(s') && Leads(s, s') && s'.who == Null && s'.mailbox == s.mailbox && Entering(s') == Entering(s)
    decreases Left(s, t)
  {
    HandlerNext(s, t);
    hide Inv, Leads, Left;
    if s.th[t].pc.current.To? {
      FinishIs(s, t);
      var m := OneStep(s, t, Finish);
      hide Fire, Enabled, Entering;
      s' := Handled(m, t);
      LeadsOn(s, m, s');
    } else if s.th[t].pc.list.To? {
      ApplyIs(s, t);
      var m := OneStep(s, t, Apply);
      hide Fire, Enabled, Entering;
      s' := Handled(m, t);
      LeadsOn(s, m, s');
    } else {
      s' := OneStep(s, t, Release);
    }
  }

  lemma Grabbed(s: State, t: Tid) returns (s': State)
    requires Inv(s) && t in s.th && s.th[t].pc == Grabbing
    ensures Inv(s') && Leads(s, s') && s'.who == Null && s'.mailbox == Null && Entering(s') == Entering(s)
  {
    hide Inv, Leads;
    var m := OneStep(s, t, Grab);
    assert Entering(m) == Entering(s);
    s' := Handled(m, t);
    LeadsOn(s, m, s');
  }

  lemma Claimed(s: State, t: Tid) returns (s': State)
    requires Inv(s) && t in s.th && s.th[t].pc == Claiming
    ensures Inv(s') && Leads(s, s') && s'.who == Null && s'.mailbox == Null && Entering(s') == Entering(s)
  {
    hide Inv, Leads;
    var m := OneStep(s, t, SetBusy);
    assert Entering(m) == Entering(s);
    s' := Grabbed(m, t);
    LeadsOn(s, m, s');
  }

  lemma Opened(s: State, t: Tid) returns (s': State)
    requires Inv(s) && t in s.th && s.th[t].pc == First && !s.busy
    ensures Inv(s') && Leads(s, s') && s'.who == Null && s'.mailbox == Null && Entering(s') == Entering(s)
  {
    hide Inv, Leads;
    var m := OneStep(s, t, SeeFree);
    assert Entering(m) == Entering(s);
    s' := Claimed(m, t);
    LeadsOn(s, m, s');
  }

  lemma Released(s: State) returns (s': State)
    requires Inv(s)
    ensures Inv(s') && Leads(s, s') && s'.who == Null && Entering(s') == Entering(s)
  {
    hide Leads, Chain, Distinct;
    if s.who == Null {
      s' := s;
      Stays(s);
    } else {
      var t := s.who.t;
      assert ThreadIn(s, t);
      hide Inv;
      if s.th[t].pc == Grabbing { s' := Grabbed(s, t); } else { s' := Handled(s, t); }
    }
  }

  /** The mailbox is emptied and nobody handles. */
  lemma Emptied(s: State) returns (s': State)
    requires Inv(s)
    ensures Inv(s') && Leads(s, s') && s'.who == Null && s'.mailbox == Null && Entering(s') == Entering(s)
  {
    var m := Released(s);
    hide Leads, Distinct;
    if m.mail == [] {
      s' := m;
    } else {
      var t := m.mail[|m.mail| - 1];
      assert t in m.mail && IsLast(m.mail, t);
      assert ThreadIn(m, t);
      hide Inv, Chain;
      if m.th[t].pc == First { s' := Opened(m, t); } else { s' := Claimed(m, t); }
      LeadsOn(s, m, s');
    }
  }

  // ----- and all return

  lemma HasResult(s: State, t: Tid)
    requires Inv(s) && s.who == Null && s.mailbox == Null && Entering(s) == {} && t in Inside(s)
    ensures Enabled(s, t, Wake)
  {
    assert ThreadIn(s, t);
    assert t !in Entering(s);
    hide Distinct;
  }

  lemma {:induction false} AllReturn(s: State) returns (s': State)
    requires Inv(s) && s.who == Null && s.mailbox == Null && Entering(s) == {}
    ensures Inv(s') && Leads(s, s') && Inside(s') == {}
    decreases |Inside(s)|
  {
    hide Inv, Leads;
    if Inside(s) == {} {
      s' := s;
      Stays(s);
    } else {
      var t :| t in Inside(s);
      HasResult(s, t);
      var m := OneStep(s, t, Wake);
      Fewer(Inside(s), t);
      assert Inside(m) == Inside(s) - {t} && Entering(m) == Entering(s);
      s' := AllReturn(m);
      LeadsOn(s, m, s');
    }
  }

  /** All calls under way can be completed without another call being made, by whatever
      threads made them and wherever they are. */
  lemma CanComplete(s: State) returns (s': State)
    requires Inv(s)
    ensures Leads(s, s') && forall t :: t in s'.th ==> s'.th[t].pc == Idle
  {
    hide Inv, Leads;
    var a := AllEnter(s);
    var b := Emptied(a);
    s' := AllReturn(b);
    LeadsOn(s, a, b);
    LeadsOn(s, b, s');
    forall t | t in s'.th ensures s'.th[t].pc == Idle { assert t !in Inside(s'); }
  }

  // ----- what a run was asked

  /** How many calls a thread makes in a run. */
  function Calls(run: seq<Event>, t: Tid): nat {
    if run == [] then 0 else (if run[0].t == t && run[0].a.Create? then 1 else 0) + Calls(run[1..], t)
  }

  /** Calls made so far: those submitted, and one on its way to the mailbox. */
  function Made(s: State, t: Tid): nat
    requires t in s.th
  {
    s.th[t].submitted + (if Entered(s.th[t].pc) then 1 else 0)
  }

  /** Every call of the run gets into the mailbox or is on its way there. */
  lemma {:induction false} CallsMade(s: State, run: seq<Event>, s': State, t: Tid)
    requires Run(s, run, s') && t in s.th
    ensures t in s'.th && Made(s', t) == Made(s, t) + Calls(run, t)
    decreases |run|
  {
    if run != [] { CallsMade(Fire(s, run[0].t, run[0].a), run[1..], s', t); }
  }
}

/** Flags::validateInput: a scanner that updates the flag tables in place, and the proof
    that it accepts exactly the inputs that consist of good groups. */
module Flags {
  import opened FlagGrammar

  /** The variables of the loop and the tables it fills. */
  datatype Scan = Scan(
    expectingFlag: bool,
    valuesFound: bool,
    flagWasFound: bool,
    flag: string,
    found: seq<string>,
    overridingFound: bool,
    requiredFound: nat,
    requiredValues: map<string, seq<string>>,
    optionalValues: map<string, seq<string>>)

  datatype Option<T> = None | Some(value: T)

  datatype Vars = Vars(expectingFlag: bool, valuesFound: bool, flagWasFound: bool, flag: string, requiredFound: nat)

  function Cleared(m: map<string, seq<string>>): map<string, seq<string>> {
    map k | k in m :: []
  }

  function Begin(required: map<string, seq<string>>, optional: map<string, seq<string>>): Scan {
    Scan(true, false, false, "", [], false, 0, Cleared(required), Cleared(optional))
  }

  /** One round of the loop; None is `return false`. */
  function Read(c: Config, s: Scan, t: string): Option<Scan> {
    if s.overridingFound then None
    else if IsFlag(t) then ReadFlag(c, s, t[1..])
    else ReadValue(c, s, t)
  }

  function ReadFlag(c: Config, s: Scan, f: string): Option<Scan> {
    var expecting := s.expectingFlag || s.valuesFound;
    if !Known(c, f) then
      if c.ignoreUnknown then Some(s.(expectingFlag := expecting, flag := f)) else None
    else if !expecting || f in s.found then None
    else Some(s.(expectingFlag := f in c.noValues, flag := f, found := s.found + [f],
                 overridingFound := f in c.overriding,
                 requiredFound := s.requiredFound + (if f in c.required then 1 else 0),
                 flagWasFound := true, valuesFound := false))
  }

  function ReadValue(c: Config, s: Scan, v: string): Option<Scan> {
    if !s.flagWasFound || s.flag in c.overriding || s.flag in c.noValues then None
    else Some(s.(valuesFound := true, requiredValues := Appended(s.requiredValues, s.flag, v),
                 optionalValues := Appended(s.optionalValues, s.flag, v)))
  }

  function Appended(m: map<string, seq<string>>, f: string, v: string): map<string, seq<string>> {
    if f in m then m[f := m[f] + [v]] else m
  }

  /** What is checked after the loop. */
  predicate Accepts(c: Config, s: Scan) {
    && (s.overridingFound || (|s.found| >= c.minCount && s.requiredFound >= |c.required|))
    && !(s.flagWasFound && !s.valuesFound && Valued(c, s.flag))
    && Related(c, s.found)
  }

  function ReadAll(c: Config, s: Scan, input: seq<string>): Option<Scan> {
    if input == [] then Some(s)
    else match ReadAll(c, s, input[..|input| - 1])
      case None => None
      case Some(r) => Read(c, r, input[|input| - 1])
  }

  // ----- the scanner and the groups

  /** Readings that may still grow into good ones. */
  ghost predicate Open(c: Config, r: Reading) {
    && LeadOk(c, r.lead)
    && (forall i :: 0 <= i < |r.groups| - 1 ==> GroupOk(c, r.groups[i]) && r.groups[i].flag !in c.overriding)
    && (r.groups != [] ==> GroupFits(c, Last(r.groups)))
    && Distinct(FlagsOf(r.groups))
  }

  function RequiredIn(c: Config, fs: seq<string>): set<string> {
    set f | f in fs && f in c.required
  }

  /** The tables hold the values of the groups, and nothing else. */
  ghost predicate Holds(m: map<string, seq<string>>, gs: seq<Group>) {
    && (forall i :: 0 <= i < |gs| && gs[i].flag in m ==> m[gs[i].flag] == gs[i].values)
    && forall f :: f in m && f !in FlagsOf(gs) ==> m[f] == []
  }

  /** What the loop's variables know of the last group. */
  ghost predicate TracksLast(c: Config, s: Scan, g: Group) {
    && (if g.skipped == [] then s.flag == g.flag else !Known(c, s.flag))
    && (s.valuesFound <==> g.values != [] || SkipsValue(g))
    && (g.flag in c.noValues ==> s.expectingFlag) && (s.expectingFlag ==> g.flag in c.noValues || s.valuesFound)
    && (s.overridingFound <==> g.flag in c.overriding)
  }

  ghost predicate Tracks(c: Config, s: Scan, gs: seq<Group>) {
    && s.found == FlagsOf(gs) && (s.flagWasFound <==> gs != [])
    && (if gs == [] then s.expectingFlag && !s.valuesFound && !s.overridingFound else TracksLast(c, s, Last(gs)))
    && s.requiredFound == |RequiredIn(c, s.found)|
    && s.requiredValues.Keys == c.required && s.optionalValues.Keys == c.optional
    && Holds(s.requiredValues, gs) && Holds(s.optionalValues, gs)
  }

  lemma RequiredMore(c: Config, fs: seq<string>, f: string)
    requires f !in fs
    ensures |RequiredIn(c, fs + [f])| == |RequiredIn(c, fs)| + (if f in c.required then 1 else 0)
  {
    var a, b := RequiredIn(c, fs), RequiredIn(c, fs + [f]);
    if f in c.required { assert b == a + {f}; } else { assert b == a; }
  }

  lemma RequiredAll(c: Config, fs: seq<string>)
    ensures |RequiredIn(c, fs)| >= |c.required| <==> forall f :: f in c.required ==> f in fs
  {
    var a := RequiredIn(c, fs);
    assert a <= c.required;
    assert |c.required - a| == |c.required| - |a|;
    if |a| >= |c.required| {
      assert |c.required - a| == 0;
      assert c.required - a == {};
      forall f | f in c.required ensures f in fs { assert f in a; }
    }
    if forall f :: f in c.required ==> f in fs { assert a == c.required; }
  }

  lemma FlagsAdd(gs: seq<Group>, g: Group)
    ensures FlagsOf(gs + [g]) == FlagsOf(gs) + [g.flag]
  {
  }

  lemma FlagsSame(gs: seq<Group>, g: Group)
    requires gs != [] && g.flag == Last(gs).flag
    ensures FlagsOf(gs[..|gs| - 1] + [g]) == FlagsOf(gs)
  {
  }

  lemma DistinctAdd(fs: seq<string>, f: string)
    ensures Distinct(fs + [f]) <==> Distinct(fs) && f !in fs
  {
    if Distinct(fs + [f]) {
      forall i, j | 0 <= i < j < |fs| ensures fs[i] != fs[j] { assert (fs + [f])[i] != (fs + [f])[j]; }
      forall i | 0 <= i < |fs| ensures fs[i] != f { assert (fs + [f])[i] != (fs + [f])[|fs|]; }
    }
  }

  // ----- a known flag

  /** A further group is right exactly if the last one so far is finished. */
  lemma OpenFlag(c: Config, r: Reading, f: string)
    requires Open(c, r) && Known(c, f)
    ensures Open(c, r.(groups := r.groups + [Group(f, [], [])])) <==>
              && f !in FlagsOf(r.groups)
              && (r.groups != [] ==> GroupOk(c, Last(r.groups)) && Last(r.groups).flag !in c.overriding)
  {
    var gs, g := r.groups, Group(f, [], []);
    var gs' := gs + [g];
    FlagsAdd(gs, g);
    DistinctAdd(FlagsOf(gs), f);
    assert GroupFits(c, g);
    hide Known, GroupOk, GroupFits, Distinct, FlagsOf, LeadOk;
    assert Last(gs') == g;
    if gs != [] { assert gs'[|gs| - 1] == Last(gs); }
  }

  lemma HoldsFlag(m: map<string, seq<string>>, gs: seq<Group>, f: string)
    requires Holds(m, gs) && f !in FlagsOf(gs)
    ensures Holds(m, gs + [Group(f, [], [])])
  {
    FlagsAdd(gs, Group(f, [], []));
  }

  /** What `expectingFlag` and `valuesFound` say about the last group. */
  lemma LastDone(c: Config, s: Scan, g: Group)
    requires Exclusive(c) && TracksLast(c, s, g) && GroupFits(c, g)
    ensures !s.overridingFound ==> (GroupOk(c, g) <==> s.expectingFlag || s.valuesFound)
    ensures LastOk(c, g) <==> (s.valuesFound || !Valued(c, s.flag))
  {
    hide IsFlag;
  }

  /** Accepted exactly if the groups with it are still right. */
  lemma StepFlag(c: Config, s: Scan, r: Reading, t: string)
    requires Exclusive(c) && Tracks(c, s, r.groups) && Open(c, r) && IsKnownFlag(c, t)
    ensures var gs' := r.groups + [Group(t[1..], [], [])];
            match Read(c, s, t)
            case None => !Open(c, r.(groups := gs'))
            case Some(s') => Open(c, r.(groups := gs')) && Tracks(c, s', gs')
  {
    var f, gs := t[1..], r.groups;
    OpenFlag(c, r, f);
    if gs != [] { LastDone(c, s, Last(gs)); }
    hide Open, Distinct, GroupOk, GroupFits, IsFlag, Exclusive;
    if Read(c, s, t).Some? {
      RequiredMore(c, FlagsOf(gs), f);
      HoldsFlag(s.requiredValues, gs, f);
      HoldsFlag(s.optionalValues, gs, f);
      FlagsAdd(gs, Group(f, [], []));
      hide Holds, RequiredIn, FlagsOf;
      assert Last(gs + [Group(f, [], [])]) == Group(f, [], []);
    }
  }

  // ----- before the first known flag

  /** Unknown flags may stand there if they are passed over, and nothing else. */
  lemma StepLead(c: Config, s: Scan, r: Reading, t: string)
    requires Tracks(c, s, r.groups) && Open(c, r) && !IsKnownFlag(c, t) && r.groups == []
    ensures var r' := r.(lead := r.lead + [t]);
            match Read(c, s, t)
            case None => !Open(c, r')
            case Some(s') => Open(c, r') && Tracks(c, s', [])
  {
    hide Known, Distinct, FlagsOf, Holds, RequiredIn;
    assert t in r.lead + [t];
    assert forall u :: u in r.lead + [t] <==> u in r.lead || u == t;
  }

  // ----- what belongs to the last group

  lemma OpenMore(c: Config, r: Reading, g: Group)
    requires Open(c, r) && r.groups != [] && g.flag == Last(r.groups).flag
    ensures Open(c, r.(groups := r.groups[..|r.groups| - 1] + [g])) <==> GroupFits(c, g)
  {
    var gs' := r.groups[..|r.groups| - 1] + [g];
    FlagsSame(r.groups, g);
    hide GroupOk, GroupFits, Distinct, FlagsOf, LeadOk;
    assert Last(gs') == g;
  }

  lemma HoldsValue(m: map<string, seq<string>>, gs: seq<Group>, v: string)
    requires Holds(m, gs) && gs != [] && Distinct(FlagsOf(gs))
    ensures Holds(Appended(m, Last(gs).flag, v), gs[..|gs| - 1] + [Last(gs).(values := Last(gs).values + [v])])
    ensures Appended(m, Last(gs).flag, v).Keys == m.Keys
  {
    var g := Last(gs).(values := Last(gs).values + [v]);
    var gs' := gs[..|gs| - 1] + [g];
    FlagsSame(gs, g);
    forall i | 0 <= i < |gs'| - 1 ensures gs'[i].flag != g.flag {
      assert FlagsOf(gs)[i] != FlagsOf(gs)[|gs| - 1];
    }
    assert FlagsOf(gs)[|gs| - 1] == g.flag;
  }

  lemma HoldsSkipped(m: map<string, seq<string>>, gs: seq<Group>, g: Group)
    requires Holds(m, gs) && gs != [] && g.flag == Last(gs).flag && g.values == Last(gs).values
    ensures Holds(m, gs[..|gs| - 1] + [g])
  {
    FlagsSame(gs, g);
  }

  /** An unknown flag is passed over exactly if that was asked for and the flag before it
      is not an overriding one. */
  lemma FitsUnknown(c: Config, s: Scan, g: Group, t: string)
    requires TracksLast(c, s, g) && GroupFits(c, g) && IsUnknownFlag(c, t)
    ensures match Read(c, s, t)
            case None => !GroupFits(c, AddToGroup(g, t))
            case Some(s') => GroupFits(c, AddToGroup(g, t)) && TracksLast(c, s', AddToGroup(g, t))
  {
    hide Known;
    var g' := AddToGroup(g, t);
    assert t in g'.skipped;
    assert forall u :: u in g'.skipped <==> u in g.skipped || u == t;
    if g.skipped != [] { assert g'.skipped[0] == g.skipped[0]; }
  }

  /** A value is accepted behind a flag that takes values, and behind an unknown one. */
  lemma FitsValue(c: Config, s: Scan, g: Group, t: string)
    requires Exclusive(c) && TracksLast(c, s, g) && GroupFits(c, g) && !IsFlag(t) && s.flagWasFound
    ensures match Read(c, s, t)
            case None => !GroupFits(c, AddToGroup(g, t))
            case Some(s') => GroupFits(c, AddToGroup(g, t)) && TracksLast(c, s', AddToGroup(g, t))
  {
    hide IsFlag, Appended;
    var g' := AddToGroup(g, t);
    if g.skipped == [] {
      assert t in g'.values;
      assert forall u :: u in g'.values <==> u in g.values || u == t;
    } else {
      assert t in g'.skipped;
      assert forall u :: u in g'.skipped <==> u in g.skipped || u == t;
      assert g'.skipped[0] == g.skipped[0];
    }
  }

  /** Only a value behind a known flag is stored. */
  lemma StoredOrSkipped(c: Config, s: Scan, gs: seq<Group>, t: string)
    requires Tracks(c, s, gs) && gs != [] && Distinct(FlagsOf(gs)) && !IsKnownFlag(c, t) && Read(c, s, t).Some?
    ensures var s', gs' := Read(c, s, t).value, gs[..|gs| - 1] + [AddToGroup(Last(gs), t)];
            && s'.found == s.found && s'.flagWasFound && s'.requiredFound == s.requiredFound
            && s'.requiredValues.Keys == c.required && s'.optionalValues.Keys == c.optional
            && Holds(s'.requiredValues, gs') && Holds(s'.optionalValues, gs')
  {
    var g := Last(gs);
    hide Holds, Distinct, FlagsOf, RequiredIn, SkipsValue;
    if IsFlag(t) || g.skipped != [] {
      HoldsSkipped(s.requiredValues, gs, AddToGroup(g, t));
      HoldsSkipped(s.optionalValues, gs, AddToGroup(g, t));
    } else {
      HoldsValue(s.requiredValues, gs, t);
      HoldsValue(s.optionalValues, gs, t);
    }
  }

  lemma StepMore(c: Config, s: Scan, r: Reading, t: string)
    requires Exclusive(c) && Tracks(c, s, r.groups) && Open(c, r) && !IsKnownFlag(c, t) && r.groups != []
    ensures var gs' := r.groups[..|r.groups| - 1] + [AddToGroup(Last(r.groups), t)];
            match Read(c, s, t)
            case None => !Open(c, r.(groups := gs'))
            case Some(s') => Open(c, r.(groups := gs')) && Tracks(c, s', gs')
  {
    var gs := r.groups;
    var g := Last(gs);
    OpenMore(c, r, AddToGroup(g, t));
    if IsFlag(t) { FitsUnknown(c, s, g, t); } else { FitsValue(c, s, g, t); }
    if Read(c, s, t).Some? { StoredOrSkipped(c, s, gs, t); }
    FlagsSame(gs, AddToGroup(g, t));
    hide Open, Exclusive, GroupFits, TracksLast, Read, Holds, FlagsOf, RequiredIn, IsFlag, Known, AddToGroup;
    assert Last(gs[..|gs| - 1] + [AddToGroup(g, t)]) == AddToGroup(g, t);
  }

  // ----- the whole input

  lemma TracksEmpty(c: Config, s: Scan)
    requires s.requiredValues.Keys == c.required && s.optionalValues.Keys == c.optional
    requires s == Begin(s.requiredValues, s.optionalValues)
    ensures Tracks(c, s, []) && Open(c, Reading([], []))
  {
    assert RequiredIn(c, []) == {};
    assert FlagsOf([]) == [];
  }

  lemma StepToken(c: Config, s: Scan, r: Reading, t: string)
    requires Exclusive(c) && Tracks(c, s, r.groups) && Open(c, r)
    ensures match Read(c, s, t)
            case None => !Open(c, AddToken(c, r, t))
            case Some(s') => Open(c, AddToken(c, r, t)) && Tracks(c, s', AddToken(c, r, t).groups)
  {
    hide Open, Tracks, Read, Exclusive, Known, AddToGroup;
    if IsKnownFlag(c, t) {
      StepFlag(c, s, r, t);
    } else if r.groups == [] {
      StepLead(c, s, r, t);
    } else {
      StepMore(c, s, r, t);
    }
  }

  /** What is wrong stays wrong. */
  lemma OpenBefore(c: Config, r: Reading, t: string)
    requires Open(c, AddToken(c, r, t))
    ensures Open(c, r)
  {
    hide Known, AddToGroup, Distinct, FlagsOf;
    var gs := r.groups;
    var r' := AddToken(c, r, t);
    if IsKnownFlag(c, t) {
      FlagsAdd(gs, Group(t[1..], [], []));
      DistinctAdd(FlagsOf(gs), t[1..]);
      hide PlainGroup, SkipsValue, LeadOk;
      forall i | 0 <= i < |gs| ensures r'.groups[i] == gs[i] {}
      if gs != [] { assert r'.groups[|gs| - 1] == Last(gs); }
    } else if gs == [] {
      hide PlainGroup, SkipsValue;
      assert forall u :: u in r.lead ==> u in r.lead + [t];
    } else {
      var g' := AddToGroup(Last(gs), t);
      FitsBefore(c, Last(gs), t);
      FlagsSame(gs, g');
      hide GroupFits, GroupOk, LeadOk;
      assert Last(r'.groups) == g';
      forall i | 0 <= i < |gs| - 1 ensures r'.groups[i] == gs[i] {}
    }
  }

  lemma FitsBefore(c: Config, g: Group, t: string)
    ensures AddToGroup(g, t).flag == g.flag
    ensures GroupFits(c, AddToGroup(g, t)) ==> GroupFits(c, g)
  {
    hide Known;
    var g' := AddToGroup(g, t);
    assert forall u :: u in g.values ==> u in g'.values;
    assert forall u :: u in g.skipped ==> u in g'.skipped;
    if g.skipped != [] { assert g'.skipped[0] == g.skipped[0]; }
  }

  /** After any part of the input the scanner has failed exactly if no good reading can
      begin like this, and else its tables are those of the reading. */
  lemma {:induction false} ScanGroups(c: Config, s: Scan, input: seq<string>)
    requires Exclusive(c) && Tracks(c, s, []) && Open(c, Reading([], []))
    ensures match ReadAll(c, s, input)
            case None => !Open(c, ReadingOf(c, input))
            case Some(s') => Open(c, ReadingOf(c, input)) && Tracks(c, s', ReadingOf(c, input).groups)
    decreases |input|
  {
    if input != [] {
      var front, t := input[..|input| - 1], input[|input| - 1];
      ScanGroups(c, s, front);
      ReadingLast(c, input);
      hide Open, Tracks, Exclusive, ReadingOf, Read, AddToken;
      match ReadAll(c, s, front) {
        case None => if Open(c, ReadingOf(c, input)) { OpenBefore(c, ReadingOf(c, front), t); }
        case Some(s') => StepToken(c, s', ReadingOf(c, front), t);
      }
    }
  }

  lemma LastGood(c: Config, r: Reading)
    requires Open(c, r)
    ensures Good(c, r) <==>
              && (r.groups != [] ==> LastOk(c, Last(r.groups)))
              && ((r.groups != [] && Last(r.groups).flag in c.overriding) || Complete(c, FlagsOf(r.groups)))
              && Related(c, FlagsOf(r.groups))
  {
    hide GroupOk, LastOk, LeadOk, Complete, Related, Distinct, FlagsOf;
  }

  lemma GoodOpen(c: Config, r: Reading)
    requires Good(c, r)
    ensures Open(c, r)
  {
    hide Complete, Related, Distinct, FlagsOf, PlainGroup, SkipsValue;
  }

  /** The checks after the loop ask for exactly what is missing. */
  lemma AcceptsGood(c: Config, s: Scan, r: Reading)
    requires Exclusive(c) && Tracks(c, s, r.groups) && Open(c, r)
    ensures Accepts(c, s) <==> Good(c, r)
  {
    LastGood(c, r);
    RequiredAll(c, FlagsOf(r.groups));
    if r.groups != [] { LastDone(c, s, Last(r.groups)); }
    hide Open, Good, Related, GroupOk, LastOk, RequiredIn, Holds, Distinct, Exclusive;
  }

  /** validateInput accepts exactly the inputs that are a sequence of good groups. */
  lemma Validates(c: Config, s: Scan, input: seq<string>)
    requires Exclusive(c) && s.requiredValues.Keys == c.required && s.optionalValues.Keys == c.optional
    requires s == Begin(s.requiredValues, s.optionalValues)
    ensures (ReadAll(c, s, input).Some? && Accepts(c, ReadAll(c, s, input).value)) <==>
            exists r :: Render(r) == input && Good(c, r)
    ensures ReadAll(c, s, input).Some? ==>
              Render(ReadingOf(c, input)) == input && Tracks(c, ReadAll(c, s, input).value, ReadingOf(c, input).groups)
  {
    hide ReadAll, Accepts, Good, Render, Open, Tracks, Exclusive, ReadingOf;
    TracksEmpty(c, s);
    ScanGroups(c, s, input);
    OneReading(c, input);
    ReadingRendered(c, input);
    var r := ReadingOf(c, input);
    match ReadAll(c, s, input) {
      case None => if Good(c, r) { GoodOpen(c, r); }
      case Some(s') => AcceptsGood(c, s', r);
    }
  }

  // ----- the program

  class Validator {
    var requiredFlags: map<string, seq<string>>
    var optionalFlags: map<string, seq<string>>
    var noValuesFlags: seq<string>
    var overridingFlags: seq<string>
    var flagsDependencies: map<string, seq<string>>
    var flagsLooseDependencies: map<string, seq<string>>
    var incompatibleFlags: map<string, seq<string>>
    var ignoreUnknownFlags: bool
    var minCount: nat
    var foundFlags: seq<string>
    var overridingFlagFound: bool

    function Settings(): Config
      reads this
    {
      Config(requiredFlags.Keys, optionalFlags.Keys, noValuesFlags, overridingFlags, flagsDependencies,
             flagsLooseDependencies, incompatibleFlags, ignoreUnknownFlags, minCount)
    }

    ghost predicate Valid()
      reads this
    {
      Exclusive(Settings())
    }

    constructor ()
      ensures Valid() && Settings() == Config({}, {}, [], [], map[], map[], map[], false, 0)
    {
      requiredFlags, optionalFlags, noValuesFlags, overridingFlags := map[], map[], [], [];
      flagsDependencies, flagsLooseDependencies, incompatibleFlags := map[], map[], map[];
      ignoreUnknownFlags, minCount, foundFlags, overridingFlagFound := false, 0, [], false;
    }

    predicate FlagExist(flag: string)
      reads this
    {
      flag in requiredFlags || flag in optionalFlags || flag in noValuesFlags || flag in overridingFlags
    }

    method SetRequiredFlag(flag: string) returns (ok: bool)
      requires Valid()
      modifies this`requiredFlags
      ensures Valid() && ok == !old(FlagExist(flag))
      ensures requiredFlags == if ok then old(requiredFlags)[flag := []] else old(requiredFlags)
    {
      ok := !FlagExist(flag);
      if ok {
        requiredFlags := requiredFlags[flag := []];
      }
    }

    method SetOptionalFlag(flag: string) returns (ok: bool)
      requires Valid()
      modifies this`optionalFlags
      ensures Valid() && ok == !old(FlagExist(flag))
      ensures optionalFlags == if ok then old(optionalFlags)[flag := []] else old(optionalFlags)
    {
      ok := !FlagExist(flag);
      if ok {
        optionalFlags := optionalFlags[flag := []];
      }
    }

    method SetOverridingFlag(flag: string) returns (ok: bool)
      requires Valid()
      modifies this`overridingFlags
      ensures Valid() && ok == !old(FlagExist(flag))
      ensures overridingFlags == if ok then old(overridingFlags) + [flag] else old(overridingFlags)
    {
      ok := !FlagExist(flag);
      if ok {
        overridingFlags := overridingFlags + [flag];
      }
    }

    method SetNoValuesFlag(flag: string) returns (ok: bool)
      requires Valid()
      modifies this`noValuesFlags
      ensures Valid() && ok == !old(FlagExist(flag))
      ensures noValuesFlags == if ok then old(noValuesFlags) + [flag] else old(noValuesFlags)
    {
      ok := !FlagExist(flag);
      if ok {
        noValuesFlags := noValuesFlags + [flag];
      }
    }

    /** clean, without the verbose output. */
    method Clean()
      modifies this`requiredFlags, this`optionalFlags, this`foundFlags, this`overridingFlagFound
      ensures requiredFlags == Cleared(old(requiredFlags)) && optionalFlags == Cleared(old(optionalFlags))
      ensures foundFlags == [] && !overridingFlagFound && Settings() == old(Settings())
    {
      ClearedKeys(requiredFlags);
      ClearedKeys(optionalFlags);
      overridingFlagFound := false;
      requiredFlags := Cleared(requiredFlags);
      optionalFlags := Cleared(optionalFlags);
      foundFlags := [];
    }

    method CheckDependencies(flags: seq<string>) returns (ok: bool)
      ensures ok <==> DependenciesHold(Settings(), flags)
    {
      var f := 0;
      while f < |flags|
        invariant 0 <= f <= |flags|
        invariant forall i :: 0 <= i < f && flags[i] in flagsDependencies ==>
                    forall d :: d in flagsDependencies[flags[i]] ==> d in flags
      {
        if flags[f] in flagsDependencies {
          var needed := flagsDependencies[flags[f]];
          var d := 0;
          while d < |needed|
            invariant 0 <= d <= |needed| && forall x :: 0 <= x < d ==> needed[x] in flags
          {
            if needed[d] !in flags {
              return false;
            }
            d := d + 1;
          }
        }
        f := f + 1;
      }
      ok := true;
    }

    method CheckLooseDependencies(flags: seq<string>) returns (ok: bool)
      ensures ok <==> LooseDependenciesHold(Settings(), flags)
    {
      var f := 0;
      while f < |flags|
        invariant 0 <= f <= |flags|
        invariant forall i ::
                    0 <= i < f && flags[i] in flagsLooseDependencies && flagsLooseDependencies[flags[i]] != [] ==>
                      exists d :: d in flagsLooseDependencies[flags[i]] && d in flags
      {
        if flags[f] in flagsLooseDependencies {
          var choices := flagsLooseDependencies[flags[f]];
          var found := choices == [];
          var d := 0;
          while d < |choices| && !found
            invariant 0 <= d <= |choices|
            invariant choices == [] ==> found
            invariant !found ==> forall x :: 0 <= x < d ==> choices[x] !in flags
            invariant found ==> choices == [] || exists x :: x in choices && x in flags
          {
            found := choices[d] in flags;
            d := d + 1;
          }
          if !found {
            NoneOfThem(Settings(), flags, flags[f]);
            return false;
          }
        }
        f := f + 1;
      }
      ok := true;
    }

    method CheckIncompatibilities(flags: seq<string>) returns (ok: bool)
      ensures ok <==> Compatible(Settings(), flags)
    {
      var f := 0;
      while f < |flags|
        invariant 0 <= f <= |flags|
        invariant forall i :: 0 <= i < f && flags[i] in incompatibleFlags ==>
                    forall d :: d in incompatibleFlags[flags[i]] ==> d !in flags
      {
        if flags[f] in incompatibleFlags {
          var excluded := incompatibleFlags[flags[f]];
          var d := 0;
          while d < |excluded|
            invariant 0 <= d <= |excluded| && forall x :: 0 <= x < d ==> excluded[x] !in flags
          {
            if excluded[d] in flags {
              return false;
            }
            d := d + 1;
          }
        }
        f := f + 1;
      }
      ok := true;
    }

    /** validateInput accepts exactly the inputs that consist of good groups, and then the
        flags found and the values in the tables are those of the groups that spell it. */
    method ValidateInput(input: seq<string>) returns (ok: bool)
      requires Valid()
      modifies this`requiredFlags, this`optionalFlags, this`foundFlags, this`overridingFlagFound
      ensures Valid() && requiredFlags.Keys == old(requiredFlags.Keys) && optionalFlags.Keys == old(optionalFlags.Keys)
      ensures ok <==> exists r :: Render(r) == input && Good(Settings(), r)
      ensures ok ==>
                var r := ReadingOf(Settings(), input);
                && Render(r) == input && Good(Settings(), r) && foundFlags == FlagsOf(r.groups)
                && Holds(requiredFlags, r.groups) && Holds(optionalFlags, r.groups)
      ensures ok && !ignoreUnknownFlags ==> Respelled(foundFlags, requiredFlags, optionalFlags) == input
    {
      hide ReadAll, Accepts, Good, Exclusive, Related, Holds, Render, Begin;
      Clean();
      ghost var c := Settings();
      ghost var start := Begin(requiredFlags, optionalFlags);
      BeginCleared(old(requiredFlags), old(optionalFlags));
      var scanned, v := ScanTokens(input);
      if !scanned {
        Rejected(c, start, input);
        return false;
      }
      ghost var s := ReadAll(c, start, input).value;
      Accepted(c, start, input);
      AcceptsIs(c, s);
      if !overridingFlagFound && (|foundFlags| < minCount || v.requiredFound < |requiredFlags.Keys|) {
        return false;
      }
      if v.flagWasFound && !v.valuesFound && (v.flag in requiredFlags || v.flag in optionalFlags) {
        return false;
      }
      hide Settings;
      ok := CheckDependencies(foundFlags);
      if ok {
        ok := CheckIncompatibilities(foundFlags);
      }
      if ok {
        ok := CheckLooseDependencies(foundFlags);
      }
    }

    /** A value goes to the table its flag is in. */
    method TakeValue(flag: string, current: string)
      modifies this`requiredFlags, this`optionalFlags
      ensures requiredFlags == Appended(old(requiredFlags), flag, current)
              && requiredFlags.Keys == old(requiredFlags).Keys
      ensures optionalFlags == Appended(old(optionalFlags), flag, current)
              && optionalFlags.Keys == old(optionalFlags).Keys
    {
      if flag in requiredFlags {
        requiredFlags := requiredFlags[flag := requiredFlags[flag] + [current]];
      }
      if flag in optionalFlags {
        optionalFlags := optionalFlags[flag := optionalFlags[flag] + [current]];
      }
    }

    /** The variables of the loop, with the tables. */
    function State(v: Vars): Scan
      reads this
    {
      Scan(v.expectingFlag, v.valuesFound, v.flagWasFound, v.flag, foundFlags, overridingFlagFound, v.requiredFound,
           requiredFlags, optionalFlags)
    }

    /** One round of the loop. */
    method ReadToken(current: string, v: Vars) returns (ok: bool, v': Vars)
      modifies this`requiredFlags, this`optionalFlags, this`foundFlags, this`overridingFlagFound
      ensures Settings() == old(Settings())
      ensures var r := Read(old(Settings()), old(State(v)), current);
              if ok then r == Some(State(v')) else r == None
    {
      hide Appended;
      v' := v;
      if overridingFlagFound {
        return false, v';
      }
      if IsFlag(current) {
        v' := v'.(expectingFlag := v.expectingFlag || v.valuesFound, flag := current[1..]);
        if FlagExist(v'.flag) {
          if !v'.expectingFlag || v'.flag in foundFlags {
            return false, v';
          }
          overridingFlagFound := v'.flag in overridingFlags;
          foundFlags := foundFlags + [v'.flag];
          v' := v'.(expectingFlag := v'.flag in noValuesFlags, flagWasFound := true, valuesFound := false,
                    requiredFound := v.requiredFound + (if v'.flag in requiredFlags then 1 else 0));
        } else if !ignoreUnknownFlags {
          return false, v';
        }
      } else {
        if !v.flagWasFound || v.flag in overridingFlags || v.flag in noValuesFlags {
          return false, v';
        }
        TakeValue(v.flag, current);
        v' := v'.(valuesFound := true);
      }
      ok := true;
    }

    /** The loop of validateInput, with the variables it leaves behind. */
    method ScanTokens(input: seq<string>) returns (ok: bool, v: Vars)
      modifies this`requiredFlags, this`optionalFlags, this`foundFlags, this`overridingFlagFound
      ensures Settings() == old(Settings())
      ensures var r := ReadAll(old(Settings()), old(State(Vars(true, false, false, "", 0))), input);
              if ok then r == Some(State(v)) else r == None
    {
      hide Read, ReadAll, Settings, State;
      ghost var c := Settings();
      v := Vars(true, false, false, "", 0);
      ghost var start := State(v);
      ReadNothing(c, start);
      var i := 0;
      assert input[..0] == [];
      while i < |input|
        invariant 0 <= i <= |input| && Settings() == c && ReadAll(c, start, input[..i]) == Some(State(v))
      {
        ReadNext(c, start, input, i);
        ok, v := ReadToken(input[i], v);
        if !ok {
          return;
        }
        i := i + 1;
      }
      assert input[..i] == input;
      ok := true;
    }
  }

  lemma BeginCleared(required: map<string, seq<string>>, optional: map<string, seq<string>>)
    ensures var r, o := Cleared(required), Cleared(optional);
            && Begin(r, o) == Scan(true, false, false, "", [], false, 0, r, o)
            && Begin(r, o) == Begin(required, optional)
            && r.Keys == required.Keys && o.Keys == optional.Keys
  {
    ClearedKeys(required);
    ClearedKeys(optional);
  }

  lemma NoneOfThem(c: Config, fs: seq<string>, f: string)
    requires f in fs && f in c.looseDependencies && c.looseDependencies[f] != []
    requires forall i :: 0 <= i < |c.looseDependencies[f]| ==> c.looseDependencies[f][i] !in fs
    ensures !LooseDependenciesHold(c, fs)
  {
    assert forall d :: d in c.looseDependencies[f] ==> d !in fs;
  }

  lemma ClearedKeys(m: map<string, seq<string>>)
    ensures Cleared(m).Keys == m.Keys && Cleared(Cleared(m)) == Cleared(m)
  {
  }

  lemma ReadNothing(c: Config, s: Scan)
    ensures ReadAll(c, s, []) == Some(s)
  {
  }

  lemma ReadNext(c: Config, s: Scan, input: seq<string>, i: nat)
    requires i < |input|
    ensures ReadAll(c, s, input[..i + 1]) ==
            match ReadAll(c, s, input[..i]) case None => None case Some(r) => Read(c, r, input[i])
    ensures ReadAll(c, s, input[..i]).Some? && Read(c, ReadAll(c, s, input[..i]).value, input[i]).None? ==>
              ReadAll(c, s, input).None?
  {
    assert input[..i + 1][..i] == input[..i];
    hide Read;
    if ReadAll(c, s, input[..i + 1]).None? {
      ReadFails(c, s, input[..i + 1], input[i + 1..]);
      assert input[..i + 1] + input[i + 1..] == input;
    }
  }

  lemma {:induction false} ReadFails(c: Config, s: Scan, a: seq<string>, b: seq<string>)
    requires ReadAll(c, s, a).None?
    ensures ReadAll(c, s, a + b).None?
    decreases |b|
  {
    hide Read;
    if b == [] {
      assert a + b == a;
    } else {
      ReadFails(c, s, a, b[..|b| - 1]);
      assert (a + b)[..|a + b| - 1] == a + b[..|b| - 1];
    }
  }

  lemma AcceptsIs(c: Config, s: Scan)
    ensures Accepts(c, s) <==>
              && (s.overridingFound || !(|s.found| < c.minCount || s.requiredFound < |c.required|))
              && !(s.flagWasFound && !s.valuesFound && Valued(c, s.flag))
              && DependenciesHold(c, s.found) && Compatible(c, s.found) && LooseDependenciesHold(c, s.found)
  {
  }

  /** What the theorem says once the scanner has failed ... */
  lemma Rejected(c: Config, s: Scan, input: seq<string>)
    requires Exclusive(c) && s.requiredValues.Keys == c.required && s.optionalValues.Keys == c.optional
    requires s == Begin(s.requiredValues, s.optionalValues) && ReadAll(c, s, input).None?
    ensures !exists r :: Render(r) == input && Good(c, r)
  {
    hide ReadAll, Good, Render, Exclusive;
    Validates(c, s, input);
  }

  /** ... and once it has read everything. */
  lemma Accepted(c: Config, s: Scan, input: seq<string>)
    requires Exclusive(c) && s.requiredValues.Keys == c.required && s.optionalValues.Keys == c.optional
    requires s == Begin(s.requiredValues, s.optionalValues) && ReadAll(c, s, input).Some?
    ensures var s' := ReadAll(c, s, input).value;
            && (Accepts(c, s') <==> exists r :: Render(r) == input && Good(c, r))
            && (Accepts(c, s') ==>
                  var r := ReadingOf(c, input);
                  && Render(r) == input && Good(c, r) && s'.found == FlagsOf(r.groups)
                  && Holds(s'.requiredValues, r.groups) && Holds(s'.optionalValues, r.groups)
                  && (!c.ignoreUnknown ==> Respelled(s'.found, s'.requiredValues, s'.optionalValues) == input))
  {
    hide ReadAll, Good, Render, Exclusive, Accepts, Holds, ReadingOf, TracksLast, Respelled;
    Validates(c, s, input);
    OneReading(c, input);
    var r, s' := ReadingOf(c, input), ReadAll(c, s, input).value;
    if Good(c, r) && !c.ignoreUnknown { RespelledIs(c, r, s'.requiredValues, s'.optionalValues); }
  }

  /** The flags found, each with the values its table has for it. */
  function Respelled(found: seq<string>, required: map<string, seq<string>>, optional: map<string, seq<string>>)
    : seq<string>
  {
    if found == [] then []
    else
      var f := found[|found| - 1];
      Respelled(found[..|found| - 1], required, optional) + ["-" + f] + ValuesOf(f, required, optional)
  }

  function ValuesOf(f: string, required: map<string, seq<string>>, optional: map<string, seq<string>>): seq<string> {
    if f in required then required[f] else if f in optional then optional[f] else []
  }

  lemma {:induction false} RespelledGroups(c: Config, gs: seq<Group>, required: map<string, seq<string>>,
                                           optional: map<string, seq<string>>)
    requires forall i :: 0 <= i < |gs| ==>
               gs[i].skipped == [] && gs[i].values == ValuesOf(gs[i].flag, required, optional)
    ensures Respelled(FlagsOf(gs), required, optional) == RenderGroups(gs)
    decreases |gs|
  {
    hide ValuesOf;
    if gs != [] {
      var front := gs[..|gs| - 1];
      RespelledGroups(c, front, required, optional);
      assert FlagsOf(gs)[..|gs| - 1] == FlagsOf(front);
      hide FlagsOf;
      LastRespelled(Last(gs), RenderGroups(front));
    }
  }

  lemma LastRespelled(g: Group, front: seq<string>)
    requires g.skipped == []
    ensures front + ["-" + g.flag] + g.values == front + RenderGroup(g)
  {
    assert ["-" + g.flag] + g.values + [] == ["-" + g.flag] + g.values;
  }

  /** Unless unknown flags are passed over, the findings spell the input. */
  lemma RespelledIs(c: Config, r: Reading, required: map<string, seq<string>>, optional: map<string, seq<string>>)
    requires Good(c, r) && !c.ignoreUnknown
    requires required.Keys == c.required && optional.Keys == c.optional
    requires Holds(required, r.groups) && Holds(optional, r.groups)
    ensures Respelled(FlagsOf(r.groups), required, optional) == Render(r)
  {
    var gs := r.groups;
    hide Respelled, RenderGroups, PlainGroup, SkipsValue, Complete, Related, Distinct;
    forall i | 0 <= i < |gs| ensures gs[i].skipped == [] && gs[i].values == ValuesOf(gs[i].flag, required, optional) {
      if i == |gs| - 1 { assert gs[i] == Last(gs); }
    }
    RespelledGroups(c, gs, required, optional);
    assert [] + RenderGroups(gs) == RenderGroups(gs);
  }
}

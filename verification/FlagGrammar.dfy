/** Command lines as groups: a known flag and the values after it. What Flags accepts,
    said about groups. */
module FlagGrammar {
  /** A known flag and its values. What comes from the first unknown flag on, up to the
      next known one, is `skipped`: unknown flags, and values that go nowhere. */
  datatype Group = Group(flag: string, values: seq<string>, skipped: seq<string>)

  /** An input: what comes before the first known flag, and the groups. */
  datatype Reading = Reading(lead: seq<string>, groups: seq<Group>)

  datatype Config = Config(
    required: set<string>,
    optional: set<string>,
    noValues: seq<string>,
    overriding: seq<string>,
    dependencies: map<string, seq<string>>,
    looseDependencies: map<string, seq<string>>,
    incompatible: map<string, seq<string>>,
    ignoreUnknown: bool,
    minCount: nat)

  predicate IsFlag(t: string) { |t| > 0 && t[0] == '-' }

  predicate Known(c: Config, f: string) {
    f in c.required || f in c.optional || f in c.noValues || f in c.overriding
  }

  /** A flag needs values. */
  predicate Valued(c: Config, f: string) { f in c.required || f in c.optional }

  /** No flag is declared in two ways. */
  ghost predicate Exclusive(c: Config) {
    forall f :: && !(f in c.required && f in c.optional) && !(Valued(c, f) && (f in c.noValues || f in c.overriding))
                && !(f in c.noValues && f in c.overriding)
  }

  predicate IsKnownFlag(c: Config, t: string) { IsFlag(t) && Known(c, t[1..]) }

  predicate IsUnknownFlag(c: Config, t: string) { IsFlag(t) && !Known(c, t[1..]) }

  // ----- groups

  function Last(gs: seq<Group>): Group
    requires gs != []
  {
    gs[|gs| - 1]
  }

  function RenderGroup(g: Group): seq<string> { ["-" + g.flag] + g.values + g.skipped }

  function RenderGroups(gs: seq<Group>): seq<string> {
    if gs == [] then [] else RenderGroups(gs[..|gs| - 1]) + RenderGroup(Last(gs))
  }

  function Render(r: Reading): seq<string> { r.lead + RenderGroups(r.groups) }

  function FlagsOf(gs: seq<Group>): (r: seq<string>)
    ensures |r| == |gs| && forall i :: 0 <= i < |gs| ==> r[i] == gs[i].flag
  {
    seq(|gs|, i requires 0 <= i < |gs| => gs[i].flag)
  }

  predicate Distinct(fs: seq<string>) { forall i, j :: 0 <= i < j < |fs| ==> fs[i] != fs[j] }

  /** Values are plain; what is skipped begins with an unknown flag and has no known one. */
  predicate PlainGroup(c: Config, g: Group) {
    && Known(c, g.flag)
    && (forall v :: v in g.values ==> !IsFlag(v))
    && (g.skipped != [] ==> IsUnknownFlag(c, g.skipped[0]))
    && forall t :: t in g.skipped ==> !IsKnownFlag(c, t)
  }

  /** Only flags that need values have some; nothing is skipped behind an overriding flag,
      and nothing at all unless that was asked for. */
  predicate GroupFits(c: Config, g: Group) {
    && PlainGroup(c, g)
    && (g.values != [] ==> Valued(c, g.flag))
    && (g.skipped != [] ==> c.ignoreUnknown && g.flag !in c.overriding)
  }

  predicate SkipsValue(g: Group) { exists t :: t in g.skipped && !IsFlag(t) }

  /** A group as it may stand anywhere but at the end: a flag that needs values has one,
      be it a skipped one. */
  predicate GroupOk(c: Config, g: Group) {
    GroupFits(c, g) && (Valued(c, g.flag) ==> g.values != [] || SkipsValue(g))
  }

  /** At the end anything that is skipped will do. */
  predicate LastOk(c: Config, g: Group) {
    GroupFits(c, g) && (Valued(c, g.flag) ==> g.values != [] || g.skipped != [])
  }

  /** Before the first known flag there are only unknown ones. */
  predicate LeadOk(c: Config, lead: seq<string>) {
    (lead != [] ==> c.ignoreUnknown) && forall t :: t in lead ==> IsUnknownFlag(c, t)
  }

  predicate DependenciesHold(c: Config, fs: seq<string>) {
    forall f :: f in fs && f in c.dependencies ==> forall d :: d in c.dependencies[f] ==> d in fs
  }

  predicate LooseDependenciesHold(c: Config, fs: seq<string>) {
    forall f :: f in fs && f in c.looseDependencies && c.looseDependencies[f] != [] ==>
      exists d :: d in c.looseDependencies[f] && d in fs
  }

  predicate Compatible(c: Config, fs: seq<string>) {
    forall f :: f in fs && f in c.incompatible ==> forall d :: d in c.incompatible[f] ==> d !in fs
  }

  predicate Related(c: Config, fs: seq<string>) {
    DependenciesHold(c, fs) && Compatible(c, fs) && LooseDependenciesHold(c, fs)
  }

  /** Enough flags, and all required ones. */
  predicate Complete(c: Config, fs: seq<string>) {
    |fs| >= c.minCount && forall f :: f in c.required ==> f in fs
  }

  /** A valid input. An overriding flag can only be the last one, and then nothing else is
      asked for. */
  predicate Good(c: Config, r: Reading) {
    && LeadOk(c, r.lead)
    && (forall i :: 0 <= i < |r.groups| - 1 ==> GroupOk(c, r.groups[i]) && r.groups[i].flag !in c.overriding)
    && (r.groups != [] ==> LastOk(c, Last(r.groups)))
    && Distinct(FlagsOf(r.groups))
    && ((r.groups != [] && Last(r.groups).flag in c.overriding) || Complete(c, FlagsOf(r.groups)))
    && Related(c, FlagsOf(r.groups))
  }

  // ----- reading groups

  function AddToGroup(g: Group, t: string): Group {
    if IsFlag(t) || g.skipped != [] then g.(skipped := g.skipped + [t]) else g.(values := g.values + [t])
  }

  function AddToken(c: Config, r: Reading, t: string): Reading {
    if IsKnownFlag(c, t) then r.(groups := r.groups + [Group(t[1..], [], [])])
    else if r.groups == [] then r.(lead := r.lead + [t])
    else r.(groups := r.groups[..|r.groups| - 1] + [AddToGroup(Last(r.groups), t)])
  }

  /** What an input consists of. */
  function ReadingOf(c: Config, input: seq<string>): Reading {
    if input == [] then Reading([], [])
    else AddToken(c, ReadingOf(c, input[..|input| - 1]), input[|input| - 1])
  }

  lemma RenderLast(gs: seq<Group>, g: Group)
    ensures RenderGroups(gs + [g]) == RenderGroups(gs) + RenderGroup(g)
  {
    assert (gs + [g])[..|gs|] == gs;
  }

  lemma FlagToken(t: string)
    requires IsFlag(t)
    ensures "-" + t[1..] == t
  {
  }

  lemma ReadingLast(c: Config, input: seq<string>)
    requires input != []
    ensures ReadingOf(c, input) == AddToken(c, ReadingOf(c, input[..|input| - 1]), input[|input| - 1])
  {
  }

  lemma ReadOne(c: Config, input: seq<string>, t: string)
    ensures ReadingOf(c, input + [t]) == AddToken(c, ReadingOf(c, input), t)
  {
    assert (input + [t])[..|input|] == input;
  }

  /** A reading spells out the input. */
  lemma {:induction false} ReadingRendered(c: Config, input: seq<string>)
    ensures Render(ReadingOf(c, input)) == input
    decreases |input|
  {
    if input != [] {
      var front, t := input[..|input| - 1], input[|input| - 1];
      ReadingLast(c, input);
      ReadingRendered(c, front);
      hide Render, ReadingOf, AddToken;
      RenderAdded(c, ReadingOf(c, front), t);
      assert front + [t] == input;
    }
  }

  lemma RenderAdded(c: Config, r: Reading, t: string)
    ensures Render(AddToken(c, r, t)) == Render(r) + [t]
  {
    hide RenderGroups, RenderGroup, AddToGroup, Known;
    var gs := r.groups;
    if IsKnownFlag(c, t) {
      RenderLast(gs, Group(t[1..], [], []));
      RenderFlag(c, t);
    } else if gs == [] {
      NothingRendered();
      assert r.lead + [t] + [] == r.lead + [] + [t];
    } else {
      var front, g := gs[..|gs| - 1], Last(gs);
      assert gs == front + [g];
      RenderLast(front, g);
      RenderLast(front, AddToGroup(g, t));
      RenderToken(g, t);
    }
    assert r.lead + (RenderGroups(gs) + [t]) == r.lead + RenderGroups(gs) + [t];
  }

  lemma NothingRendered()
    ensures RenderGroups([]) == []
  {
  }

  lemma RenderFlag(c: Config, t: string)
    requires IsKnownFlag(c, t)
    ensures RenderGroup(Group(t[1..], [], [])) == [t]
  {
    FlagToken(t);
  }

  lemma RenderToken(g: Group, t: string)
    ensures RenderGroup(AddToGroup(g, t)) == RenderGroup(g) + [t]
  {
  }

  // ----- one reading

  /** Before the first known flag there is none, and all groups are plain. */
  predicate Plain(c: Config, r: Reading) {
    && (forall t :: t in r.lead ==> !IsKnownFlag(c, t))
    && forall i :: 0 <= i < |r.groups| ==> PlainGroup(c, r.groups[i])
  }

  lemma {:induction false} ReadLead(c: Config, lead: seq<string>)
    requires forall t :: t in lead ==> !IsKnownFlag(c, t)
    ensures ReadingOf(c, lead) == Reading(lead, [])
    decreases |lead|
  {
    if lead != [] {
      var front, t := lead[..|lead| - 1], lead[|lead| - 1];
      hide IsKnownFlag, ReadingOf;
      assert forall u :: u in front ==> u in lead;
      assert t in lead && front + [t] == lead;
      ReadLead(c, front);
      ReadOne(c, front, t);
    }
  }

  lemma ReadFlagToken(c: Config, input: seq<string>, r: Reading, f: string)
    requires ReadingOf(c, input) == r && Known(c, f)
    ensures ReadingOf(c, input + ["-" + f]) == r.(groups := r.groups + [Group(f, [], [])])
  {
    hide Known, ReadingOf;
    ReadOne(c, input, "-" + f);
    assert ("-" + f)[1..] == f;
  }

  /** Tokens that belong to the last group. */
  lemma ReadMore(c: Config, input: seq<string>, r: Reading, g: Group, t: string)
    requires ReadingOf(c, input) == r.(groups := r.groups + [g]) && !IsKnownFlag(c, t)
    ensures ReadingOf(c, input + [t]) == r.(groups := r.groups + [AddToGroup(g, t)])
  {
    hide IsKnownFlag, ReadingOf, AddToGroup;
    ReadOne(c, input, t);
    var gs := r.groups + [g];
    assert gs[..|gs| - 1] == r.groups && Last(gs) == g;
  }

  lemma {:induction false} ReadValues(c: Config, input: seq<string>, r: Reading, f: string, values: seq<string>)
    requires ReadingOf(c, input) == r && Known(c, f) && forall v :: v in values ==> !IsFlag(v)
    ensures ReadingOf(c, input + (["-" + f] + values)) == r.(groups := r.groups + [Group(f, values, [])])
    decreases |values|
  {
    hide ReadingOf, Known, IsFlag;
    if values == [] {
      ReadFlagToken(c, input, r, f);
      assert ["-" + f] + values == ["-" + f];
    } else {
      var front, v := values[..|values| - 1], values[|values| - 1];
      assert v in values && front + [v] == values;
      ReadValues(c, input, r, f, front);
      ReadMore(c, input + (["-" + f] + front), r, Group(f, front, []), v);
      assert input + (["-" + f] + front) + [v] == input + (["-" + f] + values);
    }
  }

  lemma {:induction false} ReadSkipped(c: Config, input: seq<string>, r: Reading, f: string, values: seq<string>,
                                       skipped: seq<string>)
    requires ReadingOf(c, input) == r && PlainGroup(c, Group(f, values, skipped))
    ensures ReadingOf(c, input + RenderGroup(Group(f, values, skipped))) ==
            r.(groups := r.groups + [Group(f, values, skipped)])
    decreases |skipped|
  {
    hide ReadingOf, Known;
    if skipped == [] {
      ReadValues(c, input, r, f, values);
      assert RenderGroup(Group(f, values, skipped)) == ["-" + f] + values;
    } else {
      var front, t := skipped[..|skipped| - 1], skipped[|skipped| - 1];
      assert t in skipped && front + [t] == skipped;
      FrontPlain(c, Group(f, values, skipped));
      hide PlainGroup, IsFlag;
      ReadSkipped(c, input, r, f, values, front);
      ReadMore(c, input + RenderGroup(Group(f, values, front)), r, Group(f, values, front), t);
      assert input + RenderGroup(Group(f, values, front)) + [t] == input + RenderGroup(Group(f, values, skipped));
    }
  }

  lemma FrontPlain(c: Config, g: Group)
    requires PlainGroup(c, g) && g.skipped != []
    ensures PlainGroup(c, g.(skipped := g.skipped[..|g.skipped| - 1]))
    ensures var front, t := g.skipped[..|g.skipped| - 1], g.skipped[|g.skipped| - 1];
            !IsKnownFlag(c, t) && AddToGroup(g.(skipped := front), t) == g
  {
    hide Known;
    var front := g.skipped[..|g.skipped| - 1];
    assert forall t :: t in front ==> t in g.skipped;
    assert front + [g.skipped[|g.skipped| - 1]] == g.skipped;
    if front != [] { assert front[0] == g.skipped[0]; }
  }

  /** An input has one plain reading. */
  lemma {:induction false} OnlyReading(c: Config, r: Reading)
    requires Plain(c, r)
    ensures ReadingOf(c, Render(r)) == r
    decreases |r.groups|
  {
    hide ReadingOf, RenderGroup, PlainGroup, IsKnownFlag;
    if r.groups == [] {
      ReadLead(c, r.lead);
      assert r.lead + [] == r.lead;
    } else {
      var gs, g := r.groups[..|r.groups| - 1], Last(r.groups);
      var front := r.(groups := gs);
      OnlyReading(c, front);
      ReadSkipped(c, Render(front), front, g.flag, g.values, g.skipped);
      assert gs + [g] == r.groups;
      assert r.lead + RenderGroups(gs) + RenderGroup(g) == r.lead + (RenderGroups(gs) + RenderGroup(g));
    }
  }

  lemma GoodPlain(c: Config, r: Reading)
    requires Good(c, r)
    ensures Plain(c, r)
  {
    hide Known, IsFlag, Complete, Related, Distinct, SkipsValue;
    forall i | 0 <= i < |r.groups| ensures PlainGroup(c, r.groups[i]) {
      if i == |r.groups| - 1 { assert r.groups[i] == Last(r.groups); }
    }
  }

  /** Some reading is good, or: the one reading is good. */
  lemma OneReading(c: Config, input: seq<string>)
    ensures (exists r :: Render(r) == input && Good(c, r)) <==> Good(c, ReadingOf(c, input))
  {
    hide Good, Render, ReadingOf;
    if r :| Render(r) == input && Good(c, r) {
      GoodPlain(c, r);
      OnlyReading(c, r);
    }
    if Good(c, ReadingOf(c, input)) { ReadingRendered(c, input); }
  }

  // ----- flags without values

  /** Unless unknown flags are passed over, every flag that needs values has its own. */
  lemma ValuesPresent(c: Config, r: Reading)
    requires Good(c, r) && !c.ignoreUnknown
    ensures forall g :: g in r.groups && Valued(c, g.flag) ==> g.values != []
  {
    hide PlainGroup, Complete, Related, Distinct, Valued, LeadOk;
    forall g | g in r.groups && Valued(c, g.flag) ensures g.values != [] {
      var i :| 0 <= i < |r.groups| && r.groups[i] == g;
      if i == |r.groups| - 1 { assert g == Last(r.groups); }
    }
  }

  /** If they are, a required flag with nothing but an unknown flag behind it is accepted. */
  lemma ValueMissing(f: string, u: string)
    requires f != u
    ensures var c := Config({f}, {}, [], [], map[], map[], map[], true, 0);
            Good(c, Reading([], [Group(f, [], ["-" + u])]))
  {
    var c := Config({f}, {}, [], [], map[], map[], map[], true, 0);
    var g := Group(f, [], ["-" + u]);
    assert ("-" + u)[1..] == u;
    assert PlainGroup(c, g);
    assert FlagsOf([g]) == [f];
  }

  // ----- the order of groups

  lemma InBoth(a: seq<Group>, b: seq<Group>)
    requires multiset(a) == multiset(b)
    ensures |a| == |b| && forall g :: g in a <==> g in b
  {
    assert |multiset(a)| == |multiset(b)|;
    forall g ensures g in a <==> g in b {
      assert g in multiset(a) <==> g in multiset(b);
    }
  }

  lemma FlagIn(gs: seq<Group>, f: string)
    ensures f in FlagsOf(gs) <==> exists g: Group :: g in gs && g.flag == f
  {
    if f in FlagsOf(gs) {
      var i :| 0 <= i < |gs| && FlagsOf(gs)[i] == f;
      assert gs[i] in gs;
    }
    if g: Group :| g in gs && g.flag == f {
      var i :| 0 <= i < |gs| && gs[i] == g;
      assert FlagsOf(gs)[i] == f;
    }
  }

  lemma SameFlags(a: seq<Group>, b: seq<Group>)
    requires multiset(a) == multiset(b)
    ensures forall f :: f in FlagsOf(a) <==> f in FlagsOf(b)
  {
    InBoth(a, b);
    forall f ensures f in FlagsOf(a) <==> f in FlagsOf(b) {
      FlagIn(a, f);
      FlagIn(b, f);
    }
  }

  lemma TwiceIn(gs: seq<Group>, i: nat, j: nat)
    requires i < j < |gs|
    ensures gs[i] == gs[j] ==> multiset(gs)[gs[i]] >= 2
  {
    assert gs == gs[..j] + [gs[j]] + gs[j + 1..];
    assert gs[..j][i] in gs[..j];
  }

  lemma {:induction false} OnceIn(gs: seq<Group>, g: Group)
    requires Distinct(FlagsOf(gs))
    ensures multiset(gs)[g] <= 1
    decreases |gs|
  {
    if gs != [] {
      var front := gs[..|gs| - 1];
      assert gs == front + [Last(gs)];
      assert forall i :: 0 <= i < |front| ==> FlagsOf(front)[i] == FlagsOf(gs)[i];
      assert Distinct(FlagsOf(front));
      OnceIn(front, g);
      forall i | 0 <= i < |front| ensures front[i] != Last(gs) {
        assert FlagsOf(gs)[i] != FlagsOf(gs)[|gs| - 1];
      }
    }
  }

  lemma OneGroup(gs: seq<Group>, g: Group, h: Group)
    requires Distinct(FlagsOf(gs)) && g in gs && h in gs
    ensures g.flag == h.flag ==> g == h
  {
    var k :| 0 <= k < |gs| && gs[k] == g;
    var l :| 0 <= l < |gs| && gs[l] == h;
    assert FlagsOf(gs)[k] == g.flag && FlagsOf(gs)[l] == h.flag;
  }

  lemma PermutedDistinct(a: seq<Group>, b: seq<Group>)
    requires multiset(a) == multiset(b) && Distinct(FlagsOf(a))
    ensures Distinct(FlagsOf(b))
  {
    InBoth(a, b);
    forall i, j | 0 <= i < j < |b| ensures b[i].flag != b[j].flag {
      assert b[i] in a && b[j] in a;
      TwiceIn(b, i, j);
      OnceIn(a, b[i]);
      OneGroup(a, b[i], b[j]);
    }
  }

  lemma SameComplete(c: Config, a: seq<string>, b: seq<string>)
    requires |a| == |b| && forall f :: f in a <==> f in b
    ensures Complete(c, a) == Complete(c, b) && Related(c, a) == Related(c, b)
  {
  }

  /** Without overriding flags, valid groups are valid in any order; if unknown flags are
      passed over, given that the last one would do at another place. */
  lemma OrderIsFree(c: Config, lead: seq<string>, a: seq<Group>, b: seq<Group>)
    requires multiset(a) == multiset(b) && Good(c, Reading(lead, a)) && forall g :: g in a ==> g.flag !in c.overriding
    requires c.ignoreUnknown && a != [] ==> GroupOk(c, Last(a))
    ensures Good(c, Reading(lead, b))
  {
    InBoth(a, b);
    SameFlags(a, b);
    PermutedDistinct(a, b);
    SameComplete(c, FlagsOf(a), FlagsOf(b));
    if a != [] { assert Last(a) in a; LastIsOk(c, lead, a); }
    hide Distinct, Complete, Related, GroupOk, LastOk, LeadOk;
    forall g | g in a ensures GroupOk(c, g) {
      var i :| 0 <= i < |a| && a[i] == g;
      if i == |a| - 1 { assert g == Last(a); }
    }
    forall i | 0 <= i < |b| ensures GroupOk(c, b[i]) && b[i].flag !in c.overriding {
      assert b[i] in a;
    }
    if b != [] { OkAtEnd(c, Last(b)); }
  }

  lemma LastIsOk(c: Config, lead: seq<string>, a: seq<Group>)
    requires Good(c, Reading(lead, a)) && a != [] && (c.ignoreUnknown ==> GroupOk(c, Last(a)))
    ensures GroupOk(c, Last(a))
  {
    hide PlainGroup, Complete, Related, Distinct, Valued, LeadOk;
  }

  lemma OkAtEnd(c: Config, g: Group)
    requires GroupOk(c, g)
    ensures LastOk(c, g)
  {
    hide PlainGroup, Valued;
  }
}

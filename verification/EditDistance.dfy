/** StringUtils::levenshteinDistance keeps two rows of the table of distances between
    prefixes. What it returns is the length of a shortest path of single-character
    edits, and hence a metric. */
module EditDistance {
  type Char = int

  type Word = seq<Char>

  function Min(a: nat, b: nat): nat { if b < a then b else a }

  function Front(w: Word): Word
    requires w != []
  {
    w[..|w| - 1]
  }

  function Last(w: Word): Char
    requires w != []
  {
    w[|w| - 1]
  }

  function Cost(a: Char, b: Char): nat { if a == b then 0 else 1 }

  /** The table's entry for two prefixes. */
  function Table(s: Word, t: Word): nat
    decreases |s| + |t|
  {
    if s == [] then |t|
    else if t == [] then |s|
    else Min(Min(Table(s, Front(t)) + 1, Table(Front(s), t) + 1), Table(Front(s), Front(t)) + Cost(Last(s), Last(t)))
  }

  // ----- edits

  ghost predicate Deletes(a: Word, b: Word) {
    exists i :: 0 <= i < |a| && b == a[..i] + a[i + 1..]
  }

  ghost predicate Replaces(a: Word, b: Word) {
    |a| == |b| && exists i :: 0 <= i < |a| && a[i] != b[i] && b == a[i := b[i]]
  }

  /** One character deleted, inserted or replaced by another. */
  ghost predicate Edit(a: Word, b: Word) {
    Deletes(a, b) || Deletes(b, a) || Replaces(a, b)
  }

  /** A path of single edits from `s` to `t`. */
  ghost predicate Path(p: seq<Word>, s: Word, t: Word) {
    && p != [] && p[0] == s && p[|p| - 1] == t
    && forall i :: 0 <= i < |p| - 1 ==> Edit(p[i], p[i + 1])
  }

  lemma DeletesBack(a: Word, c: Char)
    ensures Deletes(a + [c], a)
  {
    assert a == (a + [c])[..|a|] + (a + [c])[|a| + 1..];
  }

  lemma ReplacesBack(a: Word, x: Char, y: Char)
    requires x != y
    ensures Replaces(a + [x], a + [y])
  {
    assert a + [y] == (a + [x])[|a| := y] && (a + [x])[|a|] != (a + [y])[|a|];
  }

  lemma DeletesAppend(a: Word, b: Word, c: Char)
    requires Deletes(a, b)
    ensures Deletes(a + [c], b + [c])
  {
    var i :| 0 <= i < |a| && b == a[..i] + a[i + 1..];
    assert b + [c] == (a + [c])[..i] + (a + [c])[i + 1..];
  }

  lemma ReplacesAppend(a: Word, b: Word, c: Char)
    requires Replaces(a, b)
    ensures Replaces(a + [c], b + [c])
  {
    var i :| 0 <= i < |a| && a[i] != b[i] && b == a[i := b[i]];
    assert (b + [c])[i] == b[i] && (a + [c])[i] == a[i];
    assert b + [c] == (a + [c])[i := b[i]];
  }

  lemma EditAppend(a: Word, b: Word, c: Char)
    requires Edit(a, b)
    ensures Edit(a + [c], b + [c])
  {
    hide Deletes, Replaces;
    if Deletes(a, b) { DeletesAppend(a, b, c); }
    else if Deletes(b, a) { DeletesAppend(b, a, c); }
    else { ReplacesAppend(a, b, c); }
  }

  lemma PathStep(p: seq<Word>, s: Word, t: Word, u: Word)
    requires Path(p, s, t) && Edit(t, u)
    ensures Path(p + [u], s, u)
  {
    hide Edit;
  }

  lemma PathJoin(p: seq<Word>, q: seq<Word>, s: Word, t: Word, u: Word)
    requires Path(p, s, t) && Path(q, t, u)
    ensures Path(p + q[1..], s, u)
  {
    hide Edit;
    var r := p + q[1..];
    forall i | 0 <= i < |r| - 1 ensures Edit(r[i], r[i + 1]) {
      if i >= |p| - 1 {
        var k := i - (|p| - 1);
        assert r[i] == q[k] && r[i + 1] == q[k + 1];
      }
    }
    if |q| > 1 { assert r[|r| - 1] == q[|q| - 1]; } else { assert r[|r| - 1] == p[|p| - 1]; }
  }

  /** The same edits with a character behind them. */
  function Behind(p: seq<Word>, c: Char): (r: seq<Word>)
    ensures |r| == |p| && forall i :: 0 <= i < |p| ==> r[i] == p[i] + [c]
  {
    seq(|p|, i requires 0 <= i < |p| => p[i] + [c])
  }

  lemma PathBehind(p: seq<Word>, s: Word, t: Word, c: Char)
    requires Path(p, s, t)
    ensures Path(Behind(p, c), s + [c], t + [c])
  {
    var r := Behind(p, c);
    hide Edit, Behind;
    forall i | 0 <= i < |r| - 1 ensures Edit(r[i], r[i + 1]) {
      EditAppend(p[i], p[i + 1], c);
    }
  }

  // ----- the distance is reached

  lemma FrontLast(w: Word)
    requires w != []
    ensures w == Front(w) + [Last(w)]
  {
  }

  lemma {:induction false} PathFromEmpty(t: Word) returns (p: seq<Word>)
    ensures Path(p, [], t) && |p| == |t| + 1
    decreases |t|
  {
    if t == [] {
      p := [[]];
    } else {
      p := PathFromEmpty(Front(t));
      DeletesBack(Front(t), Last(t));
      FrontLast(t);
      hide Deletes, Replaces;
      PathStep(p, [], Front(t), t);
      p := p + [t];
    }
  }

  lemma {:induction false} PathToEmpty(s: Word) returns (p: seq<Word>)
    ensures Path(p, s, []) && |p| == |s| + 1
    decreases |s|
  {
    if s == [] {
      p := [[]];
    } else {
      p := PathToEmpty(Front(s));
      DeletesBack(Front(s), Last(s));
      FrontLast(s);
      hide Deletes, Replaces;
      PathJoin([s, Front(s)], p, s, Front(s), []);
      p := [s, Front(s)] + p[1..];
    }
  }

  lemma TableIs(s: Word, t: Word)
    requires s != [] && t != []
    ensures Table(s, t) <= Table(s, Front(t)) + 1 && Table(s, t) <= Table(Front(s), t) + 1
    ensures Table(s, t) <= Table(Front(s), Front(t)) + Cost(Last(s), Last(t))
    ensures || Table(s, t) == Table(s, Front(t)) + 1
            || Table(s, t) == Table(Front(s), t) + 1
            || Table(s, t) == Table(Front(s), Front(t)) + Cost(Last(s), Last(t))
  {
  }

  /** Some path has as many edits as the table says. */
  lemma {:induction false} Reached(s: Word, t: Word) returns (p: seq<Word>)
    ensures Path(p, s, t) && |p| == Table(s, t) + 1
    decreases |s| + |t|
  {
    hide Edit, Path;
    if s == [] {
      p := PathFromEmpty(t);
    } else if t == [] {
      p := PathToEmpty(s);
    } else {
      TableIs(s, t);
      if Table(s, t) == Table(s, Front(t)) + 1 {
        p := Reached(s, Front(t));
        p := InsertLast(p, s, t);
      } else if Table(s, t) == Table(Front(s), t) + 1 {
        p := Reached(Front(s), t);
        p := DeleteLast(p, s, t);
      } else {
        p := Reached(Front(s), Front(t));
        p := KeepLast(p, s, t);
      }
    }
  }

  lemma InsertLast(p: seq<Word>, s: Word, t: Word) returns (r: seq<Word>)
    requires t != [] && Path(p, s, Front(t))
    ensures Path(r, s, t) && |r| == |p| + 1
  {
    DeletesBack(Front(t), Last(t));
    FrontLast(t);
    hide Deletes, Replaces, Path;
    PathStep(p, s, Front(t), t);
    r := p + [t];
  }

  lemma DeleteLast(p: seq<Word>, s: Word, t: Word) returns (r: seq<Word>)
    requires s != [] && Path(p, Front(s), t)
    ensures Path(r, s, t) && |r| == |p| + 1
  {
    DeletesBack(Front(s), Last(s));
    FrontLast(s);
    hide Deletes, Replaces;
    PathJoin([s, Front(s)], p, s, Front(s), t);
    r := [s, Front(s)] + p[1..];
  }

  lemma KeepLast(p: seq<Word>, s: Word, t: Word) returns (r: seq<Word>)
    requires s != [] && t != [] && Path(p, Front(s), Front(t))
    ensures Path(r, s, t) && |r| == |p| + Cost(Last(s), Last(t))
  {
    FrontLast(s);
    FrontLast(t);
    PathBehind(p, Front(s), Front(t), Last(s));
    r := Behind(p, Last(s));
    if Last(s) != Last(t) {
      ReplacesBack(Front(t), Last(s), Last(t));
      hide Deletes, Replaces, Path, Behind;
      PathStep(r, s, Front(t) + [Last(s)], t);
      r := r + [t];
    }
  }

  // ----- no path is shorter

  ghost predicate Near(a: Word, b: Word) {
    forall t :: Table(a, t) <= Table(b, t) + 1
  }

  lemma Appended(a: Word, c: Char)
    ensures a + [c] != [] && Front(a + [c]) == a && Last(a + [c]) == c
  {
  }

  lemma TableEmpty(a: Word)
    ensures Table(a, []) == |a| && Table([], a) == |a|
  {
  }

  lemma TableFront(s: Word, t: Word)
    requires t != []
    ensures Table(s, t) <= Table(s, Front(t)) + 1
  {
  }

  lemma LongerNear(a: Word, c: Char)
    ensures Near(a + [c], a)
  {
    Appended(a, c);
    forall t ensures Table(a + [c], t) <= Table(a, t) + 1 {
      if t == [] { TableEmpty(a); TableEmpty(a + [c]); } else { TableIs(a + [c], t); }
    }
  }

  lemma {:induction false} ShorterBy(a: Word, c: Char, t: Word)
    ensures Table(a, t) <= Table(a + [c], t) + 1
    decreases |t|
  {
    hide Table;
    Appended(a, c);
    if t == [] {
      TableEmpty(a);
      TableEmpty(a + [c]);
    } else {
      TableIs(a + [c], t);
      TableFront(a, t);
      ShorterBy(a, c, Front(t));
    }
  }

  lemma {:induction false} ReplacedBy(a: Word, x: Char, y: Char, t: Word)
    ensures Table(a + [x], t) <= Table(a + [y], t) + 1
    decreases |t|
  {
    hide Table;
    Appended(a, x);
    Appended(a, y);
    if t == [] {
      TableEmpty(a + [x]);
      TableEmpty(a + [y]);
    } else {
      TableIs(a + [y], t);
      TableIs(a + [x], t);
      ReplacedBy(a, x, y, Front(t));
    }
  }

  lemma {:induction false} NearBehindAt(a: Word, b: Word, c: Char, t: Word)
    requires Near(a, b)
    ensures Table(a + [c], t) <= Table(b + [c], t) + 1
    decreases |t|
  {
    hide Table;
    Appended(a, c);
    Appended(b, c);
    if t == [] {
      TableEmpty(a + [c]);
      TableEmpty(b + [c]);
      TableEmpty(a);
      TableEmpty(b);
      assert Table(a, []) <= Table(b, []) + 1;
    } else {
      TableIs(a + [c], t);
      TableIs(b + [c], t);
      NearBehindAt(a, b, c, Front(t));
      assert Table(a, t) <= Table(b, t) + 1 && Table(a, Front(t)) <= Table(b, Front(t)) + 1;
    }
  }

  lemma {:induction false} NearBehind(a: Word, b: Word, q: Word)
    requires Near(a, b)
    ensures Near(a + q, b + q)
    decreases |q|
  {
    if q == [] {
      assert a + q == a && b + q == b;
    } else {
      forall t ensures Table(a + [q[0]], t) <= Table(b + [q[0]], t) + 1 {
        NearBehindAt(a, b, q[0], t);
      }
      NearBehind(a + [q[0]], b + [q[0]], q[1..]);
      assert a + [q[0]] + q[1..] == a + q && b + [q[0]] + q[1..] == b + q;
    }
  }

  lemma DeletesNear(a: Word, b: Word)
    requires Deletes(a, b)
    ensures Near(a, b) && Near(b, a)
  {
    hide Table;
    var i :| 0 <= i < |a| && b == a[..i] + a[i + 1..];
    LongerNear(a[..i], a[i]);
    forall t ensures Table(a[..i], t) <= Table(a[..i] + [a[i]], t) + 1 { ShorterBy(a[..i], a[i], t); }
    NearBehind(a[..i] + [a[i]], a[..i], a[i + 1..]);
    NearBehind(a[..i], a[..i] + [a[i]], a[i + 1..]);
    assert a == a[..i] + [a[i]] + a[i + 1..];
  }

  lemma ReplacesNear(a: Word, b: Word)
    requires Replaces(a, b)
    ensures Near(a, b)
  {
    hide Table;
    var i :| 0 <= i < |a| && a[i] != b[i] && b == a[i := b[i]];
    forall t ensures Table(a[..i] + [a[i]], t) <= Table(a[..i] + [b[i]], t) + 1 { ReplacedBy(a[..i], a[i], b[i], t); }
    NearBehind(a[..i] + [a[i]], a[..i] + [b[i]], a[i + 1..]);
    assert a == a[..i] + [a[i]] + a[i + 1..] && b == a[..i] + [b[i]] + a[i + 1..];
  }

  lemma EditNear(a: Word, b: Word, t: Word)
    requires Edit(a, b)
    ensures Table(a, t) <= Table(b, t) + 1
  {
    hide Table, Deletes, Replaces;
    if Deletes(a, b) { DeletesNear(a, b); }
    else if Deletes(b, a) { DeletesNear(b, a); }
    else { ReplacesNear(a, b); }
  }

  /** No path has fewer edits than the table says. */
  lemma {:induction false} NotBeaten(p: seq<Word>, s: Word, t: Word)
    requires Path(p, s, t)
    ensures Table(s, t) <= |p| - 1
    decreases |p|
  {
    hide Table, Edit;
    if |p| == 1 {
      SameIsZero(s);
    } else {
      assert Path(p[1..], p[1], t);
      NotBeaten(p[1..], p[1], t);
      EditNear(s, p[1], t);
    }
  }

  lemma {:induction false} SameIsZero(s: Word)
    ensures Table(s, s) == 0
    decreases |s|
  {
    if s != [] { SameIsZero(Front(s)); }
  }

  /** `d` edits are enough and fewer are not. */
  ghost predicate IsDistance(s: Word, t: Word, d: nat) {
    && (exists p :: Path(p, s, t) && |p| == d + 1)
    && forall p :: Path(p, s, t) ==> d <= |p| - 1
  }

  lemma Shortest(s: Word, t: Word)
    ensures forall d: nat :: IsDistance(s, t, d) <==> d == Table(s, t)
  {
    hide Table, Path;
    var p := Reached(s, t);
    forall q | Path(q, s, t) ensures Table(s, t) <= |q| - 1 { NotBeaten(q, s, t); }
    assert Path(p, s, t) && |p| == Table(s, t) + 1;
    forall d: nat | IsDistance(s, t, d) ensures d == Table(s, t) {
      var q :| Path(q, s, t) && |q| == d + 1;
    }
  }

  // ----- a metric

  lemma {:induction false} Symmetric(s: Word, t: Word)
    ensures Table(s, t) == Table(t, s)
    decreases |s| + |t|
  {
    if s != [] && t != [] {
      Symmetric(s, Front(t));
      Symmetric(Front(s), t);
      Symmetric(Front(s), Front(t));
    }
  }

  lemma {:induction false} ZeroIffEqual(s: Word, t: Word)
    ensures Table(s, t) == 0 <==> s == t
    decreases |s|
  {
    SameIsZero(s);
    if s != [] && t != [] && Table(s, t) == 0 {
      TableIs(s, t);
      ZeroIffEqual(Front(s), Front(t));
      FrontLast(s);
      FrontLast(t);
    }
  }

  lemma Triangle(s: Word, t: Word, u: Word)
    ensures Table(s, u) <= Table(s, t) + Table(t, u)
  {
    hide Table, Path;
    var p := Reached(s, t);
    var q := Reached(t, u);
    PathJoin(p, q, s, t, u);
    NotEmpty(q, t, u);
    NotBeaten(p + q[1..], s, u);
  }

  lemma NotEmpty(p: seq<Word>, s: Word, t: Word)
    requires Path(p, s, t)
    ensures p != []
  {
  }

  /** No entry exceeds the longer length, so an int holds it. */
  lemma {:induction false} TableBound(s: Word, t: Word)
    ensures Table(s, t) <= if |s| < |t| then |t| else |s|
    decreases |s|
  {
    if s != [] && t != [] { TableBound(Front(s), Front(t)); }
  }

  // ----- the program

  ghost predicate Row(v: seq<int>, s: Word, t: Word, n: nat)
    requires n <= |t| + 1
  {
    |v| == |t| + 1 && forall j :: 0 <= j < n ==> v[j] == Table(s, t[..j])
  }

  lemma FirstRow(v: seq<int>, t: Word)
    requires |v| == |t| + 1 && forall j :: 0 <= j < |v| ==> v[j] == j
    ensures Row(v, [], t, |t| + 1)
  {
  }

  /** The entry the formula computes. */
  lemma Entry(v0: seq<int>, v1: seq<int>, s: Word, t: Word, i: nat, j: nat)
    requires i < |s| && j < |t| && Row(v0, s[..i], t, |t| + 1) && Row(v1, s[..i + 1], t, j + 1)
    ensures v1[j] >= 0 && v0[j + 1] >= 0 && v0[j] >= 0
    ensures Min(Min(v1[j] + 1, v0[j + 1] + 1), v0[j] + Cost(s[i], t[j])) == Table(s[..i + 1], t[..j + 1])
  {
    assert Front(s[..i + 1]) == s[..i] && Front(t[..j + 1]) == t[..j];
    assert v1[j] == Table(s[..i + 1], t[..j]) && v0[j + 1] == Table(s[..i], t[..j + 1])
          && v0[j] == Table(s[..i], t[..j]);
  }

  method FillRow(v0: array<int>, v1: array<int>, s: Word, t: Word, i: nat)
    requires i < |s| && v0 != v1 && v1.Length == |t| + 1 && Row(v0[..], s[..i], t, |t| + 1)
    modifies v1
    ensures Row(v1[..], s[..i + 1], t, |t| + 1)
  {
    hide Table, Row;
    v1[0] := i + 1;
    RowStarts(v1[..], s, t, i);
    RowSize(v0[..], s[..i], t, |t| + 1);
    var j := 0;
    while j < |t|
      invariant 0 <= j <= |t|
      invariant Row(v1[..], s[..i + 1], t, j + 1)
    {
      Entry(v0[..], v1[..], s, t, i, j);
      var cost := if s[i] == t[j] then 0 else 1;
      ghost var before := v1[..];
      v1[j + 1] := Min(Min(v1[j] + 1, v0[j + 1] + 1), v0[j] + cost);
      RowGrows(before, v1[..], s[..i + 1], t, j);
      j := j + 1;
    }
  }

  lemma RowSize(v: seq<int>, s: Word, t: Word, n: nat)
    requires n <= |t| + 1 && Row(v, s, t, n)
    ensures |v| == |t| + 1
  {
  }

  lemma RowStarts(v: seq<int>, s: Word, t: Word, i: nat)
    requires i < |s| && |v| == |t| + 1 && v[0] == i + 1
    ensures Row(v, s[..i + 1], t, 1)
  {
    TableEmpty(s[..i + 1]);
  }

  lemma RowGrows(before: seq<int>, v: seq<int>, s: Word, t: Word, j: nat)
    requires j < |t| && Row(before, s, t, j + 1)
    requires j + 1 < |before| && v == before[j + 1 := Table(s, t[..j + 1])]
    ensures Row(v, s, t, j + 2)
  {
    hide Table;
  }

  method LevenshteinDistance(s: Word, t: Word) returns (d: nat)
    ensures d == Table(s, t) && IsDistance(s, t, d)
  {
    hide Row, IsDistance;
    Shortest(s, t);
    ZeroIffEqual(s, t);
    TableEmpty(s);
    TableEmpty(t);
    hide Table;
    if s == t {
      return 0;
    }
    if s == [] {
      return |t|;
    }
    if t == [] {
      return |s|;
    }
    var size := |t| + 1;
    var v0, v1 := new int[size], new int[size];
    var k := 0;
    while k < size
      invariant 0 <= k <= size
      invariant forall x :: 0 <= x < k ==> v0[x] == x
    {
      v0[k] := k;
      k := k + 1;
    }
    FirstRow(v0[..], t);
    var i := 0;
    assert s[..0] == [];
    while i < |s|
      invariant 0 <= i <= |s|
      invariant Row(v0[..], s[..i], t, size) && (i > 0 ==> v1[..] == v0[..])
    {
      FillRow(v0, v1, s, t, i);
      ghost var row := v1[..];
      var j := 0;
      while j < size
        invariant 0 <= j <= size && v1[..] == row
        invariant forall x :: 0 <= x < j ==> v0[x] == v1[x]
      {
        v0[j] := v1[j];
        j := j + 1;
      }
      assert v0[..] == v1[..];
      i := i + 1;
    }
    RowEnds(v1[..], s, t);
    d := v1[|t|];
  }

  lemma RowEnds(v: seq<int>, s: Word, t: Word)
    requires Row(v, s[..|s|], t, |t| + 1)
    ensures |v| == |t| + 1 && v[|t|] == Table(s, t)
  {
    assert s[..|s|] == s && t[..|t|] == t;
  }
}

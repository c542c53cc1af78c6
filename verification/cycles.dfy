/**
 * Cycle removal in the alias table (clean-csrankings.py lines 72-97).
 *
 * `visit_aliases` walks the alias table depth first from every canonical
 * name in turn. One `visited` set is shared by all the walks and the root of
 * a walk is never marked, so an alias reached a second time (through a real
 * cycle, or merely from a second root) is flagged in `cycle_aliases`. The
 * walks copy every edge they take into `new_aliases`; afterwards the group
 * `aliasToName[ca]` of every flagged alias `ca` is deleted from it.
 */
module Cycles {
  import opened Tables

  /** The module-level state `visit_aliases` updates: `visited`, `new_aliases`, `cycle_aliases`. */
  datatype Walk = Walk(visited: set<Name>, kept: Groups, flagged: set<Name>)

  /** Lines 74-76. */
  function Start(): Walk {
    Walk({}, Empty(), {})
  }

  /** Every string listed as an alias somewhere in the table. */
  function Universe(g: Groups): set<Name> {
    set n, a | n in g.entries && a in g.entries[n] :: a
  }

  /** `new_aliases[n] = new_aliases.get(n, []) + [a]` (line 87). */
  function Append(kept: Groups, n: Name, a: Name): (r: Groups)
    requires kept.Valid()
    ensures r.Valid()
  {
    kept.Put(n, (if n in kept.entries then kept.entries[n] else []) + [a])
  }

  /** Only aliases of the table are ever marked, and only marked aliases are flagged. */
  ghost predicate Bounded(g: Groups, w: Walk) {
    && w.visited <= Universe(g)
    && w.flagged <= w.visited
    && w.kept.Valid()
  }

  /**
   * `visit_aliases(n)` (lines 78-88). It recurses only on an alias it has
   * just marked, so the unmarked part of the finite `Universe(g)` shrinks at
   * every recursive call: the traversal terminates.
   */
  function Visit(g: Groups, n: Name, w: Walk): (r: Walk)
    requires Bounded(g, w)
    ensures Bounded(g, r) && w.visited <= r.visited && w.flagged <= r.flagged
    decreases Universe(g) - w.visited, 1, 0
  {
    if n in g.entries then VisitFrom(g, n, 0, w) else w
  }

  /** The loop of lines 81-88 from position `k` of `aliases[n]` on. */
  function VisitFrom(g: Groups, n: Name, k: nat, w: Walk): (r: Walk)
    requires Bounded(g, w) && n in g.entries && k <= |g.entries[n]|
    ensures Bounded(g, r) && w.visited <= r.visited && w.flagged <= r.flagged
    decreases Universe(g) - w.visited, 0, |g.entries[n]| - k
  {
    if k == |g.entries[n]| then w
    else
      var a := g.entries[n][k];
      if a in w.visited then
        VisitFrom(g, n, k + 1, w.(flagged := w.flagged + {a}))
      else
        InUniverse(g, n, a);
        VisitFrom(g, n, k + 1, Visit(g, a, Walk(w.visited + {a}, Append(w.kept, n, a), w.flagged)))
  }

  /** Lines 90-91 after the walks from the first `k` canonical names. */
  function Roots(g: Groups, k: nat): (w: Walk)
    requires k <= |g.keys|
    ensures Bounded(g, w)
  {
    if k == 0 then Start() else Visit(g, g.keys[k - 1], Roots(g, k - 1))
  }

  /** The groups `aliasToName[ca]` of the flagged aliases (line 95). */
  function Doomed(flagged: set<Name>, aliasToName: map<Name, Name>): set<Name>
    requires flagged <= aliasToName.Keys
  {
    set ca | ca in flagged :: aliasToName[ca]
  }

  /** The alias table after line 97. */
  function CycleFree(g: Groups, aliasToName: map<Name, Name>): (r: Groups)
    requires Universe(g) <= aliasToName.Keys
    ensures r.Valid()
    ensures forall n :: n in r.entries <==>
      n in Roots(g, |g.keys|).kept.entries && forall ca :: ca in Roots(g, |g.keys|).flagged ==> aliasToName[ca] != n
    ensures forall n :: n in r.entries ==> r.entries[n] == Roots(g, |g.keys|).kept.entries[n]
  {
    var w := Roots(g, |g.keys|);
    w.kept.RemoveAll(Doomed(w.flagged, aliasToName))
  }

  /** `visit_aliases(n)` as the script runs it, over the state it shares with its caller. */
  method VisitAliases(g: Groups, n: Name, visited: set<Name>, kept: Groups, flagged: set<Name>)
    returns (visited': set<Name>, kept': Groups, flagged': set<Name>)
    requires Bounded(g, Walk(visited, kept, flagged))
    ensures Walk(visited', kept', flagged') == Visit(g, n, Walk(visited, kept, flagged))
    decreases Universe(g) - visited, 1
  {
    visited', kept', flagged' := visited, kept, flagged;
    if n in g.entries {
      var aliasList := g.entries[n];
      var i := 0;
      while i < |aliasList|
        invariant 0 <= i <= |aliasList|
        invariant Bounded(g, Walk(visited', kept', flagged')) && visited <= visited'
        invariant VisitFrom(g, n, i, Walk(visited', kept', flagged')) == Visit(g, n, Walk(visited, kept, flagged))
      {
        var a := aliasList[i];
        if a in visited' {
          flagged' := flagged' + {a};
        } else {
          InUniverse(g, n, a);
          visited' := visited' + {a};
          kept' := Append(kept', n, a);
          visited', kept', flagged' := VisitAliases(g, a, visited', kept', flagged');
        }
        i := i + 1;
      }
    }
  }

  /** Lines 74-91: walk from every canonical name in turn. */
  method FindCycles(g: Groups) returns (kept: Groups, flagged: set<Name>)
    ensures kept == Roots(g, |g.keys|).kept && flagged == Roots(g, |g.keys|).flagged
  {
    var visited := {};
    kept, flagged := Empty(), {};
    var i := 0;
    while i < |g.keys|
      invariant 0 <= i <= |g.keys|
      invariant Walk(visited, kept, flagged) == Roots(g, i)
    {
      visited, kept, flagged := VisitAliases(g, g.keys[i], visited, kept, flagged);
      i := i + 1;
    }
  }

  /** Lines 93-97: delete the group `aliasToName[ca]` of every flagged alias `ca`, in any order. */
  method DropGroups(kept: Groups, flagged: set<Name>, aliasToName: map<Name, Name>) returns (result: Groups)
    requires kept.Valid() && flagged <= aliasToName.Keys
    ensures result == kept.RemoveAll(Doomed(flagged, aliasToName))
  {
    result := kept;
    var todo := flagged;
    ghost var done: set<Name> := {};
    RemoveNone(kept);
    while todo != {}
      invariant todo <= flagged && done == Doomed(flagged - todo, aliasToName)
      invariant result == kept.RemoveAll(done)
      decreases todo
    {
      var ca :| ca in todo;
      var n := aliasToName[ca];
      DoomedStep(flagged, todo, ca, aliasToName);
      if n in result.entries {
        RemoveMore(kept, done, n);
        result := result.Remove(n);
      } else {
        RemoveAbsent(kept, done, n);
      }
      todo := todo - {ca};
      done := done + {n};
    }
    assert flagged - todo == flagged;
  }

  lemma DoomedStep(flagged: set<Name>, todo: set<Name>, ca: Name, aliasToName: map<Name, Name>)
    requires todo <= flagged <= aliasToName.Keys && ca in todo
    ensures Doomed(flagged - (todo - {ca}), aliasToName) == Doomed(flagged - todo, aliasToName) + {aliasToName[ca]}
  {
  }

  /** Lines 74-97. */
  method RemoveCycles(g: Groups, aliasToName: map<Name, Name>) returns (result: Groups, flagged: set<Name>)
    requires Universe(g) <= aliasToName.Keys
    ensures result == CycleFree(g, aliasToName)
    ensures flagged == Roots(g, |g.keys|).flagged
  {
    var kept;
    kept, flagged := FindCycles(g);
    result := DropGroups(kept, flagged, aliasToName);
  }

  // ---------------------------------------------------------------------------
  // What the walks build

  /** Every kept alias occurs once in all of `kept` together. */
  ghost predicate Once(kept: Groups) {
    forall m1, m2, i, j ::
      (m1 in kept.entries && m2 in kept.entries && 0 <= i < |kept.entries[m1]| && 0 <= j < |kept.entries[m2]| &&
       kept.entries[m1][i] == kept.entries[m2][j]) ==> m1 == m2 && i == j
  }

  /** Every kept edge `(m, a)` is an edge of the input table, and no kept group is empty. */
  ghost predicate KeptEdges(g: Groups, kept: Groups) {
    forall m :: m in kept.entries ==>
      m in g.entries && kept.entries[m] != [] && forall a :: a in kept.entries[m] ==> a in g.entries[m]
  }

  /** Every kept alias is marked. */
  ghost predicate KeptMarked(kept: Groups, visited: set<Name>) {
    forall m, a :: m in kept.entries && a in kept.entries[m] ==> a in visited
  }

  /** The traversal invariant: kept edges are input edges, kept aliases are marked and kept once. */
  ghost predicate Sound(g: Groups, w: Walk) {
    && Bounded(g, w)
    && KeptEdges(g, w.kept)
    && KeptMarked(w.kept, w.visited)
    && Once(w.kept)
  }

  /** `new_aliases` only grows: no group disappears and every list is extended at its end. */
  ghost predicate Extends(k1: Groups, k2: Groups) {
    forall m :: m in k1.entries ==> m in k2.entries && k1.entries[m] <= k2.entries[m]
  }

  /** The first `k` aliases of `n` are marked, each either kept under `n` or flagged. */
  ghost predicate Covered(g: Groups, n: Name, k: nat, w: Walk)
    requires n in g.entries && k <= |g.entries[n]|
  {
    forall j :: 0 <= j < k ==>
      && g.entries[n][j] in w.visited
      && (g.entries[n][j] in w.flagged || (n in w.kept.entries && g.entries[n][j] in w.kept.entries[n]))
  }

  /** A canonical name marked between `w` and `r` had its walk finished: all its aliases are marked. */
  ghost predicate NewClosed(g: Groups, w: Walk, r: Walk) {
    forall m :: m in r.visited && m !in w.visited && m in g.entries ==>
      forall a :: a in g.entries[m] ==> a in r.visited
  }

  lemma PrefixMember(s: seq<Name>, t: seq<Name>, a: Name)
    requires s <= t && a in s
    ensures a in t
  {
    var i :| 0 <= i < |s| && s[i] == a;
    assert t[i] == a;
  }

  lemma ExtendsTrans(k1: Groups, k2: Groups, k3: Groups)
    requires Extends(k1, k2) && Extends(k2, k3)
    ensures Extends(k1, k3)
  {
  }

  lemma CoveredGrows(g: Groups, n: Name, k: nat, w: Walk, r: Walk)
    requires n in g.entries && k <= |g.entries[n]| && Covered(g, n, k, w)
    requires w.visited <= r.visited && w.flagged <= r.flagged && Extends(w.kept, r.kept)
    ensures Covered(g, n, k, r)
  {
    forall j | 0 <= j < k && g.entries[n][j] !in r.flagged
      ensures n in r.kept.entries && g.entries[n][j] in r.kept.entries[n]
    {
      PrefixMember(w.kept.entries[n], r.kept.entries[n], g.entries[n][j]);
    }
  }

  lemma InUniverse(g: Groups, n: Name, a: Name)
    requires n in g.entries && a in g.entries[n]
    ensures a in Universe(g)
  {
  }

  /** Marking a fresh alias `a` of `n` and appending it to `new_aliases[n]` keeps the invariant. */
  lemma SoundMark(g: Groups, n: Name, a: Name, w: Walk)
    requires Sound(g, w) && n in g.entries && a in g.entries[n] && a !in w.visited
    ensures Sound(g, Walk(w.visited + {a}, Append(w.kept, n, a), w.flagged))
    ensures Extends(w.kept, Append(w.kept, n, a))
  {
    InUniverse(g, n, a);
    AppendOnce(w, n, a);
    AppendEdges(g, w.kept, n, a);
    var before := if n in w.kept.entries then w.kept.entries[n] else [];
    assert (before + [a])[..|before|] == before;
  }

  lemma AppendEdges(g: Groups, kept: Groups, n: Name, a: Name)
    requires kept.Valid() && KeptEdges(g, kept) && n in g.entries && a in g.entries[n]
    ensures KeptEdges(g, Append(kept, n, a))
  {
    var before := if n in kept.entries then kept.entries[n] else [];
    var k := Append(kept, n, a);
    assert k.entries[n] == before + [a];
    forall m, x | m in k.entries && x in k.entries[m]
      ensures m in g.entries && x in g.entries[m]
    {
      if m == n && x != a {
        assert x in before;
      }
    }
  }

  lemma AppendOnce(w: Walk, n: Name, a: Name)
    requires w.kept.Valid() && Once(w.kept) && KeptMarked(w.kept, w.visited) && a !in w.visited
    ensures Once(Append(w.kept, n, a)) && KeptMarked(Append(w.kept, n, a), w.visited + {a})
  {
    var before := if n in w.kept.entries then w.kept.entries[n] else [];
    var k := Append(w.kept, n, a);
    assert k.entries[n] == before + [a];
    forall m1, m2, i, j |
      m1 in k.entries && m2 in k.entries && 0 <= i < |k.entries[m1]| && 0 <= j < |k.entries[m2]| &&
      k.entries[m1][i] == k.entries[m2][j]
      ensures m1 == m2 && i == j
    {
      if !(m1 == n && i == |before|) {
        OldPosition(w, k, n, a, m1, i);
      }
      if !(m2 == n && j == |before|) {
        OldPosition(w, k, n, a, m2, j);
      }
    }
    forall m, x | m in k.entries && x in k.entries[m]
      ensures x in w.visited + {a}
    {
      if m == n && x != a {
        assert x in before;
      }
    }
  }

  /** A position of `Append(w.kept, n, a)` other than the new last one holds an old, marked alias. */
  lemma OldPosition(w: Walk, k: Groups, n: Name, a: Name, m: Name, i: nat)
    requires w.kept.Valid() && k == Append(w.kept, n, a)
    requires KeptMarked(w.kept, w.visited)
    requires m in k.entries && i < |k.entries[m]|
    requires !(m == n && i == |if n in w.kept.entries then w.kept.entries[n] else []|)
    ensures m in w.kept.entries && i < |w.kept.entries[m]| && k.entries[m][i] == w.kept.entries[m][i]
    ensures k.entries[m][i] in w.visited
  {
    assert w.kept.entries[m][i] in w.kept.entries[m];
  }

  lemma {:induction false} VisitSound(g: Groups, n: Name, w: Walk)
    requires Sound(g, w)
    ensures Sound(g, Visit(g, n, w)) && Extends(w.kept, Visit(g, n, w).kept)
    ensures NewClosed(g, w, Visit(g, n, w))
    ensures n in g.entries ==> Covered(g, n, |g.entries[n]|, Visit(g, n, w))
    decreases Universe(g) - w.visited, 1, 0, 0
  {
    if n in g.entries {
      VisitFromSound(g, n, 0, w);
    }
  }

  lemma {:induction false} VisitFromSound(g: Groups, n: Name, k: nat, w: Walk)
    requires Sound(g, w) && n in g.entries && k <= |g.entries[n]| && Covered(g, n, k, w)
    ensures Sound(g, VisitFrom(g, n, k, w)) && Extends(w.kept, VisitFrom(g, n, k, w).kept)
    ensures NewClosed(g, w, VisitFrom(g, n, k, w))
    ensures Covered(g, n, |g.entries[n]|, VisitFrom(g, n, k, w))
    decreases Universe(g) - w.visited, 0, |g.entries[n]| - k, 1
  {
    if k < |g.entries[n]| {
      if g.entries[n][k] in w.visited {
        FlagSound(g, n, k, w);
      } else {
        MarkSound(g, n, k, w);
      }
    }
  }

  /** Step of the loop that meets an alias already marked: it is flagged. */
  lemma {:induction false} FlagSound(g: Groups, n: Name, k: nat, w: Walk)
    requires Sound(g, w) && n in g.entries && k < |g.entries[n]| && Covered(g, n, k, w)
    requires g.entries[n][k] in w.visited
    ensures Sound(g, VisitFrom(g, n, k, w)) && Extends(w.kept, VisitFrom(g, n, k, w).kept)
    ensures NewClosed(g, w, VisitFrom(g, n, k, w))
    ensures Covered(g, n, |g.entries[n]|, VisitFrom(g, n, k, w))
    decreases Universe(g) - w.visited, 0, |g.entries[n]| - k, 0
  {
    var a := g.entries[n][k];
    var w' := w.(flagged := w.flagged + {a});
    FlagStep(g, n, k, w);
    VisitFromSound(g, n, k + 1, w');
    assert VisitFrom(g, n, k, w) == VisitFrom(g, n, k + 1, w');
  }

  lemma FlagStep(g: Groups, n: Name, k: nat, w: Walk)
    requires Sound(g, w) && n in g.entries && k < |g.entries[n]| && Covered(g, n, k, w)
    requires g.entries[n][k] in w.visited
    ensures var w' := w.(flagged := w.flagged + {g.entries[n][k]});
      Sound(g, w') && Covered(g, n, k + 1, w')
  {
    var a := g.entries[n][k];
    var w' := w.(flagged := w.flagged + {a});
    assert Bounded(g, w');
    assert Covered(g, n, k + 1, w');
  }

  /** Step of the loop that meets an unmarked alias: it is marked, kept, and walked from. */
  lemma {:induction false} MarkSound(g: Groups, n: Name, k: nat, w: Walk)
    requires Sound(g, w) && n in g.entries && k < |g.entries[n]| && Covered(g, n, k, w)
    requires g.entries[n][k] !in w.visited
    ensures Sound(g, VisitFrom(g, n, k, w)) && Extends(w.kept, VisitFrom(g, n, k, w).kept)
    ensures NewClosed(g, w, VisitFrom(g, n, k, w))
    ensures Covered(g, n, |g.entries[n]|, VisitFrom(g, n, k, w))
    decreases Universe(g) - w.visited, 0, |g.entries[n]| - k, 0
  {
    var a := g.entries[n][k];
    var w1 := Walk(w.visited + {a}, Append(w.kept, n, a), w.flagged);
    SoundMark(g, n, a, w);
    CoveredMark(g, n, k, w);
    InUniverse(g, n, a);
    var w2 := Visit(g, a, w1);
    VisitSound(g, a, w1);
    CoveredGrows(g, n, k + 1, w1, w2);
    VisitFromSound(g, n, k + 1, w2);
    var r := VisitFrom(g, n, k + 1, w2);
    assert VisitFrom(g, n, k, w) == r;
    if a in g.entries {
      CoveredAll(g, a, w2);
    }
    Chain(g, a, w, w1, w2, r);
  }

  lemma CoveredMark(g: Groups, n: Name, k: nat, w: Walk)
    requires w.kept.Valid() && n in g.entries && k < |g.entries[n]| && Covered(g, n, k, w)
    requires g.entries[n][k] !in w.visited
    ensures var a := g.entries[n][k];
      Covered(g, n, k + 1, Walk(w.visited + {a}, Append(w.kept, n, a), w.flagged))
  {
    var a := g.entries[n][k];
    var before := if n in w.kept.entries then w.kept.entries[n] else [];
    var w1 := Walk(w.visited + {a}, Append(w.kept, n, a), w.flagged);
    assert (before + [a])[..|before|] == before;
    assert Extends(w.kept, w1.kept);
    CoveredGrows(g, n, k, w, w1);
    assert a in w1.kept.entries[n];
  }

  lemma CoveredAll(g: Groups, n: Name, w: Walk)
    requires n in g.entries && Covered(g, n, |g.entries[n]|, w)
    ensures forall x :: x in g.entries[n] ==> x in w.visited
  {
    forall x | x in g.entries[n] ensures x in w.visited {
      var j :| 0 <= j < |g.entries[n]| && g.entries[n][j] == x;
    }
  }

  /** Putting together the mark of `a`, the walk from `a` and the rest of the loop. */
  lemma Chain(g: Groups, a: Name, w: Walk, w1: Walk, w2: Walk, r: Walk)
    requires w1.visited == w.visited + {a} && w1.visited <= w2.visited <= r.visited
    requires Extends(w.kept, w1.kept) && Extends(w1.kept, w2.kept) && Extends(w2.kept, r.kept)
    requires NewClosed(g, w1, w2) && NewClosed(g, w2, r)
    requires a in g.entries ==> forall x :: x in g.entries[a] ==> x in w2.visited
    ensures NewClosed(g, w, r) && Extends(w.kept, r.kept)
  {
    ExtendsTrans(w.kept, w1.kept, w2.kept);
    ExtendsTrans(w.kept, w2.kept, r.kept);
  }

  /** A canonical name whose first alias was already marked when it got marked has that alias flagged. */
  ghost predicate FlagsRevisits(g: Groups, w: Walk, r: Walk) {
    forall m ::
      (m in r.visited && m !in w.visited && m in g.entries && g.entries[m] != [] && g.entries[m][0] in w.visited) ==>
      g.entries[m][0] in r.flagged
  }

  lemma {:induction false} VisitFlags(g: Groups, n: Name, w: Walk)
    requires Bounded(g, w)
    ensures FlagsRevisits(g, w, Visit(g, n, w))
    ensures n in g.entries && g.entries[n] != [] && g.entries[n][0] in w.visited ==>
      g.entries[n][0] in Visit(g, n, w).flagged
    ensures n in g.entries && g.entries[n] != [] && n in Visit(g, n, w).visited && n !in w.visited ==>
      g.entries[n][0] in Visit(g, n, w).flagged
    decreases Universe(g) - w.visited, 1, 0
  {
    if n in g.entries {
      VisitFromFlags(g, n, 0, w);
    }
  }

  lemma {:induction false} VisitFromFlags(g: Groups, n: Name, k: nat, w: Walk)
    requires Bounded(g, w) && n in g.entries && k <= |g.entries[n]|
    requires k > 0 ==> g.entries[n][0] in w.visited
    ensures FlagsRevisits(g, w, VisitFrom(g, n, k, w))
    ensures k == 0 && g.entries[n] != [] && g.entries[n][0] in w.visited ==>
      g.entries[n][0] in VisitFrom(g, n, k, w).flagged
    ensures g.entries[n] != [] && n in VisitFrom(g, n, k, w).visited && n !in w.visited ==>
      g.entries[n][0] in VisitFrom(g, n, k, w).flagged
    decreases Universe(g) - w.visited, 0, |g.entries[n]| - k
  {
    var r := VisitFrom(g, n, k, w);
    if k < |g.entries[n]| {
      var a := g.entries[n][k];
      if a in w.visited {
        var w' := w.(flagged := w.flagged + {a});
        VisitFromFlags(g, n, k + 1, w');
      } else {
        var w1 := Walk(w.visited + {a}, Append(w.kept, n, a), w.flagged);
        InUniverse(g, n, a);
        var w2 := Visit(g, a, w1);
        VisitFlags(g, a, w1);
        VisitFromFlags(g, n, k + 1, w2);
        assert r == VisitFrom(g, n, k + 1, w2);
        forall m | m in r.visited && m !in w.visited && m in g.entries && g.entries[m] != [] && g.entries[m][0] in w.visited
          ensures g.entries[m][0] in r.flagged
        {
          if m in w2.visited {
            assert g.entries[m][0] in w2.flagged;
          }
        }
      }
    }
  }

  /** Every canonical name already marked has had all its aliases marked. */
  ghost predicate Closed(g: Groups, w: Walk) {
    forall m :: m in w.visited && m in g.entries ==> forall a :: a in g.entries[m] ==> a in w.visited
  }

  lemma {:induction false} RootsSound(g: Groups, k: nat)
    requires g.Valid() && k <= |g.keys|
    ensures Sound(g, Roots(g, k)) && Closed(g, Roots(g, k))
    ensures forall j :: 0 <= j < k ==> Covered(g, g.keys[j], |g.entries[g.keys[j]]|, Roots(g, k))
  {
    if k > 0 {
      RootsSound(g, k - 1);
      var w := Roots(g, k - 1);
      var n := g.keys[k - 1];
      var r := Visit(g, n, w);
      VisitSound(g, n, w);
      forall j | 0 <= j < k - 1
        ensures Covered(g, g.keys[j], |g.entries[g.keys[j]]|, r)
      {
        CoveredGrows(g, g.keys[j], |g.entries[g.keys[j]]|, w, r);
      }
    }
  }

  lemma {:induction false} RootsFlags(g: Groups, k: nat)
    requires g.Valid() && k <= |g.keys|
    ensures forall j :: 0 <= j < k && g.keys[j] in Roots(g, k).visited && g.entries[g.keys[j]] != [] ==>
      g.entries[g.keys[j]][0] in Roots(g, k).flagged
  {
    if k > 0 {
      RootsFlags(g, k - 1);
      RootsSound(g, k - 1);
      var w := Roots(g, k - 1);
      var n := g.keys[k - 1];
      var r := Visit(g, n, w);
      assert r == Roots(g, k);
      VisitFlags(g, n, w);
      forall j | 0 <= j < k && g.keys[j] in r.visited && g.entries[g.keys[j]] != []
        ensures g.entries[g.keys[j]][0] in r.flagged
      {
        var m := g.keys[j];
        var a := g.entries[m][0];
        if j == k - 1 {
          if m in w.visited {
            assert a in g.entries[m];
          }
        } else if m !in w.visited {
          assert Covered(g, m, |g.entries[m]|, w);
          assert a in w.visited;
        }
      }
    }
  }

  // ---------------------------------------------------------------------------
  // What is left after line 97

  /**
   * Traversal bounds: every edge left in the table is an edge of the input,
   * no group is empty, and every alias appears in at most one group and at
   * most once there.
   */
  lemma CycleFreeEdges(g: Groups, aliasToName: map<Name, Name>)
    requires g.Valid() && Universe(g) <= aliasToName.Keys
    ensures CycleFree(g, aliasToName).Valid()
    ensures forall n :: n in CycleFree(g, aliasToName).entries ==>
      n in g.entries && CycleFree(g, aliasToName).entries[n] != [] &&
      forall a :: a in CycleFree(g, aliasToName).entries[n] ==> a in g.entries[n]
    ensures Once(CycleFree(g, aliasToName))
  {
    RootsSound(g, |g.keys|);
  }

  /** Every alias is filed under the canonical name `aliasToName` gives it. */
  ghost predicate Consistent(g: Groups, aliasToName: map<Name, Name>) {
    forall n, a :: n in g.entries && a in g.entries[n] ==> a in aliasToName && aliasToName[a] == n
  }

  /**
   * When every alias is listed under a single canonical name, a group is
   * either dropped whole or kept with all of its aliases.
   */
  lemma WholeGroups(g: Groups, aliasToName: map<Name, Name>)
    requires g.Valid() && Universe(g) <= aliasToName.Keys && Consistent(g, aliasToName)
    ensures forall n :: n in CycleFree(g, aliasToName).entries ==>
      n in g.entries && forall a :: a in CycleFree(g, aliasToName).entries[n] <==> a in g.entries[n]
  {
    var w := Roots(g, |g.keys|);
    var r := CycleFree(g, aliasToName);
    RootsSound(g, |g.keys|);
    forall n, a | n in r.entries && a in g.entries[n]
      ensures a in r.entries[n]
    {
      var i :| 0 <= i < |g.keys| && g.keys[i] == n;
      assert Covered(g, n, |g.entries[n]|, w);
      var j :| 0 <= j < |g.entries[n]| && g.entries[n][j] == a;
    }
  }

  /**
   * Acyclicity: when every alias is listed under a single canonical name and
   * no group is empty, no canonical name left in the table is itself an
   * alias left in the table. Every alias chain therefore has length one, and
   * no cycle `a -> b -> ... -> a` survives.
   */
  lemma NoChains(g: Groups, aliasToName: map<Name, Name>)
    requires g.Valid() && Universe(g) <= aliasToName.Keys && Consistent(g, aliasToName)
    requires forall n :: n in g.entries ==> g.entries[n] != []
    ensures Flat(CycleFree(g, aliasToName))
  {
    var w := Roots(g, |g.keys|);
    var r := CycleFree(g, aliasToName);
    RootsSound(g, |g.keys|);
    RootsFlags(g, |g.keys|);
    forall m, n | m in r.entries && n in r.entries[m]
      ensures n !in r.entries
    {
      assert n in w.visited;
    }
  }

  /**
   * When every alias is listed under a single canonical name and no group is
   * empty, no canonical name left in the table is an alias anywhere in the
   * input: the walks mark every alias, a marked canonical name has its first
   * alias flagged, and that alias dooms the name's own group.
   */
  lemma NoAliasKept(g: Groups, aliasToName: map<Name, Name>)
    requires g.Valid() && Universe(g) <= aliasToName.Keys && Consistent(g, aliasToName)
    requires forall n :: n in g.entries ==> g.entries[n] != []
    ensures forall n :: n in Universe(g) ==> n !in CycleFree(g, aliasToName).entries
  {
    var w := Roots(g, |g.keys|);
    RootsSound(g, |g.keys|);
    RootsFlags(g, |g.keys|);
    forall n | n in Universe(g) ensures n !in CycleFree(g, aliasToName).entries {
      var m :| m in g.entries && n in g.entries[m];
      var i :| 0 <= i < |g.keys| && g.keys[i] == m;
      assert Covered(g, m, |g.entries[m]|, w);
      var j :| 0 <= j < |g.entries[m]| && g.entries[m][j] == n;
      assert n in w.visited;
      if n in g.entries {
        var k :| 0 <= k < |g.keys| && g.keys[k] == n;
        assert aliasToName[g.entries[n][0]] == n;
      }
    }
  }
}

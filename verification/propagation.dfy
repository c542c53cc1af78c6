/**
 * Existence propagation (clean-csrankings.py lines 123-136). For every
 * canonical name of the alias table, in table order: when the name has a
 * record, each alias without one is given the name's record; otherwise the
 * name is given the record of its first alias that has one. The records are
 * shared, not copied: the new entry names the same store slot.
 */
module Propagation {
  import opened Tables
  import opened Records
  import Cycles

  /** `aliasList[i]` is the first alias of the list that has a record. */
  predicate FirstWithRecord(aliasList: seq<Name>, i: int, csr: Index) {
    0 <= i < |aliasList| && aliasList[i] in csr.entries && forall j :: 0 <= j < i ==> aliasList[j] !in csr.entries
  }

  /** The first alias of `aliasList` that has a record (lines 133-136). */
  function FirstPresent(aliasList: seq<Name>, csr: Index): (r: Option<Name>)
    ensures r.Some? ==> r.value in aliasList && r.value in csr.entries
  {
    if aliasList == [] then None
    else if aliasList[0] in csr.entries then Some(aliasList[0])
    else FirstPresent(aliasList[1..], csr)
  }

  /** `FirstPresent` finds the first alias with a record, and finds none only when no alias has one. */
  lemma {:induction false} FirstPresentIsFirst(aliasList: seq<Name>, csr: Index)
    ensures FirstPresent(aliasList, csr).Some? ==>
      exists i :: FirstWithRecord(aliasList, i, csr) && aliasList[i] == FirstPresent(aliasList, csr).value
    ensures FirstPresent(aliasList, csr).None? ==> forall a :: a in aliasList ==> a !in csr.entries
  {
    if aliasList != [] {
      if aliasList[0] in csr.entries {
        assert FirstWithRecord(aliasList, 0, csr);
      } else {
        var r := FirstPresent(aliasList[1..], csr);
        FirstPresentIsFirst(aliasList[1..], csr);
        if r.Some? {
          var i :| FirstWithRecord(aliasList[1..], i, csr) && aliasList[1..][i] == r.value;
          assert FirstWithRecord(aliasList, i + 1, csr);
        } else {
          assert aliasList == [aliasList[0]] + aliasList[1..];
        }
      }
    }
  }

  /** Lines 127-130: every alias of `name` without a record is given the record of `name`. */
  function AddAliases(name: Name, aliasList: seq<Name>, csr: Index): (r: Index)
    requires csr.Valid() && name in csr.entries
    ensures r.Valid()
  {
    if aliasList == [] then csr
    else
      var a := aliasList[0];
      AddAliases(name, aliasList[1..], if a in csr.entries then csr else csr.Put(a, csr.entries[name]))
  }

  /**
   * The aliases of `name` without a record get the record of `name`; every
   * other entry is kept, and nothing else is added.
   */
  lemma {:induction false} AddAliasesEffect(name: Name, aliasList: seq<Name>, csr: Index)
    requires csr.Valid() && name in csr.entries
    ensures var r := AddAliases(name, aliasList, csr);
      && (forall k :: k in csr.entries ==> k in r.entries && r.entries[k] == csr.entries[k])
      && (forall a :: a in aliasList && a !in csr.entries ==> a in r.entries && r.entries[a] == csr.entries[name])
      && (forall k :: k in r.entries ==> k in csr.entries || k in aliasList)
  {
    if aliasList != [] {
      var a := aliasList[0];
      var next := if a in csr.entries then csr else csr.Put(a, csr.entries[name]);
      AddAliasesEffect(name, aliasList[1..], next);
      assert aliasList == [a] + aliasList[1..];
    }
  }

  /** Lines 125-136 for one canonical name and its aliases. */
  function PropagateName(name: Name, aliasList: seq<Name>, csr: Index): (r: Index)
    requires csr.Valid()
    ensures r.Valid()
  {
    if name in csr.entries then AddAliases(name, aliasList, csr)
    else
      match FirstPresent(aliasList, csr)
      case None => csr
      case Some(a) => csr.Put(name, csr.entries[a])
  }

  /** The record table after the loop of line 124 has handled the first `k` canonical names. */
  function Propagated(g: Groups, csr: Index, k: nat): (r: Index)
    requires g.Valid() && csr.Valid() && k <= |g.keys|
    ensures r.Valid()
  {
    if k == 0 then csr
    else
      var n := g.keys[k - 1];
      PropagateName(n, g.entries[n], Propagated(g, csr, k - 1))
  }

  /** Lines 124-136. */
  method PropagateExistence(aliases: Groups, csrankings: Index) returns (result: Index)
    requires aliases.Valid() && csrankings.Valid()
    ensures result == Propagated(aliases, csrankings, |aliases.keys|)
  {
    result := csrankings;
    var i := 0;
    while i < |aliases.keys|
      invariant 0 <= i <= |aliases.keys|
      invariant result == Propagated(aliases, csrankings, i)
    {
      var name := aliases.keys[i];
      assert Propagated(aliases, csrankings, i + 1) == PropagateName(name, aliases.entries[name], result);
      if name in result.entries {
        result := AddMissingAliases(name, aliases.entries[name], result);
      } else {
        result := AdoptRecord(name, aliases.entries[name], result);
      }
      i := i + 1;
    }
  }

  /** Lines 127-130. */
  method AddMissingAliases(name: Name, aliasList: seq<Name>, csrankings: Index) returns (result: Index)
    requires csrankings.Valid() && name in csrankings.entries
    ensures result == AddAliases(name, aliasList, csrankings)
  {
    result := csrankings;
    var j := 0;
    while j < |aliasList|
      invariant 0 <= j <= |aliasList|
      invariant result.Valid() && name in result.entries
      invariant AddAliases(name, aliasList[j..], result) == AddAliases(name, aliasList, csrankings)
    {
      assert aliasList[j..][1..] == aliasList[j + 1..];
      var a := aliasList[j];
      if a !in result.entries {
        result := result.Put(a, result.entries[name]);
      }
      j := j + 1;
    }
  }

  /** Lines 133-136: `name` has no record and takes the record of its first alias that has one. */
  method AdoptRecord(name: Name, aliasList: seq<Name>, csrankings: Index) returns (result: Index)
    requires csrankings.Valid() && name !in csrankings.entries
    ensures result == PropagateName(name, aliasList, csrankings)
  {
    result := csrankings;
    var j := 0;
    while j < |aliasList|
      invariant 0 <= j <= |aliasList|
      invariant FirstPresent(aliasList[j..], csrankings) == FirstPresent(aliasList, csrankings)
    {
      assert aliasList[j..][1..] == aliasList[j + 1..];
      var a := aliasList[j];
      if a in csrankings.entries {
        result := csrankings.Put(name, csrankings.entries[a]);
        break;
      }
      j := j + 1;
    }
  }

  // ---------------------------------------------------------------------------
  // What the pass guarantees

  /**
   * One turn of the loop: existing entries keep their record, new entries
   * are the name or its aliases and share a record already in the table.
   */
  lemma PropagateNameEffect(name: Name, aliasList: seq<Name>, csr: Index)
    requires csr.Valid()
    ensures var r := PropagateName(name, aliasList, csr);
      && (forall x :: x in csr.entries ==> x in r.entries && r.entries[x] == csr.entries[x])
      && (forall x :: x in r.entries ==> x in csr.entries || x == name || x in aliasList)
      && r.entries.Values <= csr.entries.Values
  {
    var r := PropagateName(name, aliasList, csr);
    if name in csr.entries {
      AddAliasesEffect(name, aliasList, csr);
    }
    forall v | v in r.entries.Values
      ensures v in csr.entries.Values
    {
      var x :| x in r.entries && r.entries[x] == v;
      if x !in csr.entries {
        if name in csr.entries {
          assert v == csr.entries[name];
        } else {
          assert v == csr.entries[FirstPresent(aliasList, csr).value];
        }
      }
    }
  }

  /**
   * A canonical name with a record has all its aliases entered after its
   * turn, those without a record sharing its record; a canonical name
   * without a record takes the record of its first alias that has one.
   */
  lemma PropagateNameShares(name: Name, aliasList: seq<Name>, csr: Index)
    requires csr.Valid()
    ensures var r := PropagateName(name, aliasList, csr);
      && (name in csr.entries ==> forall a :: a in aliasList ==> a in r.entries)
      && (name in csr.entries ==> forall a :: a in aliasList && a !in csr.entries ==> r.entries[a] == csr.entries[name])
      && (name !in csr.entries && FirstPresent(aliasList, csr).Some? ==>
            name in r.entries && r.entries[name] == csr.entries[FirstPresent(aliasList, csr).value])
      && (name !in csr.entries && FirstPresent(aliasList, csr).None? ==> r == csr)
  {
    if name in csr.entries {
      AddAliasesEffect(name, aliasList, csr);
    }
  }

  /**
   * Over the whole loop: no record key is reassigned, every new key is a
   * canonical name or an alias of a group already handled, and every key
   * names a record that some key named before the loop.
   */
  lemma PropagatedEffect(g: Groups, csr: Index, k: nat)
    requires g.Valid() && csr.Valid() && k <= |g.keys|
    ensures var r := Propagated(g, csr, k);
      && (forall x :: x in csr.entries ==> x in r.entries && r.entries[x] == csr.entries[x])
      && (forall x :: x in r.entries && x !in csr.entries ==> exists j :: InGroup(g, j, x) && j < k)
      && r.entries.Values <= csr.entries.Values
  {
    PropagatedKeeps(g, csr, k);
    PropagatedNew(g, csr, k);
    PropagatedSlots(g, csr, k);
  }

  lemma {:induction false} PropagatedKeeps(g: Groups, csr: Index, k: nat)
    requires g.Valid() && csr.Valid() && k <= |g.keys|
    ensures forall x :: x in csr.entries ==> x in Propagated(g, csr, k).entries && Propagated(g, csr, k).entries[x] == csr.entries[x]
  {
    if k > 0 {
      PropagatedKeeps(g, csr, k - 1);
      PropagateNameEffect(g.keys[k - 1], g.entries[g.keys[k - 1]], Propagated(g, csr, k - 1));
    }
  }

  lemma {:induction false} PropagatedNew(g: Groups, csr: Index, k: nat)
    requires g.Valid() && csr.Valid() && k <= |g.keys|
    ensures forall x :: x in Propagated(g, csr, k).entries && x !in csr.entries ==> exists j :: InGroup(g, j, x) && j < k
  {
    if k > 0 {
      PropagatedNew(g, csr, k - 1);
      var before := Propagated(g, csr, k - 1);
      PropagateNameEffect(g.keys[k - 1], g.entries[g.keys[k - 1]], before);
      forall x | x in Propagated(g, csr, k).entries && x !in csr.entries
        ensures exists j :: InGroup(g, j, x) && j < k
      {
        if x !in before.entries {
          assert InGroup(g, k - 1, x);
        }
      }
    }
  }

  lemma {:induction false} PropagatedSlots(g: Groups, csr: Index, k: nat)
    requires g.Valid() && csr.Valid() && k <= |g.keys|
    ensures Propagated(g, csr, k).entries.Values <= csr.entries.Values
  {
    if k > 0 {
      PropagatedSlots(g, csr, k - 1);
      PropagateNameEffect(g.keys[k - 1], g.entries[g.keys[k - 1]], Propagated(g, csr, k - 1));
    }
  }

  /** `x` is the canonical name of group `j` of the table or one of its aliases. */
  ghost predicate InGroup(g: Groups, j: int, x: Name)
    requires g.Valid()
  {
    0 <= j < |g.keys| && (x == g.keys[j] || x in g.entries[g.keys[j]])
  }

  /**
   * What the pass promises for the canonical name `n`: if `n` has a record,
   * so has each of its aliases afterwards; if `n` or one of its aliases has
   * a record, `n` has one afterwards.
   */
  ghost predicate Reached(g: Groups, csr: Index, r: Index, n: Name)
    requires n in g.entries
  {
    && (n in csr.entries ==> forall a :: a in g.entries[n] ==> a in r.entries)
    && ((n in csr.entries || exists a :: a in g.entries[n] && a in csr.entries) ==> n in r.entries)
  }

  lemma {:induction false} PropagatedReaches(g: Groups, csr: Index, k: nat)
    requires g.Valid() && csr.Valid() && k <= |g.keys|
    ensures forall j :: 0 <= j < k ==> Reached(g, csr, Propagated(g, csr, k), g.keys[j])
  {
    if k > 0 {
      PropagatedReaches(g, csr, k - 1);
      var before := Propagated(g, csr, k - 1);
      var r := Propagated(g, csr, k);
      PropagateNameEffect(g.keys[k - 1], g.entries[g.keys[k - 1]], before);
      ReachedNow(g, csr, k - 1);
      assert r == Propagated(g, csr, k - 1 + 1);
      forall j | 0 <= j < k - 1
        ensures Reached(g, csr, r, g.keys[j])
      {
        ReachedGrows(g, csr, before, r, g.keys[j]);
      }
    }
  }

  lemma ReachedGrows(g: Groups, csr: Index, r1: Index, r2: Index, n: Name)
    requires n in g.entries && Reached(g, csr, r1, n)
    requires forall x :: x in r1.entries ==> x in r2.entries
    ensures Reached(g, csr, r2, n)
  {
  }

  /** The turn of group `i` reaches its canonical name. */
  lemma ReachedNow(g: Groups, csr: Index, i: nat)
    requires g.Valid() && csr.Valid() && i < |g.keys|
    ensures Reached(g, csr, Propagated(g, csr, i + 1), g.keys[i])
  {
    var n := g.keys[i];
    var before := Propagated(g, csr, i);
    var r := PropagateName(n, g.entries[n], before);
    assert Propagated(g, csr, i + 1) == r;
    PropagatedKeeps(g, csr, i);
    PropagateNameEffect(n, g.entries[n], before);
    PropagateNameShares(n, g.entries[n], before);
    if n in csr.entries {
      assert n in before.entries;
    } else if exists a :: a in g.entries[n] && a in csr.entries {
      var a :| a in g.entries[n] && a in csr.entries;
      assert a in before.entries;
      if n !in before.entries {
        FirstPresentIsFirst(g.entries[n], before);
      }
    }
  }

  /**
   * After the pass every canonical name that had a record keeps it and all
   * its aliases have one, and every canonical name with a record or an alias
   * with a record has a record.
   */
  lemma PropagationReaches(g: Groups, csr: Index)
    requires g.Valid() && csr.Valid()
    ensures forall n :: n in g.entries ==> Reached(g, csr, Propagated(g, csr, |g.keys|), n)
  {
    PropagatedReaches(g, csr, |g.keys|);
    forall n | n in g.entries
      ensures Reached(g, csr, Propagated(g, csr, |g.keys|), n)
    {
      var j :| 0 <= j < |g.keys| && g.keys[j] == n;
    }
  }

  /**
   * Records are shared, not copied: an alias without a record gets the very
   * record of its canonical name, and a canonical name without a record the
   * very record of its first alias that has one.
   */
  ghost predicate Shares(g: Groups, csr: Index, r: Index, n: Name)
    requires n in g.entries
  {
    && (n in csr.entries ==>
          forall a :: a in g.entries[n] && a !in csr.entries ==> a in r.entries && r.entries[a] == csr.entries[n])
    && (n !in csr.entries && FirstPresent(g.entries[n], csr).Some? ==>
          n in r.entries && r.entries[n] == csr.entries[FirstPresent(g.entries[n], csr).value])
  }

  /**
   * When every alias is listed once and no alias is a canonical name (the
   * shape cycle removal and pruning leave), the records are shared as
   * `Shares` says, whatever the order of the groups.
   */
  lemma PropagationShares(g: Groups, csr: Index)
    requires g.Valid() && csr.Valid() && Cycles.Once(g) && Flat(g)
    ensures forall n :: n in g.entries ==> Shares(g, csr, Propagated(g, csr, |g.keys|), n)
  {
    forall n | n in g.entries
      ensures Shares(g, csr, Propagated(g, csr, |g.keys|), n)
    {
      var j :| 0 <= j < |g.keys| && g.keys[j] == n;
      SharesAt(g, csr, j);
      PropagatedLater(g, csr, j + 1, |g.keys|);
      SharesGrows(g, csr, Propagated(g, csr, j + 1), Propagated(g, csr, |g.keys|), n);
    }
  }

  lemma SharesGrows(g: Groups, csr: Index, r1: Index, r2: Index, n: Name)
    requires n in g.entries && Shares(g, csr, r1, n)
    requires forall x :: x in r1.entries ==> x in r2.entries && r2.entries[x] == r1.entries[x]
    ensures Shares(g, csr, r2, n)
  {
  }

  /** The turn of group `j` shares the records as `Shares` says. */
  lemma SharesAt(g: Groups, csr: Index, j: nat)
    requires g.Valid() && csr.Valid() && Cycles.Once(g) && Flat(g) && j < |g.keys|
    ensures Shares(g, csr, Propagated(g, csr, j + 1), g.keys[j])
  {
    var n := g.keys[j];
    var before := Propagated(g, csr, j);
    assert Propagated(g, csr, j + 1) == PropagateName(n, g.entries[n], before);
    PropagatedKeeps(g, csr, j);
    PropagatedNew(g, csr, j);
    forall x | InGroup(g, j, x)
      ensures x in before.entries <==> x in csr.entries
    {
      if x in before.entries && x !in csr.entries {
        var j' :| InGroup(g, j', x) && j' < j;
        GroupsDisjoint(g, j', j, x);
      }
    }
    assert InGroup(g, j, n);
    forall a | a in g.entries[n]
      ensures a in before.entries <==> a in csr.entries
    {
      assert InGroup(g, j, a);
    }
    FirstPresentSame(g.entries[n], before, csr);
    PropagateNameShares(n, g.entries[n], before);
  }

  /** Under the shape of `PropagationShares`, a string belongs to one group at most. */
  lemma GroupsDisjoint(g: Groups, j1: int, j2: int, x: Name)
    requires g.Valid() && Cycles.Once(g) && Flat(g) && InGroup(g, j1, x) && InGroup(g, j2, x)
    ensures j1 == j2
  {
    var n1, n2 := g.keys[j1], g.keys[j2];
    assert n1 in g.entries && n2 in g.entries;
    if x != n1 && x != n2 {
      var i1 :| 0 <= i1 < |g.entries[n1]| && g.entries[n1][i1] == x;
      var i2 :| 0 <= i2 < |g.entries[n2]| && g.entries[n2][i2] == x;
    } else if x == n1 && x != n2 {
      assert false;
    } else if x != n1 && x == n2 {
      assert false;
    }
    assert n1 == n2;
  }

  lemma {:induction false} FirstPresentSame(aliasList: seq<Name>, c1: Index, c2: Index)
    requires forall a :: a in aliasList ==> (a in c1.entries <==> a in c2.entries)
    ensures FirstPresent(aliasList, c1) == FirstPresent(aliasList, c2)
  {
    if aliasList != [] {
      assert aliasList[0] in aliasList;
      FirstPresentSame(aliasList[1..], c1, c2);
    }
  }

  /** Later turns keep every entry made by earlier ones. */
  lemma PropagatedLater(g: Groups, csr: Index, j: nat, k: nat)
    requires g.Valid() && csr.Valid() && j <= k <= |g.keys|
    ensures forall x :: x in Propagated(g, csr, j).entries ==>
      x in Propagated(g, csr, k).entries && Propagated(g, csr, k).entries[x] == Propagated(g, csr, j).entries[x]
  {
    forall x | x in Propagated(g, csr, j).entries
      ensures x in Propagated(g, csr, k).entries && Propagated(g, csr, k).entries[x] == Propagated(g, csr, j).entries[x]
    {
      PropagatedLaterOne(g, csr, j, k, x);
    }
  }

  lemma {:induction false} PropagatedLaterOne(g: Groups, csr: Index, j: nat, k: nat, x: Name)
    requires g.Valid() && csr.Valid() && j <= k <= |g.keys| && x in Propagated(g, csr, j).entries
    ensures x in Propagated(g, csr, k).entries && Propagated(g, csr, k).entries[x] == Propagated(g, csr, j).entries[x]
  {
    if j < k {
      PropagatedLaterOne(g, csr, j, k - 1, x);
      var before := Propagated(g, csr, k - 1);
      assert Propagated(g, csr, k) == PropagateName(g.keys[k - 1], g.entries[g.keys[k - 1]], before);
      PropagateNameEffect(g.keys[k - 1], g.entries[g.keys[k - 1]], before);
    }
  }

  /**
   * One pass is not a fixed point: a canonical name that only gains a record
   * during the pass does not hand it on to its other aliases until the next
   * pass.
   */
  lemma PropagationNotIdempotent(g: Groups, csr: Index)
    requires g == Dict(["n"], map["n" := ["a", "b"]]) && csr == Dict(["a"], map["a" := 0])
    ensures "b" !in Propagated(g, csr, |g.keys|).entries
    ensures "b" in Propagated(g, Propagated(g, csr, |g.keys|), |g.keys|).entries
  {
    var once := Dict(["a", "n"], map["a" := 0, "n" := 0]);
    assert FirstPresent(["b"], csr) == None;
    assert FirstPresent(["a", "b"], csr) == Some("a");
    assert Propagated(g, csr, 1) == once;
    assert AddAliases("n", ["b"], once) == once.Put("b", 0);
    assert AddAliases("n", ["a", "b"], once) == once.Put("b", 0);
  }
}

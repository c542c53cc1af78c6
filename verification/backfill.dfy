/**
 * The scholar-id backfill (clean-csrankings.py lines 138-151). Every name
 * whose record still carries the sentinel scholar id takes the last real id
 * among its aliases' records, and then, when the name is itself an alias,
 * whatever id the record of its canonical name carries. The ids are written
 * into the shared record objects, so a later name of the same loop sees the
 * ids written for earlier ones.
 */
module Backfill {
  import opened Tables
  import opened Records

  /** The scholar ids a record store holds. */
  ghost function Scholars(recs: seq<Record>): set<string> {
    set i | 0 <= i < |recs| :: recs[i].scholarid
  }

  /**
   * Lines 143-145: the id of the last alias, in list order, whose record has a
   * real scholar id; the sentinel when there is none.
   */
  function LastScholar(aliasList: seq<Name>, csr: Index, recs: seq<Record>): string
    requires InStore(csr, |recs|)
  {
    if aliasList == [] then NoScholarPage
    else
      var a := aliasList[|aliasList| - 1];
      if a in csr.entries && recs[csr.entries[a]].scholarid != NoScholarPage then recs[csr.entries[a]].scholarid
      else LastScholar(aliasList[..|aliasList| - 1], csr, recs)
  }

  /** Lines 150-151: a real `page` is written into the record in `slot`; the sentinel writes nothing. */
  function Fill(recs: seq<Record>, slot: nat, page: string): (r: seq<Record>)
    requires slot < |recs|
    ensures |r| == |recs|
  {
    if page != NoScholarPage then recs[slot := recs[slot].(scholarid := page)] else recs
  }

  /**
   * Lines 140-151 for one name. The test of line 147 compares a record with
   * a string and never fails, so a name that is itself an alias always takes
   * its canonical name's id (and writes nothing when that is the sentinel);
   * the lookup of line 147 raises `KeyError` when the canonical name has no
   * record.
   */
  function BackfillName(name: Name, aliases: Groups, aliasToName: map<Name, Name>, csr: Index, recs: seq<Record>)
    : (r: Result<seq<Record>>)
    requires aliases.Valid() && InStore(csr, |recs|) && name in csr.entries
    ensures r.Ok? ==> |r.value| == |recs|
    ensures r.KeyError? <==>
      recs[csr.entries[name]].scholarid == NoScholarPage && name in aliasToName && aliasToName[name] !in csr.entries
    ensures r.KeyError? ==> name in aliasToName && r.key == aliasToName[name]
    ensures r.Ok? ==> forall i :: 0 <= i < |recs| && i != csr.entries[name] ==> r.value[i] == recs[i]
  {
    var slot := csr.entries[name];
    if recs[slot].scholarid != NoScholarPage then Ok(recs)
    else
      var page := if name in aliases.entries then LastScholar(aliases.entries[name], csr, recs) else NoScholarPage;
      if name in aliasToName then
        if aliasToName[name] in csr.entries then Ok(Fill(recs, slot, recs[csr.entries[aliasToName[name]]].scholarid))
        else KeyError(aliasToName[name])
      else Ok(Fill(recs, slot, page))
  }

  /** The record store after the loop of line 139 has handled the first `k` names of the table. */
  function Backfilled(aliases: Groups, aliasToName: map<Name, Name>, csr: Index, recs: seq<Record>, k: nat)
    : (r: Result<seq<Record>>)
    requires aliases.Valid() && InStore(csr, |recs|) && k <= |csr.keys|
    ensures r.Ok? ==> |r.value| == |recs|
    ensures r.KeyError? ==> r.key !in csr.entries
  {
    if k == 0 then Ok(recs)
    else
      match Backfilled(aliases, aliasToName, csr, recs, k - 1)
      case KeyError(e) => KeyError(e)
      case Ok(before) => BackfillName(csr.keys[k - 1], aliases, aliasToName, csr, before)
  }

  /** Lines 143-145: the scan over the aliases of one name. */
  method LastScholarPage(aliasList: seq<Name>, csrankings: Index, store: array<Record>) returns (page: string)
    requires InStore(csrankings, store.Length)
    ensures page == LastScholar(aliasList, csrankings, store[..])
  {
    page := NoScholarPage;
    var j := 0;
    while j < |aliasList|
      invariant 0 <= j <= |aliasList|
      invariant page == LastScholar(aliasList[..j], csrankings, store[..])
    {
      var a := aliasList[j];
      assert aliasList[..j + 1][..j] == aliasList[..j];
      if a in csrankings.entries && store[csrankings.entries[a]].scholarid != NoScholarPage {
        page := store[csrankings.entries[a]].scholarid;
      }
      j := j + 1;
    }
    assert aliasList[..|aliasList|] == aliasList;
  }

  /**
   * Lines 139-151. The pass either completes, leaving the store as
   * `Backfilled` says, or stops on the `KeyError` for the returned name.
   */
  method BackfillScholars(aliases: Groups, aliasToName: map<Name, Name>, csrankings: Index, store: array<Record>)
    returns (error: Option<Name>)
    requires aliases.Valid() && InStore(csrankings, store.Length)
    modifies store
    ensures error.None? ==> Backfilled(aliases, aliasToName, csrankings, old(store[..]), |csrankings.keys|) == Ok(store[..])
    ensures error.Some? ==> Backfilled(aliases, aliasToName, csrankings, old(store[..]), |csrankings.keys|) == KeyError(error.value)
  {
    var i := 0;
    while i < |csrankings.keys|
      invariant 0 <= i <= |csrankings.keys|
      invariant Backfilled(aliases, aliasToName, csrankings, old(store[..]), i) == Ok(store[..])
    {
      var name := csrankings.keys[i];
      var slot := csrankings.entries[name];
      ghost var before := store[..];
      assert Backfilled(aliases, aliasToName, csrankings, old(store[..]), i + 1)
        == BackfillName(name, aliases, aliasToName, csrankings, before);
      if store[slot].scholarid == NoScholarPage {
        var page := NoScholarPage;
        if name in aliases.entries {
          page := LastScholarPage(aliases.entries[name], csrankings, store);
        }
        if name in aliasToName {
          var parent := aliasToName[name];
          if parent !in csrankings.entries {
            BackfilledStops(aliases, aliasToName, csrankings, old(store[..]), i + 1, |csrankings.keys|);
            return Some(parent);
          }
          page := store[csrankings.entries[parent]].scholarid;
        }
        if page != NoScholarPage {
          store[slot] := store[slot].(scholarid := page);
        }
        assert store[..] == Fill(before, slot, page);
      }
      i := i + 1;
    }
    error := None;
  }

  /** Once the pass has stopped on a `KeyError`, later names change nothing. */
  lemma {:induction false} BackfilledStops(aliases: Groups, aliasToName: map<Name, Name>, csr: Index, recs: seq<Record>, j: nat, k: nat)
    requires aliases.Valid() && InStore(csr, |recs|) && j <= k <= |csr.keys|
    requires Backfilled(aliases, aliasToName, csr, recs, j).KeyError?
    ensures Backfilled(aliases, aliasToName, csr, recs, k) == Backfilled(aliases, aliasToName, csr, recs, j)
  {
    if j < k {
      BackfilledStops(aliases, aliasToName, csr, recs, j, k - 1);
    }
  }

  /**
   * Slot by slot, `after` backfills `before`: a record is either unchanged, or
   * had the sentinel id and now has a real id taken from `ids`, with its
   * affiliation and homepage unchanged.
   */
  ghost predicate Filled(before: Record, after: Record, ids: set<string>) {
    || after == before
    || (&& before.scholarid == NoScholarPage
        && after.scholarid != NoScholarPage
        && after.scholarid in ids
        && after == before.(scholarid := after.scholarid))
  }

  ghost predicate Fills(before: seq<Record>, after: seq<Record>) {
    |after| == |before| && forall i :: 0 <= i < |before| ==> Filled(before[i], after[i], Scholars(before))
  }

  /** The id the alias scan finds is the sentinel or an id of the store, and it is the id of the last alias with one. */
  lemma {:induction false} LastScholarIsLast(aliasList: seq<Name>, csr: Index, recs: seq<Record>)
    requires InStore(csr, |recs|)
    ensures LastScholar(aliasList, csr, recs) == NoScholarPage || LastScholar(aliasList, csr, recs) in Scholars(recs)
    ensures LastScholar(aliasList, csr, recs) != NoScholarPage <==>
      exists i :: 0 <= i < |aliasList| && HasScholar(aliasList[i], csr, recs)
    ensures LastScholar(aliasList, csr, recs) != NoScholarPage ==>
      exists i :: LastWithScholar(aliasList, i, csr, recs) && LastScholar(aliasList, csr, recs) == recs[csr.entries[aliasList[i]]].scholarid
  {
    if aliasList != [] {
      var init, a := aliasList[..|aliasList| - 1], aliasList[|aliasList| - 1];
      LastScholarIsLast(init, csr, recs);
      if HasScholar(a, csr, recs) {
        assert LastWithScholar(aliasList, |aliasList| - 1, csr, recs);
      } else {
        if i :| 0 <= i < |aliasList| && HasScholar(aliasList[i], csr, recs) {
          assert init[i] == aliasList[i];
        }
        if LastScholar(aliasList, csr, recs) != NoScholarPage {
          var i :| LastWithScholar(init, i, csr, recs) && LastScholar(init, csr, recs) == recs[csr.entries[init[i]]].scholarid;
          assert init[i] == aliasList[i];
          assert LastWithScholar(aliasList, i, csr, recs);
        }
      }
    }
  }

  /** `a` has a record whose scholar id is real. */
  ghost predicate HasScholar(a: Name, csr: Index, recs: seq<Record>)
    requires InStore(csr, |recs|)
  {
    a in csr.entries && recs[csr.entries[a]].scholarid != NoScholarPage
  }

  /** `aliasList[i]` is the last alias of the list with a real scholar id. */
  ghost predicate LastWithScholar(aliasList: seq<Name>, i: int, csr: Index, recs: seq<Record>)
    requires InStore(csr, |recs|)
  {
    && 0 <= i < |aliasList|
    && HasScholar(aliasList[i], csr, recs)
    && forall j :: i < j < |aliasList| ==> !HasScholar(aliasList[j], csr, recs)
  }

  /** One name's turn only fills its own record, and only from the sentinel. */
  lemma BackfillNameFills(name: Name, aliases: Groups, aliasToName: map<Name, Name>, csr: Index, recs: seq<Record>)
    requires aliases.Valid() && InStore(csr, |recs|) && name in csr.entries
    ensures BackfillName(name, aliases, aliasToName, csr, recs).Ok? ==>
      Fills(recs, BackfillName(name, aliases, aliasToName, csr, recs).value)
  {
    var slot := csr.entries[name];
    if name in aliases.entries {
      LastScholarIsLast(aliases.entries[name], csr, recs);
    }
    if name in aliasToName && aliasToName[name] in csr.entries {
      assert recs[csr.entries[aliasToName[name]]].scholarid in Scholars(recs);
    }
    var r := BackfillName(name, aliases, aliasToName, csr, recs);
    if r.Ok? {
      forall i | 0 <= i < |recs| ensures Filled(recs[i], r.value[i], Scholars(recs)) {
        if i != slot {
          assert r.value[i] == recs[i];
        }
      }
    }
  }

  lemma FillsTrans(a: seq<Record>, b: seq<Record>, c: seq<Record>)
    requires Fills(a, b) && Fills(b, c)
    ensures Fills(a, c)
  {
    assert Scholars(b) <= Scholars(a) + {NoScholarPage} by {
      forall x | x in Scholars(b) ensures x in Scholars(a) + {NoScholarPage} {
        var i :| 0 <= i < |b| && b[i].scholarid == x;
        assert Filled(a[i], b[i], Scholars(a));
      }
    }
    forall i | 0 <= i < |a| ensures Filled(a[i], c[i], Scholars(a)) {
      assert Filled(a[i], b[i], Scholars(a)) && Filled(b[i], c[i], Scholars(b));
    }
  }

  /**
   * The whole pass only fills sentinel ids with real ids already in the
   * store: a real scholar id is never changed, and no affiliation or
   * homepage is touched.
   */
  lemma {:induction false} BackfilledFills(aliases: Groups, aliasToName: map<Name, Name>, csr: Index, recs: seq<Record>, k: nat)
    requires aliases.Valid() && InStore(csr, |recs|) && k <= |csr.keys|
    ensures Backfilled(aliases, aliasToName, csr, recs, k).Ok? ==> Fills(recs, Backfilled(aliases, aliasToName, csr, recs, k).value)
  {
    if k == 0 {
      assert forall i :: 0 <= i < |recs| ==> Filled(recs[i], recs[i], Scholars(recs));
    } else {
      BackfilledFills(aliases, aliasToName, csr, recs, k - 1);
      var prev := Backfilled(aliases, aliasToName, csr, recs, k - 1);
      if prev.Ok? {
        BackfillNameFills(csr.keys[k - 1], aliases, aliasToName, csr, prev.value);
        if Backfilled(aliases, aliasToName, csr, recs, k).Ok? {
          FillsTrans(recs, prev.value, Backfilled(aliases, aliasToName, csr, recs, k).value);
        }
      }
    }
  }

  /**
   * The pass stops only on a canonical name without a record, looked up for
   * one of its aliases that has a record with the sentinel id.
   */
  lemma {:induction false} BackfilledError(aliases: Groups, aliasToName: map<Name, Name>, csr: Index, recs: seq<Record>, k: nat)
    requires aliases.Valid() && InStore(csr, |recs|) && k <= |csr.keys|
    ensures Backfilled(aliases, aliasToName, csr, recs, k).KeyError? ==>
      var e := Backfilled(aliases, aliasToName, csr, recs, k).key;
      e !in csr.entries && exists n :: n in csr.entries && n in aliasToName && aliasToName[n] == e
  {
    if k > 0 {
      BackfilledError(aliases, aliasToName, csr, recs, k - 1);
      var n := csr.keys[k - 1];
      assert n in csr.entries;
    }
  }

  /**
   * Lines 146-148 for every input: a name with the sentinel that is itself
   * an alias ends with its canonical name's scholar id, whatever the alias
   * scan found, as long as the canonical name has a record.
   */
  lemma ParentWins(name: Name, aliases: Groups, aliasToName: map<Name, Name>, csr: Index, recs: seq<Record>)
    requires aliases.Valid() && InStore(csr, |recs|) && name in csr.entries
    requires recs[csr.entries[name]].scholarid == NoScholarPage
    requires name in aliasToName && aliasToName[name] in csr.entries
    ensures BackfillName(name, aliases, aliasToName, csr, recs).Ok?
    ensures BackfillName(name, aliases, aliasToName, csr, recs).value[csr.entries[name]].scholarid
      == recs[csr.entries[aliasToName[name]]].scholarid
  {
  }

  /**
   * Lines 143-145 and 150-151 for every input: a name with the sentinel that
   * is no alias takes the scholar id of the last alias, in list order, whose
   * record has a real one.
   */
  lemma ScanFills(name: Name, aliases: Groups, aliasToName: map<Name, Name>, csr: Index, recs: seq<Record>, i: int)
    requires aliases.Valid() && InStore(csr, |recs|) && name in csr.entries
    requires recs[csr.entries[name]].scholarid == NoScholarPage && name !in aliasToName
    requires name in aliases.entries && LastWithScholar(aliases.entries[name], i, csr, recs)
    ensures BackfillName(name, aliases, aliasToName, csr, recs).Ok?
    ensures BackfillName(name, aliases, aliasToName, csr, recs).value[csr.entries[name]].scholarid
      == recs[csr.entries[aliases.entries[name][i]]].scholarid
  {
    var aliasList := aliases.entries[name];
    LastScholarIsLast(aliasList, csr, recs);
    var j :| LastWithScholar(aliasList, j, csr, recs) && LastScholar(aliasList, csr, recs) == recs[csr.entries[aliasList[j]]].scholarid;
    assert i == j;
  }

  /**
   * Lines 140-151 for every input: the store is left as it is when the
   * name's id is already real, or when the name is no alias and none of its
   * aliases has a record with a real id.
   */
  lemma NothingToFill(name: Name, aliases: Groups, aliasToName: map<Name, Name>, csr: Index, recs: seq<Record>)
    requires aliases.Valid() && InStore(csr, |recs|) && name in csr.entries
    ensures recs[csr.entries[name]].scholarid != NoScholarPage ==> BackfillName(name, aliases, aliasToName, csr, recs) == Ok(recs)
    ensures name !in aliasToName && (name in aliases.entries ==> forall a :: a in aliases.entries[name] ==> !HasScholar(a, csr, recs)) ==>
      BackfillName(name, aliases, aliasToName, csr, recs) == Ok(recs)
  {
    if name in aliases.entries {
      LastScholarIsLast(aliases.entries[name], csr, recs);
    }
  }

  /**
   * An alias's real scholar id reaches the sentinel record of its canonical
   * name when that name is not itself listed as an alias.
   */
  lemma AliasFills()
    ensures
      var csr := Dict(["n", "a"], map["n" := 0, "a" := 1]);
      var recs := [Record("U", "h", NoScholarPage), Record("U", "h", "S")];
      Backfilled(Dict(["n"], map["n" := ["a"]]), map["a" := "n"], csr, recs, 2)
        == Ok([Record("U", "h", "S"), Record("U", "h", "S")])
  {
    var csr := Dict(["n", "a"], map["n" := 0, "a" := 1]);
    var recs := [Record("U", "h", NoScholarPage), Record("U", "h", "S")];
    var g := Dict(["n"], map["n" := ["a"]]);
    var a2n := map["a" := "n"];
    var filled := [Record("U", "h", "S"), Record("U", "h", "S")];
    assert LastScholar(["a"], csr, recs) == "S";
    assert Fill(recs, 0, "S") == filled;
    assert BackfillName("n", g, a2n, csr, recs) == Ok(filled);
    assert Backfilled(g, a2n, csr, recs, 1) == Ok(filled);
    assert Backfilled(g, a2n, csr, recs, 2) == BackfillName("a", g, a2n, csr, filled);
  }

  /**
   * Because the test of line 147 never fails, a name that is itself an alias
   * takes its canonical name's id even when that is the sentinel: here `n`
   * keeps the sentinel although its alias `a` has the id "S".
   */
  lemma ParentOverrides(g: Groups, aliasToName: map<Name, Name>, csr: Index, recs: seq<Record>)
    requires g == Dict(["n"], map["n" := ["a"]]) && aliasToName == map["n" := "p", "a" := "n"]
    requires csr == Dict(["n", "a", "p"], map["n" := 0, "a" := 1, "p" := 2])
    requires recs == [Record("U", "h", NoScholarPage), Record("U", "h", "S"), Record("U", "h", NoScholarPage)]
    requires g.Valid() && InStore(csr, |recs|)
    ensures LastScholar(g.entries["n"], csr, recs) == "S"
    ensures Backfilled(g, aliasToName, csr, recs, |csr.keys|) == Ok(recs)
  {
    assert LastScholar(["a"], csr, recs) == "S";
    assert BackfillName("n", g, aliasToName, csr, recs) == Ok(recs);
    assert Backfilled(g, aliasToName, csr, recs, 1) == Ok(recs);
    assert BackfillName("a", g, aliasToName, csr, recs) == Ok(recs);
    assert Backfilled(g, aliasToName, csr, recs, 2) == Ok(recs);
    assert BackfillName("p", g, aliasToName, csr, recs) == Ok(recs);
  }
}

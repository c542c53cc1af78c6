/**
 * The homepage pass (clean-csrankings.py lines 153-161). For every name of
 * the table the loop starts from the name's own homepage `page`; each alias
 * with a record whose homepage differs from `page` is given `page`, except
 * that while `page` is still the placeholder the alias's homepage is adopted
 * first. `page` is a local variable: the name's own record is written only
 * when one of its aliases shares it.
 */
module Homepages {
  import opened Tables
  import opened Records

  /** The record store and the current `page` during the scan of one group. */
  datatype Scan = Scan(recs: seq<Record>, page: string)

  /** Lines 158-161 for one alias `a`. */
  function FixAlias(a: Name, csr: Index, s: Scan): (r: Scan)
    requires InStore(csr, |s.recs|)
    ensures |r.recs| == |s.recs|
    ensures forall i :: 0 <= i < |s.recs| && (a !in csr.entries || i != csr.entries[a]) ==> r.recs[i] == s.recs[i]
    ensures forall i :: 0 <= i < |s.recs| ==> r.recs[i] == s.recs[i].(homepage := r.recs[i].homepage)
    ensures s.page != Placeholder ==> r.page == s.page
  {
    if a in csr.entries && s.recs[csr.entries[a]].homepage != s.page then
      var page := if s.page == Placeholder then s.recs[csr.entries[a]].homepage else s.page;
      Scan(s.recs[csr.entries[a] := s.recs[csr.entries[a]].(homepage := page)], page)
    else s
  }

  /** Lines 157-161: the scan over the aliases of one name, from `page` on. */
  function FixAliases(aliasList: seq<Name>, csr: Index, recs: seq<Record>, page: string): (r: Scan)
    requires InStore(csr, |recs|)
    ensures |r.recs| == |recs|
    ensures forall i :: 0 <= i < |recs| ==> r.recs[i] == recs[i].(homepage := r.recs[i].homepage)
  {
    if aliasList == [] then Scan(recs, page)
    else FixAlias(aliasList[|aliasList| - 1], csr, FixAliases(aliasList[..|aliasList| - 1], csr, recs, page))
  }

  /** Lines 155-161 for one name. */
  function FixName(name: Name, aliases: Groups, csr: Index, recs: seq<Record>): (r: seq<Record>)
    requires aliases.Valid() && InStore(csr, |recs|) && name in csr.entries
    ensures |r| == |recs|
    ensures forall i :: 0 <= i < |recs| ==> r[i] == recs[i].(homepage := r[i].homepage)
  {
    if name in aliases.entries then FixAliases(aliases.entries[name], csr, recs, recs[csr.entries[name]].homepage).recs
    else recs
  }

  /** The record store after the loop of line 154 has handled the first `k` names of the table. */
  function Homepages(aliases: Groups, csr: Index, recs: seq<Record>, k: nat): (r: seq<Record>)
    requires aliases.Valid() && InStore(csr, |recs|) && k <= |csr.keys|
    ensures |r| == |recs|
    ensures forall i :: 0 <= i < |recs| ==> r[i] == recs[i].(homepage := r[i].homepage)
  {
    if k == 0 then recs
    else FixName(csr.keys[k - 1], aliases, csr, Homepages(aliases, csr, recs, k - 1))
  }

  /** Lines 157-161: the inner loop, writing through the shared records. */
  method FixAliasHomepages(aliasList: seq<Name>, csrankings: Index, store: array<Record>, page0: string)
    returns (page: string)
    requires InStore(csrankings, store.Length)
    modifies store
    ensures Scan(store[..], page) == FixAliases(aliasList, csrankings, old(store[..]), page0)
  {
    page := page0;
    var j := 0;
    while j < |aliasList|
      invariant 0 <= j <= |aliasList|
      invariant Scan(store[..], page) == FixAliases(aliasList[..j], csrankings, old(store[..]), page0)
    {
      var a := aliasList[j];
      assert aliasList[..j + 1][..j] == aliasList[..j];
      ghost var before := Scan(store[..], page);
      if a in csrankings.entries && store[csrankings.entries[a]].homepage != page {
        if page == Placeholder {
          page := store[csrankings.entries[a]].homepage;
        }
        store[csrankings.entries[a]] := store[csrankings.entries[a]].(homepage := page);
      }
      assert Scan(store[..], page) == FixAlias(a, csrankings, before);
      j := j + 1;
    }
    assert aliasList[..|aliasList|] == aliasList;
  }

  /** Lines 154-161. */
  method FixHomepages(aliases: Groups, csrankings: Index, store: array<Record>)
    requires aliases.Valid() && InStore(csrankings, store.Length)
    modifies store
    ensures store[..] == Homepages(aliases, csrankings, old(store[..]), |csrankings.keys|)
  {
    var i := 0;
    while i < |csrankings.keys|
      invariant 0 <= i <= |csrankings.keys|
      invariant store[..] == Homepages(aliases, csrankings, old(store[..]), i)
    {
      var name := csrankings.keys[i];
      var page := store[csrankings.entries[name]].homepage;
      if name in aliases.entries {
        page := FixAliasHomepages(aliases.entries[name], csrankings, store, page);
      }
      i := i + 1;
    }
  }

  /**
   * What one scan does: `page` changes at most once, from the placeholder to
   * a real homepage; every record it writes gets the final `page`, which is
   * not the placeholder, and only its homepage changes; and every written
   * record is the record of an alias of the list.
   */
  ghost predicate Converged(aliasList: seq<Name>, csr: Index, recs: seq<Record>, page0: string, r: Scan)
    requires InStore(csr, |recs|)
  {
    && |r.recs| == |recs|
    && (r.page == page0 || (page0 == Placeholder && r.page != Placeholder))
    && forall i :: 0 <= i < |recs| && r.recs[i] != recs[i] ==>
         && r.recs[i] == recs[i].(homepage := r.page)
         && r.page != Placeholder
         && exists a :: a in aliasList && a in csr.entries && csr.entries[a] == i
  }

  lemma {:induction false} FixAliasesConverge(aliasList: seq<Name>, csr: Index, recs: seq<Record>, page0: string)
    requires InStore(csr, |recs|)
    ensures Converged(aliasList, csr, recs, page0, FixAliases(aliasList, csr, recs, page0))
  {
    if aliasList != [] {
      var init, a := aliasList[..|aliasList| - 1], aliasList[|aliasList| - 1];
      FixAliasesConverge(init, csr, recs, page0);
      var s := FixAliases(init, csr, recs, page0);
      var r := FixAlias(a, csr, s);
      assert r == FixAliases(aliasList, csr, recs, page0);
      forall i | 0 <= i < |recs| && r.recs[i] != recs[i]
        ensures r.recs[i] == recs[i].(homepage := r.page) && r.page != Placeholder
        ensures exists x :: x in aliasList && x in csr.entries && csr.entries[x] == i
      {
        if s.recs[i] != recs[i] {
          var x :| x in init && x in csr.entries && csr.entries[x] == i;
          assert x in aliasList;
        } else {
          assert a in aliasList;
        }
      }
    }
  }

  /**
   * When the name's homepage is real, the scan leaves every alias of the list
   * that has a record with exactly that homepage.
   */
  lemma {:induction false} FixAliasesAgree(aliasList: seq<Name>, csr: Index, recs: seq<Record>, page0: string)
    requires InStore(csr, |recs|) && page0 != Placeholder
    ensures FixAliases(aliasList, csr, recs, page0).page == page0
    ensures forall a :: a in aliasList && a in csr.entries ==>
      FixAliases(aliasList, csr, recs, page0).recs[csr.entries[a]].homepage == page0
  {
    if aliasList != [] {
      var init, a := aliasList[..|aliasList| - 1], aliasList[|aliasList| - 1];
      FixAliasesAgree(init, csr, recs, page0);
      var s := FixAliases(init, csr, recs, page0);
      assert FixAliases(aliasList, csr, recs, page0) == FixAlias(a, csr, s);
      forall x | x in aliasList && x in csr.entries
        ensures FixAlias(a, csr, s).recs[csr.entries[x]].homepage == page0
      {
        if x != a {
          assert x in init;
        }
      }
    }
  }

  /**
   * Across the whole pass a record either keeps its value or changes only
   * its homepage, to a real one, and it is the record of some alias listed in
   * the alias table.
   */
  ghost predicate HomepagesOnly(aliases: Groups, csr: Index, before: seq<Record>, after: seq<Record>)
    requires aliases.Valid()
  {
    && |after| == |before|
    && forall i :: 0 <= i < |before| && after[i] != before[i] ==>
         && after[i] == before[i].(homepage := after[i].homepage)
         && after[i].homepage != Placeholder
         && AliasSlot(aliases, csr, i)
  }

  /** Slot `i` holds the record of some alias listed in the table. */
  ghost predicate AliasSlot(aliases: Groups, csr: Index, i: nat)
    requires aliases.Valid()
  {
    exists n, a :: n in aliases.entries && a in aliases.entries[n] && a in csr.entries && csr.entries[a] == i
  }

  lemma {:induction false} HomepagesChangeOnlyAliases(aliases: Groups, csr: Index, recs: seq<Record>, k: nat)
    requires aliases.Valid() && InStore(csr, |recs|) && k <= |csr.keys|
    ensures HomepagesOnly(aliases, csr, recs, Homepages(aliases, csr, recs, k))
  {
    if k > 0 {
      HomepagesChangeOnlyAliases(aliases, csr, recs, k - 1);
      var mid := Homepages(aliases, csr, recs, k - 1);
      var name := csr.keys[k - 1];
      var r := Homepages(aliases, csr, recs, k);
      assert r == FixName(name, aliases, csr, mid);
      if name in aliases.entries {
        FixAliasesConverge(aliases.entries[name], csr, mid, mid[csr.entries[name]].homepage);
      }
      forall i | 0 <= i < |recs| && r[i] != recs[i]
        ensures r[i] == recs[i].(homepage := r[i].homepage) && r[i].homepage != Placeholder && AliasSlot(aliases, csr, i)
      {
        if r[i] != mid[i] {
          var a :| a in aliases.entries[name] && a in csr.entries && csr.entries[a] == i;
        }
      }
    }
  }

  /**
   * A name with the placeholder and an alias with a real homepage `U` in a
   * record of its own: the pass adopts `U` as `page` but writes it only into
   * the alias's record, so the name keeps the placeholder.
   */
  lemma NameKeepsPlaceholder(aliases: Groups, csr: Index, recs: seq<Record>)
    requires aliases == Dict(["x"], map["x" := ["y"]]) && csr == Dict(["x", "y"], map["x" := 0, "y" := 1])
    requires recs == [Record("A", Placeholder, NoScholarPage), Record("A", "U", NoScholarPage)]
    requires aliases.Valid() && InStore(csr, |recs|)
    ensures FixAliases(["y"], csr, recs, Placeholder).page == "U"
    ensures Homepages(aliases, csr, recs, |csr.keys|) == recs
    ensures Homepages(aliases, csr, recs, |csr.keys|)[csr.entries["x"]].homepage == Placeholder
  {
    assert FixAlias("y", csr, Scan(recs, Placeholder)) == Scan(recs, "U");
    assert FixAliases(["y"], csr, recs, Placeholder) == Scan(recs, "U");
    assert Homepages(aliases, csr, recs, 1) == recs;
  }

  /**
   * When the alias shares the name's record, as existence propagation
   * arranges for an alias without a record of its own, the shared record
   * takes the homepage another alias had.
   */
  lemma SharedRecordTakesHomepage(aliases: Groups, csr: Index, recs: seq<Record>)
    requires aliases == Dict(["x"], map["x" := ["z", "y"]])
    requires csr == Dict(["x", "z", "y"], map["x" := 0, "z" := 1, "y" := 0])
    requires recs == [Record("A", Placeholder, NoScholarPage), Record("A", "U", NoScholarPage)]
    requires aliases.Valid() && InStore(csr, |recs|)
    ensures Homepages(aliases, csr, recs, |csr.keys|)[csr.entries["x"]].homepage == "U"
  {
    var fixed := [Record("A", "U", NoScholarPage), Record("A", "U", NoScholarPage)];
    SharedScan(csr, recs);
    assert Homepages(aliases, csr, recs, 1) == fixed;
    assert Homepages(aliases, csr, recs, 2) == fixed;
  }

  /** The scan of `x`'s aliases: `z` gives `U` as `page`, and `y` writes it into the shared record. */
  lemma SharedScan(csr: Index, recs: seq<Record>)
    requires csr == Dict(["x", "z", "y"], map["x" := 0, "z" := 1, "y" := 0])
    requires recs == [Record("A", Placeholder, NoScholarPage), Record("A", "U", NoScholarPage)]
    requires InStore(csr, |recs|)
    ensures FixAliases(["z", "y"], csr, recs, Placeholder) ==
      Scan([Record("A", "U", NoScholarPage), Record("A", "U", NoScholarPage)], "U")
  {
    var fixed := [Record("A", "U", NoScholarPage), Record("A", "U", NoScholarPage)];
    assert FixAlias("z", csr, Scan(recs, Placeholder)) == Scan(recs, "U");
    assert FixAliases(["z"], csr, recs, Placeholder) == Scan(recs, "U");
    assert FixAlias("y", csr, Scan(recs, "U")) == Scan(fixed, "U");
  }
}

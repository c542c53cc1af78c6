/**
 * The report-only passes (clean-csrankings.py lines 163-203): the
 * affiliation and scholar-id consistency checks within each alias group,
 * the grouping of names by scholar id, and the clash report for scholar ids
 * shared by names that the alias table does not account for. None of them
 * writes a record; the lines they print are returned as lists.
 */
module Checks {
  import opened Tables
  import opened Records

  /** The field a consistency check compares. */
  datatype Field = Affiliation | ScholarId

  function FieldOf(r: Record, f: Field): string {
    match f
    case Affiliation => r.affiliation
    case ScholarId => r.scholarid
  }

  /** `a` has a record whose `f` differs from `v`. */
  predicate Differs(a: Name, f: Field, v: string, csr: Index, recs: seq<Record>)
    requires InStore(csr, |recs|)
  {
    a in csr.entries && FieldOf(recs[csr.entries[a]], f) != v
  }

  /** Lines 167-169 (or 175-177) for one name: `name` once per alias whose record differs. */
  function MismatchReports(name: Name, aliasList: seq<Name>, f: Field, v: string, csr: Index, recs: seq<Record>): (r: seq<Name>)
    requires InStore(csr, |recs|)
    ensures forall x :: x in r ==> x == name
  {
    if aliasList == [] then []
    else
      MismatchReports(name, aliasList[..|aliasList| - 1], f, v, csr, recs)
        + (if Differs(aliasList[|aliasList| - 1], f, v, csr, recs) then [name] else [])
  }

  /** The names the check for `f` prints for the first `k` names of the table (lines 164-169 and 172-177). */
  function Inconsistent(f: Field, aliases: Groups, csr: Index, recs: seq<Record>, k: nat): (r: seq<Name>)
    requires aliases.Valid() && InStore(csr, |recs|) && k <= |csr.keys|
    ensures forall n :: n in r ==> n in csr.entries && n in aliases.entries
  {
    if k == 0 then []
    else
      var name := csr.keys[k - 1];
      Inconsistent(f, aliases, csr, recs, k - 1)
        + (if name in aliases.entries then MismatchReports(name, aliases.entries[name], f, FieldOf(recs[csr.entries[name]], f), csr, recs) else [])
  }

  /** Lines 164-169 (`f` = `Affiliation`) and 172-177 (`f` = `ScholarId`); the store is only read. */
  method FlagInconsistent(f: Field, aliases: Groups, csrankings: Index, store: array<Record>) returns (reported: seq<Name>)
    requires aliases.Valid() && InStore(csrankings, store.Length)
    ensures reported == Inconsistent(f, aliases, csrankings, store[..], |csrankings.keys|)
  {
    reported := [];
    var i := 0;
    while i < |csrankings.keys|
      invariant 0 <= i <= |csrankings.keys|
      invariant reported == Inconsistent(f, aliases, csrankings, store[..], i)
    {
      var name := csrankings.keys[i];
      var v := FieldOf(store[csrankings.entries[name]], f);
      if name in aliases.entries {
        var aliasList := aliases.entries[name];
        var j := 0;
        ghost var start := reported;
        while j < |aliasList|
          invariant 0 <= j <= |aliasList|
          invariant reported == start + MismatchReports(name, aliasList[..j], f, v, csrankings, store[..])
        {
          var a := aliasList[j];
          assert aliasList[..j + 1][..j] == aliasList[..j];
          if a in csrankings.entries && FieldOf(store[csrankings.entries[a]], f) != v {
            reported := reported + [name];
          }
          j := j + 1;
        }
        assert aliasList[..|aliasList|] == aliasList;
      }
      i := i + 1;
    }
  }

  /** The number of aliases of the list whose record differs in `f` from `v`. */
  function Mismatches(aliasList: seq<Name>, f: Field, v: string, csr: Index, recs: seq<Record>): nat
    requires InStore(csr, |recs|)
  {
    if aliasList == [] then 0
    else Mismatches(aliasList[..|aliasList| - 1], f, v, csr, recs) + (if Differs(aliasList[|aliasList| - 1], f, v, csr, recs) then 1 else 0)
  }

  lemma {:induction false} MismatchReportsCount(name: Name, aliasList: seq<Name>, f: Field, v: string, csr: Index, recs: seq<Record>)
    requires InStore(csr, |recs|)
    ensures multiset(MismatchReports(name, aliasList, f, v, csr, recs)) == multiset{}[name := Mismatches(aliasList, f, v, csr, recs)]
  {
    if aliasList != [] {
      MismatchReportsCount(name, aliasList[..|aliasList| - 1], f, v, csr, recs);
    }
  }

  lemma {:induction false} MismatchesExist(aliasList: seq<Name>, f: Field, v: string, csr: Index, recs: seq<Record>)
    requires InStore(csr, |recs|)
    ensures Mismatches(aliasList, f, v, csr, recs) > 0 <==> exists a :: a in aliasList && Differs(a, f, v, csr, recs)
  {
    if aliasList != [] {
      var init, last := aliasList[..|aliasList| - 1], aliasList[|aliasList| - 1];
      MismatchesExist(init, f, v, csr, recs);
      assert last in aliasList;
      if a :| a in aliasList && Differs(a, f, v, csr, recs) {
        if a != last {
          assert a in init;
        }
      }
    }
  }

  /**
   * The number of times the check for `f` names `n`: the number of aliases of
   * `n` whose record differs from `n`'s in `f`, and zero for a name without
   * a record or without aliases.
   */
  ghost function Expected(n: Name, f: Field, aliases: Groups, csr: Index, recs: seq<Record>): nat
    requires aliases.Valid() && InStore(csr, |recs|)
  {
    if n in csr.entries && n in aliases.entries then Mismatches(aliases.entries[n], f, FieldOf(recs[csr.entries[n]], f), csr, recs)
    else 0
  }

  lemma {:induction false} InconsistentCounts(f: Field, aliases: Groups, csr: Index, recs: seq<Record>, k: nat, n: Name)
    requires aliases.Valid() && InStore(csr, |recs|) && k <= |csr.keys|
    ensures multiset(Inconsistent(f, aliases, csr, recs, k))[n] == if n in csr.keys[..k] then Expected(n, f, aliases, csr, recs) else 0
  {
    if k > 0 {
      InconsistentCounts(f, aliases, csr, recs, k - 1, n);
      var name := csr.keys[k - 1];
      assert csr.keys[..k] == csr.keys[..k - 1] + [name];
      assert name in csr.entries;
      if name in aliases.entries {
        MismatchReportsCount(name, aliases.entries[name], f, FieldOf(recs[csr.entries[name]], f), csr, recs);
      }
      if n == name {
        assert n !in csr.keys[..k - 1] by {
          forall i | 0 <= i < k - 1 ensures csr.keys[i] != csr.keys[k - 1] {}
        }
      }
    }
  }

  /**
   * The check for `f` reports `n` exactly when `n` has a record and some
   * alias of `n` has a record whose `f` differs from `n`'s, and it reports
   * `n` once per such alias.
   */
  lemma InconsistentExactly(f: Field, aliases: Groups, csr: Index, recs: seq<Record>, n: Name)
    requires aliases.Valid() && InStore(csr, |recs|)
    ensures multiset(Inconsistent(f, aliases, csr, recs, |csr.keys|))[n] == Expected(n, f, aliases, csr, recs)
    ensures n in Inconsistent(f, aliases, csr, recs, |csr.keys|) <==>
      n in csr.entries && n in aliases.entries &&
      exists a :: a in aliases.entries[n] && Differs(a, f, FieldOf(recs[csr.entries[n]], f), csr, recs)
  {
    InconsistentCounts(f, aliases, csr, recs, |csr.keys|, n);
    assert csr.keys[..|csr.keys|] == csr.keys;
    if n in csr.entries && n in aliases.entries {
      MismatchesExist(aliases.entries[n], f, FieldOf(recs[csr.entries[n]], f), csr, recs);
    }
  }

  /** The `scholars` dict after the loop of line 186 has handled the first `k` names (lines 185-193). */
  function ScholarGroups(csr: Index, recs: seq<Record>, k: nat): (r: Dict<seq<Name>>)
    requires InStore(csr, |recs|) && k <= |csr.keys|
    ensures r.Valid()
    ensures NoScholarPage !in r.entries
    ensures forall sch :: sch in r.entries ==> r.entries[sch] != []
  {
    if k == 0 then Empty()
    else
      var scholars := ScholarGroups(csr, recs, k - 1);
      var name := csr.keys[k - 1];
      var sch := recs[csr.entries[name]].scholarid;
      if sch == NoScholarPage then scholars
      else scholars.Put(sch, if sch in scholars.entries then scholars.entries[sch] + [name] else [name])
  }

  /** Lines 185-193. */
  method GroupScholars(csrankings: Index, store: array<Record>) returns (scholars: Dict<seq<Name>>)
    requires InStore(csrankings, store.Length)
    ensures scholars == ScholarGroups(csrankings, store[..], |csrankings.keys|)
  {
    scholars := Empty();
    var i := 0;
    while i < |csrankings.keys|
      invariant 0 <= i <= |csrankings.keys|
      invariant scholars == ScholarGroups(csrankings, store[..], i)
    {
      var name := csrankings.keys[i];
      var sch := store[csrankings.entries[name]].scholarid;
      if sch != NoScholarPage {
        if sch in scholars.entries {
          scholars := scholars.Put(sch, scholars.entries[sch] + [name]);
        } else {
          scholars := scholars.Put(sch, [name]);
        }
      }
      i := i + 1;
    }
  }

  /** Name `n` has a record with the real scholar id `sch`. */
  ghost predicate HasId(n: Name, sch: string, csr: Index, recs: seq<Record>)
    requires InStore(csr, |recs|)
  {
    n in csr.entries && sch != NoScholarPage && recs[csr.entries[n]].scholarid == sch
  }

  /**
   * `scholars` files every name with a real scholar id under that id, in
   * table order and once: a list is never empty, and the sentinel is never a
   * key.
   */
  lemma ScholarGroupsExact(csr: Index, recs: seq<Record>, k: nat)
    requires InStore(csr, |recs|) && k <= |csr.keys|
    ensures NoScholarPage !in ScholarGroups(csr, recs, k).entries
    ensures forall sch :: sch in ScholarGroups(csr, recs, k).entries ==>
      ScholarGroups(csr, recs, k).entries[sch] != [] && Distinct(ScholarGroups(csr, recs, k).entries[sch])
    ensures forall sch, n :: sch in ScholarGroups(csr, recs, k).entries && n in ScholarGroups(csr, recs, k).entries[sch] <==>
      n in csr.keys[..k] && HasId(n, sch, csr, recs)
  {
    ScholarGroupExact(csr, recs, k, NoScholarPage);
    forall sch ensures
      && (sch in ScholarGroups(csr, recs, k).entries ==>
            ScholarGroups(csr, recs, k).entries[sch] != [] && Distinct(ScholarGroups(csr, recs, k).entries[sch]))
      && (forall n :: sch in ScholarGroups(csr, recs, k).entries && n in ScholarGroups(csr, recs, k).entries[sch] <==>
            n in csr.keys[..k] && HasId(n, sch, csr, recs))
    {
      ScholarGroupExact(csr, recs, k, sch);
    }
  }

  lemma {:induction false} ScholarGroupExact(csr: Index, recs: seq<Record>, k: nat, sch: string)
    requires InStore(csr, |recs|) && k <= |csr.keys|
    ensures sch == NoScholarPage ==> sch !in ScholarGroups(csr, recs, k).entries
    ensures sch in ScholarGroups(csr, recs, k).entries ==>
      ScholarGroups(csr, recs, k).entries[sch] != [] && Distinct(ScholarGroups(csr, recs, k).entries[sch])
    ensures forall n :: sch in ScholarGroups(csr, recs, k).entries && n in ScholarGroups(csr, recs, k).entries[sch] <==>
      n in csr.keys[..k] && HasId(n, sch, csr, recs)
  {
    if k > 0 {
      ScholarGroupExact(csr, recs, k - 1, sch);
      var prev := ScholarGroups(csr, recs, k - 1);
      var name := csr.keys[k - 1];
      assert csr.keys[..k] == csr.keys[..k - 1] + [name];
      assert name !in csr.keys[..k - 1] by {
        forall i | 0 <= i < k - 1 ensures csr.keys[i] != csr.keys[k - 1] {}
      }
      if recs[csr.entries[name]].scholarid == sch && sch != NoScholarPage && sch in prev.entries {
        DistinctSnoc(prev.entries[sch], name);
      }
    }
  }

  /** A printed clash: the scholar id and the names filed under it (line 203). */
  datatype Clash = Clash(scholarid: string, names: seq<Name>)

  /** The number of aliases the table lists for the names of `names` (lines 198-200). */
  function AliasCount(names: seq<Name>, aliases: Groups): nat
    requires aliases.Valid()
  {
    if names == [] then 0
    else
      var n := names[|names| - 1];
      AliasCount(names[..|names| - 1], aliases) + (if n in aliases.entries then |aliases.entries[n]| else 0)
  }

  /** Lines 196-203 for one id: the names are reported when more than one shares it and `total` stays at two or more. */
  predicate Clashes(names: seq<Name>, aliases: Groups)
    requires aliases.Valid()
  {
    |names| > 1 && |names| - AliasCount(names, aliases) >= 2
  }

  /** The clashes printed for the first `k` ids of `scholars`. */
  function ClashReports(scholars: Dict<seq<Name>>, aliases: Groups, k: nat): (r: seq<Clash>)
    requires scholars.Valid() && aliases.Valid() && k <= |scholars.keys|
    ensures forall c :: c in r ==>
      c.scholarid in scholars.entries && c.names == scholars.entries[c.scholarid] && |c.names| > 1
  {
    if k == 0 then []
    else
      var sch := scholars.keys[k - 1];
      ClashReports(scholars, aliases, k - 1) + (if Clashes(scholars.entries[sch], aliases) then [Clash(sch, scholars.entries[sch])] else [])
  }

  /** Lines 197-200: `total` for one list of names. */
  method Total(names: seq<Name>, aliases: Groups) returns (total: int)
    requires aliases.Valid()
    ensures total == |names| - AliasCount(names, aliases)
  {
    total := |names|;
    var j := 0;
    while j < |names|
      invariant 0 <= j <= |names|
      invariant total == |names| - AliasCount(names[..j], aliases)
    {
      assert names[..j + 1][..j] == names[..j];
      if names[j] in aliases.entries {
        total := total - |aliases.entries[names[j]]|;
      }
      j := j + 1;
    }
    assert names[..|names|] == names;
  }

  /** Lines 195-203. */
  method ReportClashes(scholars: Dict<seq<Name>>, aliases: Groups) returns (clashes: seq<Clash>)
    requires scholars.Valid() && aliases.Valid()
    ensures clashes == ClashReports(scholars, aliases, |scholars.keys|)
  {
    clashes := [];
    var i := 0;
    while i < |scholars.keys|
      invariant 0 <= i <= |scholars.keys|
      invariant clashes == ClashReports(scholars, aliases, i)
    {
      var sch := scholars.keys[i];
      var names := scholars.entries[sch];
      if |names| > 1 {
        var total := Total(names, aliases);
        if total >= 2 {
          clashes := clashes + [Clash(sch, names)];
        }
      }
      i := i + 1;
    }
  }

  /** A clash is printed for an id exactly when its list satisfies `Clashes`, and with that very list. */
  lemma {:induction false} ClashReportsExact(scholars: Dict<seq<Name>>, aliases: Groups, k: nat)
    requires scholars.Valid() && aliases.Valid() && k <= |scholars.keys|
    ensures forall c :: c in ClashReports(scholars, aliases, k) <==>
      c.scholarid in scholars.keys[..k] && c.names == scholars.entries[c.scholarid] && Clashes(c.names, aliases)
  {
    if k > 0 {
      ClashReportsExact(scholars, aliases, k - 1);
      assert scholars.keys[..k] == scholars.keys[..k - 1] + [scholars.keys[k - 1]];
    }
  }

  /** Names without aliases cannot account for one another: two or more of them sharing an id always clash. */
  lemma {:induction false} NoAliasesClash(names: seq<Name>, aliases: Groups)
    requires aliases.Valid() && |names| >= 2
    requires forall n :: n in names ==> n !in aliases.entries
    ensures Clashes(names, aliases)
  {
    NoAliasCount(names, aliases);
  }

  lemma {:induction false} NoAliasCount(names: seq<Name>, aliases: Groups)
    requires aliases.Valid()
    requires forall n :: n in names ==> n !in aliases.entries
    ensures AliasCount(names, aliases) == 0
  {
    if names != [] {
      assert names[|names| - 1] in names;
      NoAliasCount(names[..|names| - 1], aliases);
    }
  }

  /**
   * The subtraction counts every alias a name has, whether or not the alias
   * shares the id: `p` and `q` are not aliases of one another and share an
   * id, but `p` has an unrelated alias `r`, so no clash is printed.
   */
  lemma UnrelatedAliasHidesClash(aliases: Groups)
    requires aliases == Dict(["p"], map["p" := ["r"]]) && aliases.Valid()
    ensures "q" !in aliases.entries && "q" !in aliases.entries["p"]
    ensures !Clashes(["p", "q"], aliases)
  {
    assert AliasCount(["p"], aliases) == 1;
    assert ["p", "q"][..1] == ["p"];
  }
}

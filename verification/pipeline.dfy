/**
 * The script from top to bottom (clean-csrankings.py lines 49-253): load
 * both tables, remove alias cycles, prune groups without records, write the
 * alias table back, reconcile the records through the alias groups, report
 * inconsistencies and clashes, and write the record table back. The files
 * become row lists and the printed lines become returned lists.
 */
module Pipeline {
  import opened Tables
  import opened AliasTable
  import opened Records
  import opened Cycles
  import opened Pruning
  import opened Propagation
  import opened Backfill
  import opened Homepages
  import opened Checks
  import opened Output

  /** The alias table the script writes back and reconciles with (after line 110). */
  function CleanAliases(aliasRows: seq<AliasRow>, recordRows: seq<RecordRow>): (g: Groups)
    ensures g.Valid()
  {
    AliasesKnown(aliasRows);
    CycleFreeEdges(Grouped(aliasRows), Reverse(aliasRows));
    Pruned(CycleFree(Grouped(aliasRows), Reverse(aliasRows)), Indexed(recordRows))
  }

  /** The `csrankings` table after existence propagation (line 136). */
  function Linked(aliasRows: seq<AliasRow>, recordRows: seq<RecordRow>): (csr: Index)
    ensures InStore(csr, |recordRows|)
  {
    var g := CleanAliases(aliasRows, recordRows);
    PropagatedInStore(g, Indexed(recordRows), |recordRows|);
    Propagated(g, Indexed(recordRows), |g.keys|)
  }

  /** Propagation only copies slots, so every slot still names a stored record. */
  lemma PropagatedInStore(g: Groups, csr: Index, size: nat)
    requires g.Valid() && InStore(csr, size)
    ensures InStore(Propagated(g, csr, |g.keys|), size)
  {
    PropagatedSlots(g, csr, |g.keys|);
    var r := Propagated(g, csr, |g.keys|);
    forall n | n in r.entries ensures r.entries[n] < size {
      assert r.entries[n] in r.entries.Values;
      var m :| m in csr.entries && csr.entries[m] == r.entries[n];
    }
  }

  /** The record objects as loaded, one per row. */
  function Loaded(recordRows: seq<RecordRow>): (recs: seq<Record>)
    ensures |recs| == |recordRows|
  {
    seq(|recordRows|, i requires 0 <= i < |recordRows| => RecordOf(recordRows[i]))
  }

  /** What the script prints and writes after the alias file. */
  datatype Report = Report(records: seq<RecordRow>, affiliations: seq<Name>, scholarPages: seq<Name>, clashes: seq<Clash>)

  /** Lines 123-253: the reconciliation, or the `KeyError` that stops it at line 147. */
  function Reconciled(aliasRows: seq<AliasRow>, recordRows: seq<RecordRow>): (r: Result<Report>)
    ensures r.KeyError? ==> r.key !in Linked(aliasRows, recordRows).entries
    ensures r.Ok? ==> |r.value.records| == |Linked(aliasRows, recordRows).keys|
    ensures r.Ok? ==> forall n :: n in r.value.affiliations + r.value.scholarPages ==>
      n in CleanAliases(aliasRows, recordRows).entries && n in Linked(aliasRows, recordRows).entries
    ensures r.Ok? ==> forall c :: c in r.value.clashes ==> |c.names| > 1
  {
    var g := CleanAliases(aliasRows, recordRows);
    var csr := Linked(aliasRows, recordRows);
    match Backfilled(g, Reverse(aliasRows), csr, Loaded(recordRows), |csr.keys|)
    case KeyError(e) => KeyError(e)
    case Ok(filled) =>
      var recs := Homepages.Homepages(g, csr, filled, |csr.keys|);
      var scholars := ScholarGroups(csr, recs, |csr.keys|);
      Ok(Report(
        RecordOutput(csr, recs),
        Inconsistent(Affiliation, g, csr, recs, |csr.keys|),
        Inconsistent(ScholarId, g, csr, recs, |csr.keys|),
        ClashReports(scholars, g, |scholars.keys|)))
  }

  /** The whole script on the rows of its two input files. */
  method Clean(aliasRows: seq<AliasRow>, recordRows: seq<RecordRow>)
    returns (aliasesOut: seq<AliasRow>, cycles: set<Name>, report: Result<Report>)
    ensures aliasesOut == AliasOutput(CleanAliases(aliasRows, recordRows))
    ensures cycles == Roots(Grouped(aliasRows), |Grouped(aliasRows).keys|).flagged
    ensures report == Reconciled(aliasRows, recordRows)
  {
    var aliases, aliasToName := LoadAliases(aliasRows);
    var store, csrankings := LoadRecords(recordRows);
    assert store[..] == Loaded(recordRows);
    AliasesKnown(aliasRows);
    CycleFreeEdges(aliases, aliasToName);
    var kept;
    kept, cycles := RemoveCycles(aliases, aliasToName);
    aliases := Prune(kept, csrankings);
    aliasesOut := WriteAliases(aliases);
    csrankings := PropagateExistence(aliases, csrankings);
    assert csrankings == Linked(aliasRows, recordRows);
    var error := BackfillScholars(aliases, aliasToName, csrankings, store);
    if error.Some? {
      report := KeyError(error.value);
      return;
    }
    FixHomepages(aliases, csrankings, store);
    var affiliations := FlagInconsistent(Affiliation, aliases, csrankings, store);
    var scholarPages := FlagInconsistent(ScholarId, aliases, csrankings, store);
    var scholars := GroupScholars(csrankings, store);
    var clashes := ReportClashes(scholars, aliases);
    var records := WriteRecords(csrankings, store);
    report := Ok(Report(records, affiliations, scholarPages, clashes));
  }

  /**
   * When every alias is listed under a single canonical name, the table the
   * script keeps has no empty group, lists every alias once, and has no
   * alias that is also a canonical name.
   */
  lemma CleanAliasesShape(aliasRows: seq<AliasRow>, recordRows: seq<RecordRow>)
    requires SingleName(aliasRows)
    ensures Once(CleanAliases(aliasRows, recordRows)) && Flat(CleanAliases(aliasRows, recordRows))
    ensures forall n :: n in CleanAliases(aliasRows, recordRows).entries ==> CleanAliases(aliasRows, recordRows).entries[n] != []
  {
    var g := Grouped(aliasRows);
    var a2n := Reverse(aliasRows);
    AliasesKnown(aliasRows);
    GroupedLists(aliasRows);
    CycleFreeEdges(g, a2n);
    NoChains(g, a2n);
    PrunedShape(CycleFree(g, a2n), Indexed(recordRows));
  }

  /**
   * After propagation every canonical name the script keeps has a record,
   * and so has every alias of a name that had a record from the file.
   */
  lemma LinkedCoversAliases(aliasRows: seq<AliasRow>, recordRows: seq<RecordRow>)
    ensures forall n :: n in CleanAliases(aliasRows, recordRows).entries ==> n in Linked(aliasRows, recordRows).entries
    ensures forall n, a ::
      (n in CleanAliases(aliasRows, recordRows).entries && n in Indexed(recordRows).entries &&
       a in CleanAliases(aliasRows, recordRows).entries[n]) ==> a in Linked(aliasRows, recordRows).entries
  {
    var g := CleanAliases(aliasRows, recordRows);
    var csr := Indexed(recordRows);
    PropagationReaches(g, csr);
    forall n | n in g.entries ensures n in Linked(aliasRows, recordRows).entries {
      HasRecordMeans(g.entries[n], csr);
      assert Reached(g, csr, Linked(aliasRows, recordRows), n);
    }
  }

  /**
   * With every alias listed under a single canonical name, existence
   * propagation shares records: an alias without a record of its own gets
   * its canonical name's record, and a canonical name without one gets the
   * record of its first alias that has one.
   */
  lemma LinkedShares(aliasRows: seq<AliasRow>, recordRows: seq<RecordRow>)
    requires SingleName(aliasRows)
    ensures forall n :: n in CleanAliases(aliasRows, recordRows).entries ==>
      Shares(CleanAliases(aliasRows, recordRows), Indexed(recordRows), Linked(aliasRows, recordRows), n)
  {
    CleanAliasesShape(aliasRows, recordRows);
    PropagationShares(CleanAliases(aliasRows, recordRows), Indexed(recordRows));
  }

  /**
   * When every alias is listed under a single canonical name, no canonical
   * name the script keeps is itself an alias of some row. The alias scan of
   * lines 143-145 runs only for kept canonical names, and the lookup of
   * lines 146-148 only for aliases, so on such a table the unconditional
   * overwrite of line 148 never replaces an id the scan found.
   */
  lemma KeptNamesAreNotAliases(aliasRows: seq<AliasRow>, recordRows: seq<RecordRow>)
    requires SingleName(aliasRows)
    ensures forall n :: n in CleanAliases(aliasRows, recordRows).entries ==> n !in Reverse(aliasRows)
  {
    var g := Grouped(aliasRows);
    var a2n := Reverse(aliasRows);
    AliasesKnown(aliasRows);
    GroupedLists(aliasRows);
    NoAliasKept(g, a2n);
    forall n | n in a2n ensures n !in CleanAliases(aliasRows, recordRows).entries {
      ReverseAlias(aliasRows, n);
      var i :| 0 <= i < |aliasRows| && aliasRows[i].alias == n;
      GroupedMember(aliasRows, aliasRows[i].name);
      assert aliasRows[i] == AliasRow(n, aliasRows[i].name);
      assert n in Universe(g);
    }
  }
}

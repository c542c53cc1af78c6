/**
 * Writing the two tables back (clean-csrankings.py lines 112-120 and
 * 242-253): the alias table as one row per (alias, name) pair and the record
 * table as one row per name, both in increasing order of name, with trailing
 * slashes stripped from homepages.
 */
module Output {
  import opened Tables
  import opened AliasTable
  import opened Records

  /** Python's string order: `a` precedes or equals `b` character by character, a prefix first. */
  predicate Below(a: string, b: string) {
    a == [] || (b != [] && (a[0] < b[0] || (a[0] == b[0] && Below(a[1..], b[1..]))))
  }

  lemma {:induction false} BelowTotal(a: string, b: string)
    ensures Below(a, b) || Below(b, a)
  {
    if a != [] && b != [] && a[0] == b[0] {
      BelowTotal(a[1..], b[1..]);
    }
  }

  lemma {:induction false} BelowTrans(a: string, b: string, c: string)
    requires Below(a, b) && Below(b, c)
    ensures Below(a, c)
  {
    if a != [] && b != [] && c != [] && a[0] == b[0] && b[0] == c[0] {
      BelowTrans(a[1..], b[1..], c[1..]);
    }
  }

  lemma {:induction false} BelowAntisymmetric(a: string, b: string)
    requires Below(a, b) && Below(b, a)
    ensures a == b
  {
    if a != [] {
      BelowAntisymmetric(a[1..], b[1..]);
      assert a == [a[0]] + a[1..] && b == [b[0]] + b[1..];
    }
  }

  ghost predicate SortedNames(s: seq<Name>) {
    forall i, j :: 0 <= i < j < |s| ==> Below(s[i], s[j])
  }

  /** `x` placed before the first element it precedes. */
  function Insert(x: Name, s: seq<Name>): seq<Name> {
    if s == [] then [x]
    else if Below(x, s[0]) then [x] + s
    else [s[0]] + Insert(x, s[1..])
  }

  /** `sorted` on the keys of a table (lines 117 and 243). */
  function Sort(s: seq<Name>): (r: seq<Name>)
    ensures multiset(r) == multiset(s)
    ensures SortedNames(r)
  {
    if s == [] then []
    else
      InsertSorted(s[0], Sort(s[1..]));
      assert s == [s[0]] + s[1..];
      Insert(s[0], Sort(s[1..]))
  }

  lemma {:induction false} InsertMembers(x: Name, s: seq<Name>)
    ensures multiset(Insert(x, s)) == multiset(s) + multiset{x}
  {
    if s != [] {
      assert s == [s[0]] + s[1..];
      if !Below(x, s[0]) {
        InsertMembers(x, s[1..]);
      }
    }
  }

  lemma {:induction false} InsertSorted(x: Name, s: seq<Name>)
    requires SortedNames(s)
    ensures multiset(Insert(x, s)) == multiset(s) + multiset{x}
    ensures SortedNames(Insert(x, s))
  {
    InsertMembers(x, s);
    if s != [] {
      if Below(x, s[0]) {
        InsertFront(x, s);
      } else {
        BelowTotal(x, s[0]);
        InsertSorted(x, s[1..]);
        InsertAfter(x, s, Insert(x, s[1..]));
      }
    }
  }

  lemma InsertFront(x: Name, s: seq<Name>)
    requires SortedNames(s) && s != [] && Below(x, s[0])
    ensures SortedNames([x] + s)
  {
    forall j | 0 < j < |s| ensures Below(x, s[j]) {
      BelowTrans(x, s[0], s[j]);
    }
    forall i, j | 0 <= i < j < |[x] + s| ensures Below(([x] + s)[i], ([x] + s)[j]) {
      if i > 0 {
        assert ([x] + s)[i] == s[i - 1];
      }
    }
  }

  lemma InsertAfter(x: Name, s: seq<Name>, t: seq<Name>)
    requires SortedNames(s) && s != [] && Below(s[0], x)
    requires SortedNames(t) && multiset(t) == multiset(s[1..]) + multiset{x}
    ensures SortedNames([s[0]] + t)
  {
    forall j | 0 <= j < |t| ensures Below(s[0], t[j]) {
      assert t[j] in multiset(t);
      if t[j] != x {
        assert t[j] in multiset(s[1..]);
        var k :| 0 <= k < |s[1..]| && s[1..][k] == t[j];
        assert s[k + 1] == t[j];
      }
    }
    forall i, j | 0 <= i < j < |[s[0]] + t| ensures Below(([s[0]] + t)[i], ([s[0]] + t)[j]) {
      if i > 0 {
        assert ([s[0]] + t)[i] == t[i - 1] && ([s[0]] + t)[j] == t[j - 1];
      } else {
        assert ([s[0]] + t)[j] == t[j - 1];
      }
    }
  }

  /** Sorting a list without repeats gives a strictly increasing list without repeats. */
  lemma SortDistinct(s: seq<Name>)
    requires Distinct(s)
    ensures Distinct(Sort(s))
    ensures forall x :: x in Sort(s) <==> x in s
  {
    var t := Sort(s);
    forall x ensures x in t <==> x in s {
      assert x in t <==> x in multiset(t);
    }
    forall i, j | 0 <= i < j < |t| ensures t[i] != t[j] {
      if t[i] == t[j] {
        MultisetTwice(t, i, j);
        DistinctOnce(s, t[i]);
      }
    }
  }

  lemma MultisetTwice(t: seq<Name>, i: int, j: int)
    requires 0 <= i < j < |t| && t[i] == t[j]
    ensures multiset(t)[t[i]] >= 2
  {
    assert t == t[..i] + [t[i]] + t[i + 1..j] + [t[j]] + t[j + 1..];
  }

  lemma {:induction false} DistinctOnce(s: seq<Name>, x: Name)
    requires Distinct(s)
    ensures multiset(s)[x] <= 1
  {
    if s != [] {
      DistinctOnce(s[1..], x);
      assert s == [s[0]] + s[1..];
      if s[0] == x {
        assert x !in s[1..];
      }
    }
  }

  /** Every name of `ns` is a key of `d`. */
  ghost predicate Listed<V>(ns: seq<Name>, d: Dict<V>) {
    forall i :: 0 <= i < |ns| ==> ns[i] in d.entries
  }

  /** The sorted keys of a table: each key once, in increasing order. */
  lemma SortKeys<V>(d: Dict<V>)
    requires d.Valid()
    ensures |Sort(d.keys)| == |d.keys| && Distinct(Sort(d.keys)) && SortedNames(Sort(d.keys)) && Listed(Sort(d.keys), d)
    ensures forall n :: n in Sort(d.keys) <==> n in d.entries
  {
    SortDistinct(d.keys);
    assert |Sort(d.keys)| == |multiset(Sort(d.keys))| == |multiset(d.keys)| == |d.keys|;
    forall i | 0 <= i < |Sort(d.keys)| ensures Sort(d.keys)[i] in d.entries {
      assert Sort(d.keys)[i] in Sort(d.keys);
    }
  }

  /** The rows written for one name (lines 118-120). */
  function GroupRows(n: Name, aliasList: seq<Name>): seq<AliasRow> {
    if aliasList == [] then []
    else GroupRows(n, aliasList[..|aliasList| - 1]) + [AliasRow(aliasList[|aliasList| - 1], n)]
  }

  /** The rows written for the first `k` names of `ns`. */
  function AliasRowsUpTo(aliases: Groups, ns: seq<Name>, k: nat): seq<AliasRow>
    requires Listed(ns, aliases) && k <= |ns|
  {
    if k == 0 then []
    else AliasRowsUpTo(aliases, ns, k - 1) + GroupRows(ns[k - 1], aliases.entries[ns[k - 1]])
  }

  /** The rows of the rewritten `dblp-aliases.csv` (lines 113-120). */
  function AliasOutput(aliases: Groups): (rows: seq<AliasRow>)
    requires aliases.Valid()
    ensures forall n :: AliasesOf(rows, n) == if n in aliases.entries then aliases.entries[n] else []
  {
    SortKeys(aliases);
    AliasRowsAll(aliases, Sort(aliases.keys));
    AliasRowsUpTo(aliases, Sort(aliases.keys), |aliases.keys|)
  }

  /** The rows written for all of `ns` list, for every name of `ns`, its group. */
  lemma AliasRowsAll(aliases: Groups, ns: seq<Name>)
    requires Distinct(ns) && Listed(ns, aliases)
    ensures forall n :: AliasesOf(AliasRowsUpTo(aliases, ns, |ns|), n) == if n in ns then aliases.entries[n] else []
  {
    assert ns[..|ns|] == ns;
    forall n ensures AliasesOf(AliasRowsUpTo(aliases, ns, |ns|), n) == if n in ns then aliases.entries[n] else [] {
      AliasRowsAliases(aliases, ns, |ns|, n);
    }
  }

  /** Lines 113-120 without the file. */
  method WriteAliases(aliases: Groups) returns (rows: seq<AliasRow>)
    requires aliases.Valid()
    ensures rows == AliasOutput(aliases)
  {
    SortKeys(aliases);
    rows := WriteNames(aliases, Sort(aliases.keys));
  }

  /** The loop of line 117 over the names in the order given. */
  method WriteNames(aliases: Groups, names: seq<Name>) returns (rows: seq<AliasRow>)
    requires Listed(names, aliases)
    ensures rows == AliasRowsUpTo(aliases, names, |names|)
  {
    rows := [];
    var i := 0;
    while i < |names|
      invariant 0 <= i <= |names|
      invariant rows == AliasRowsUpTo(aliases, names, i)
    {
      rows := WriteGroup(rows, names[i], aliases.entries[names[i]]);
      i := i + 1;
    }
  }

  /** Lines 117-120: the rows of one name, appended after `rows`. */
  method WriteGroup(rows: seq<AliasRow>, n: Name, aliasList: seq<Name>) returns (out: seq<AliasRow>)
    ensures out == rows + GroupRows(n, aliasList)
  {
    out := rows;
    var j := 0;
    while j < |aliasList|
      invariant 0 <= j <= |aliasList|
      invariant out == rows + GroupRows(n, aliasList[..j])
    {
      assert aliasList[..j + 1][..j] == aliasList[..j];
      out := out + [AliasRow(aliasList[j], n)];
      j := j + 1;
    }
    assert aliasList[..|aliasList|] == aliasList;
  }

  lemma {:induction false} AliasesOfAppend(a: seq<AliasRow>, b: seq<AliasRow>, n: Name)
    ensures AliasesOf(a + b, n) == AliasesOf(a, n) + AliasesOf(b, n)
  {
    if a != [] {
      assert (a + b)[0] == a[0] && (a + b)[1..] == a[1..] + b;
      AliasesOfAppend(a[1..], b, n);
    } else {
      assert a + b == b;
    }
  }

  lemma {:induction false} GroupRowsAliases(m: Name, aliasList: seq<Name>, n: Name)
    ensures AliasesOf(GroupRows(m, aliasList), n) == if m == n then aliasList else []
  {
    if aliasList != [] {
      var init := aliasList[..|aliasList| - 1];
      GroupRowsAliases(m, init, n);
      AliasesOfSnoc(GroupRows(m, init), AliasRow(aliasList[|aliasList| - 1], m), n);
      assert init + [aliasList[|aliasList| - 1]] == aliasList;
    }
  }

  lemma {:induction false} AliasRowsAliases(aliases: Groups, ns: seq<Name>, k: nat, n: Name)
    requires Distinct(ns) && Listed(ns, aliases) && k <= |ns|
    ensures AliasesOf(AliasRowsUpTo(aliases, ns, k), n) == if n in ns[..k] then aliases.entries[n] else []
  {
    if k > 0 {
      var last := ns[k - 1];
      var before := AliasRowsUpTo(aliases, ns, k - 1);
      var group := GroupRows(last, aliases.entries[last]);
      var rest, mine := AliasesOf(before, n), AliasesOf(group, n);
      assert rest == if n in ns[..k - 1] then aliases.entries[n] else [] by {
        AliasRowsAliases(aliases, ns, k - 1, n);
      }
      assert mine == if n == last then aliases.entries[n] else [] by {
        GroupRowsAliases(last, aliases.entries[last], n);
      }
      assert AliasesOf(AliasRowsUpTo(aliases, ns, k), n) == rest + mine by {
        assert AliasRowsUpTo(aliases, ns, k) == before + group;
        AliasesOfAppend(before, group, n);
      }
      assert n in ns[..k] <==> n == last || n in ns[..k - 1] by {
        PrefixSnoc(ns, k);
      }
      if n == last {
        DistinctLast(ns, k);
        assert rest + mine == mine;
      } else {
        assert rest + mine == rest;
      }
    }
  }

  /**
   * Reading the rewritten alias file back gives the same groups: every name
   * with its aliases in the same order, the names now in sorted order.
   * Groups are never empty in the script, since each is built by appending
   * an alias.
   */
  lemma AliasOutputRoundTrip(aliases: Groups)
    requires aliases.Valid() && forall n :: n in aliases.entries ==> aliases.entries[n] != []
    ensures Grouped(AliasOutput(aliases)).entries == aliases.entries
    ensures Grouped(AliasOutput(aliases)).keys == Sort(aliases.keys)
  {
    AliasOutputEntries(aliases);
    AliasOutputOrder(aliases);
  }

  lemma AliasOutputEntries(aliases: Groups)
    requires aliases.Valid() && forall n :: n in aliases.entries ==> aliases.entries[n] != []
    ensures Grouped(AliasOutput(aliases)).entries == aliases.entries
  {
    var back := Grouped(AliasOutput(aliases)).entries;
    forall n ensures n in back <==> n in aliases.entries
      ensures n in back ==> back[n] == aliases.entries[n]
    {
      AliasOutputGroup(aliases, n);
    }
    SameEntries(back, aliases.entries);
  }

  lemma AliasOutputOrder(aliases: Groups)
    requires aliases.Valid() && forall n :: n in aliases.entries ==> aliases.entries[n] != []
    ensures Grouped(AliasOutput(aliases)).keys == Sort(aliases.keys)
  {
    SortKeys(aliases);
    GroupedOrder(aliases, Sort(aliases.keys), |aliases.keys|);
    assert Sort(aliases.keys)[..|aliases.keys|] == Sort(aliases.keys);
  }

  /** Two maps with the same keys and the same value at each key are equal. */
  lemma SameEntries<K, V>(m: map<K, V>, m': map<K, V>)
    requires forall k :: k in m <==> k in m'
    requires forall k :: k in m ==> m[k] == m'[k]
    ensures m == m'
  {
  }

  /** Reading the rewritten alias file back gives name `n` its group, and no group when it had none. */
  lemma AliasOutputGroup(aliases: Groups, n: Name)
    requires aliases.Valid() && forall n :: n in aliases.entries ==> aliases.entries[n] != []
    ensures n in Grouped(AliasOutput(aliases)).entries <==> n in aliases.entries
    ensures n in aliases.entries ==> Grouped(AliasOutput(aliases)).entries[n] == aliases.entries[n]
  {
    GroupedLists(AliasOutput(aliases));
  }

  /** Loading the rows of the first `k` names of `ns` lists those names in the order of `ns`. */
  lemma {:induction false} GroupedOrder(aliases: Groups, ns: seq<Name>, k: nat)
    requires Distinct(ns) && Listed(ns, aliases) && k <= |ns|
    requires forall n :: n in aliases.entries ==> aliases.entries[n] != []
    ensures Grouped(AliasRowsUpTo(aliases, ns, k)).keys == ns[..k]
  {
    if k > 0 {
      GroupedOrder(aliases, ns, k - 1);
      assert ns[k - 1] !in ns[..k - 1] by {
        forall i | 0 <= i < k - 1 ensures ns[i] != ns[k - 1] {}
      }
      GroupedAppend(AliasRowsUpTo(aliases, ns, k - 1), ns[k - 1], aliases.entries[ns[k - 1]]);
      PrefixSnoc(ns, k);
    }
  }

  /** Loading the rows of a new name after `rows` appends that name to the keys. */
  lemma {:induction false} GroupedAppend(rows: seq<AliasRow>, n: Name, aliasList: seq<Name>)
    requires aliasList != [] && n !in Grouped(rows).keys
    ensures Grouped(rows + GroupRows(n, aliasList)).keys == Grouped(rows).keys + [n]
  {
    var init := aliasList[..|aliasList| - 1];
    var r := AliasRow(aliasList[|aliasList| - 1], n);
    var all := rows + GroupRows(n, aliasList);
    assert all == (rows + GroupRows(n, init)) + [r];
    assert all[..|all| - 1] == rows + GroupRows(n, init);
    if init == [] {
      assert rows + GroupRows(n, init) == rows;
    } else {
      GroupedAppend(rows, n, init);
    }
  }

  /** `homepage.rstrip('/')` (line 251). */
  function RStrip(s: string): (r: string)
    ensures r == [] || r[|r| - 1] != '/'
    ensures r <= s
  {
    if s != [] && s[|s| - 1] == '/' then RStrip(s[..|s| - 1]) else s
  }

  function Slashes(k: nat): string {
    seq(k, _ => '/')
  }

  /** The stripped homepage does not end in a slash, and the original is it followed by slashes only. */
  lemma {:induction false} RStripStrips(s: string)
    ensures RStrip(s) == [] || RStrip(s)[|RStrip(s)| - 1] != '/'
    ensures |RStrip(s)| <= |s| && s == RStrip(s) + Slashes(|s| - |RStrip(s)|)
  {
    if s != [] && s[|s| - 1] == '/' {
      var init := s[..|s| - 1];
      RStripStrips(init);
      assert Slashes(|s| - |RStrip(s)|) == Slashes(|init| - |RStrip(init)|) + ['/'];
    }
  }

  /** Stripping twice is stripping once. */
  lemma RStripIdempotent(s: string)
    ensures RStrip(RStrip(s)) == RStrip(s)
  {
    RStripStrips(s);
  }

  /** The row written for name `n` with record `r` (lines 248-252). */
  function RecordRowOf(n: Name, r: Record): RecordRow {
    RecordRow(n, r.affiliation, RStrip(r.homepage), r.scholarid)
  }

  /** The rows written for the first `k` names of `ns`. */
  function RecordRowsUpTo(csr: Index, recs: seq<Record>, ns: seq<Name>, k: nat): (rows: seq<RecordRow>)
    requires InStore(csr, |recs|) && Listed(ns, csr) && k <= |ns|
    ensures |rows| == k
  {
    if k == 0 then []
    else RecordRowsUpTo(csr, recs, ns, k - 1) + [RecordRowOf(ns[k - 1], recs[csr.entries[ns[k - 1]]])]
  }

  /** The rows of the rewritten `csrankings.csv` (lines 243-253). */
  function RecordOutput(csr: Index, recs: seq<Record>): (rows: seq<RecordRow>)
    requires InStore(csr, |recs|)
    ensures |rows| == |csr.keys|
    ensures forall i, j :: 0 <= i < j < |rows| ==> Below(rows[i].name, rows[j].name) && rows[i].name != rows[j].name
  {
    SortKeys(csr);
    RecordRowsNames(csr, recs, Sort(csr.keys), |csr.keys|);
    RecordRowsUpTo(csr, recs, Sort(csr.keys), |csr.keys|)
  }

  /** Lines 243-253 without the file. */
  method WriteRecords(csrankings: Index, store: array<Record>) returns (rows: seq<RecordRow>)
    requires InStore(csrankings, store.Length)
    ensures rows == RecordOutput(csrankings, store[..])
  {
    SortKeys(csrankings);
    var names := Sort(csrankings.keys);
    rows := [];
    var i := 0;
    while i < |names|
      invariant 0 <= i <= |names|
      invariant rows == RecordRowsUpTo(csrankings, store[..], names, i)
    {
      var n := names[i];
      var r := store[csrankings.entries[n]];
      rows := rows + [RecordRow(n, r.affiliation, RStrip(r.homepage), r.scholarid)];
      i := i + 1;
    }
  }

  lemma {:induction false} RecordRowsNames(csr: Index, recs: seq<Record>, ns: seq<Name>, k: nat)
    requires InStore(csr, |recs|) && Listed(ns, csr) && k <= |ns|
    ensures forall i :: 0 <= i < k ==>
      RecordRowsUpTo(csr, recs, ns, k)[i] == RecordRowOf(ns[i], recs[csr.entries[ns[i]]])
  {
    if k > 0 {
      RecordRowsNames(csr, recs, ns, k - 1);
    }
  }

  /** The rewritten record file has row `i` for the `i`-th name in sorted order. */
  lemma RecordOutputRows(csr: Index, recs: seq<Record>)
    requires InStore(csr, |recs|)
    ensures |RecordOutput(csr, recs)| == |Sort(csr.keys)| == |csr.keys| && Listed(Sort(csr.keys), csr)
    ensures forall i :: 0 <= i < |csr.keys| ==>
      RecordOutput(csr, recs)[i] == RecordRowOf(Sort(csr.keys)[i], recs[csr.entries[Sort(csr.keys)[i]]])
  {
    SortKeys(csr);
    RecordRowsNames(csr, recs, Sort(csr.keys), |csr.keys|);
  }

  /**
   * Reading the rewritten record file back gives exactly the names of the
   * table, each with its record, the homepage stripped of trailing slashes.
   */
  lemma RecordOutputRoundTrip(csr: Index, recs: seq<Record>)
    requires InStore(csr, |recs|)
    ensures forall n :: n in Indexed(RecordOutput(csr, recs)).entries <==> n in csr.entries
    ensures forall n :: n in csr.entries ==>
      RecordOf(RecordOutput(csr, recs)[Indexed(RecordOutput(csr, recs)).entries[n]])
        == recs[csr.entries[n]].(homepage := RStrip(recs[csr.entries[n]].homepage))
  {
    forall n ensures n in Indexed(RecordOutput(csr, recs)).entries <==> n in csr.entries {
      RecordOutputName(csr, recs, n);
    }
    forall n | n in csr.entries
      ensures RecordOf(RecordOutput(csr, recs)[Indexed(RecordOutput(csr, recs)).entries[n]])
        == recs[csr.entries[n]].(homepage := RStrip(recs[csr.entries[n]].homepage))
    {
      RecordOutputName(csr, recs, n);
    }
  }

  lemma RecordOutputName(csr: Index, recs: seq<Record>, n: Name)
    requires InStore(csr, |recs|)
    ensures n in Indexed(RecordOutput(csr, recs)).entries <==> n in csr.entries
    ensures n in csr.entries ==>
      RecordOf(RecordOutput(csr, recs)[Indexed(RecordOutput(csr, recs)).entries[n]])
        == recs[csr.entries[n]].(homepage := RStrip(recs[csr.entries[n]].homepage))
  {
    RecordOutputRows(csr, recs);
    var ns := Sort(csr.keys);
    var rows := RecordOutput(csr, recs);
    IndexedName(rows, n);
    SortKeys(csr);
    if n in csr.entries {
      var i :| 0 <= i < |ns| && ns[i] == n;
      assert rows[i].name == n;
    }
  }
}

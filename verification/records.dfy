/**
 * The record table `csrankings` (clean-csrankings.py lines 64-70). Every
 * row of `csrankings.csv` becomes a fresh record object; later passes store
 * one object under several names (lines 130 and 135) and update fields
 * through any of them (lines 151 and 161). The objects live in a record
 * store, an array with one slot per loaded row, and the table maps each
 * name to the slot of its record, so two names sharing a slot share the
 * record exactly as two dict entries sharing one Python object do.
 */
module Records {
  import opened Tables

  /** The scholar-id sentinel of a record without a Google Scholar page. */
  const NoScholarPage: string := "NOSCHOLARPAGE"

  /** The home-page placeholder of a record without a home page. */
  const Placeholder: string := "http://csrankings.org"

  datatype Record = Record(affiliation: string, homepage: string, scholarid: string)

  /** One row of `csrankings.csv`. */
  datatype RecordRow = RecordRow(name: Name, affiliation: string, homepage: string, scholarid: string)

  /** The `csrankings` dict: each name with the store slot of its record. */
  type Index = Dict<nat>

  /** Every slot the table names is a slot of a store of `size` records. */
  ghost predicate InStore(csr: Index, size: nat) {
    csr.Valid() && forall n :: n in csr.entries ==> csr.entries[n] < size
  }

  function RecordOf(row: RecordRow): Record {
    Record(row.affiliation, row.homepage, row.scholarid)
  }

  /** The table after reading `rows` (line 68): row `i`'s record is stored in slot `i`. */
  function Indexed(rows: seq<RecordRow>): (csr: Index)
    ensures InStore(csr, |rows|)
  {
    if rows == [] then Empty()
    else Indexed(rows[..|rows| - 1]).Put(rows[|rows| - 1].name, |rows| - 1)
  }

  /** Lines 64-70 without the file: one fresh record per row. */
  method LoadRecords(rows: seq<RecordRow>) returns (store: array<Record>, csrankings: Index)
    ensures fresh(store) && store.Length == |rows|
    ensures forall i :: 0 <= i < |rows| ==> store[i] == RecordOf(rows[i])
    ensures csrankings == Indexed(rows)
  {
    store := new Record[|rows|];
    csrankings := Empty();
    var i := 0;
    while i < |rows|
      invariant 0 <= i <= |rows|
      invariant forall j :: 0 <= j < i ==> store[j] == RecordOf(rows[j])
      invariant csrankings == Indexed(rows[..i])
    {
      assert rows[..i + 1][..i] == rows[..i];
      store[i] := RecordOf(rows[i]);
      csrankings := csrankings.Put(rows[i].name, i);
      i := i + 1;
    }
    assert rows[..|rows|] == rows;
  }

  /** Row `i` is the last row for `n`. */
  ghost predicate LastRowOf(rows: seq<RecordRow>, i: int, n: Name) {
    0 <= i < |rows| && rows[i].name == n && forall j :: i < j < |rows| ==> rows[j].name != n
  }

  /**
   * A name has a record exactly when some row carries it, and its record is
   * the one of the last such row: a repeated name replaces the earlier record.
   */
  lemma IndexedLastRow(rows: seq<RecordRow>)
    ensures forall n :: n in Indexed(rows).entries <==> exists i :: 0 <= i < |rows| && rows[i].name == n
    ensures forall n :: n in Indexed(rows).entries ==> LastRowOf(rows, Indexed(rows).entries[n], n)
  {
    forall n ensures n in Indexed(rows).entries <==> exists i :: 0 <= i < |rows| && rows[i].name == n {
      IndexedName(rows, n);
    }
    forall n | n in Indexed(rows).entries
      ensures LastRowOf(rows, Indexed(rows).entries[n], n)
    {
      IndexedName(rows, n);
    }
  }

  lemma IndexedName(rows: seq<RecordRow>, n: Name)
    ensures n in Indexed(rows).entries <==> exists i :: 0 <= i < |rows| && rows[i].name == n
    ensures n in Indexed(rows).entries ==> LastRowOf(rows, Indexed(rows).entries[n], n)
  {
    IndexedHas(rows, n);
    if n in Indexed(rows).entries {
      IndexedLast(rows, n);
    }
  }

  lemma {:induction false} IndexedHas(rows: seq<RecordRow>, n: Name)
    ensures n in Indexed(rows).entries <==> exists i :: 0 <= i < |rows| && rows[i].name == n
  {
    if rows != [] {
      var init := rows[..|rows| - 1];
      IndexedHas(init, n);
      if i :| 0 <= i < |rows| && rows[i].name == n {
        if i < |init| {
          assert init[i].name == n;
        }
      }
    }
  }

  lemma {:induction false} IndexedLast(rows: seq<RecordRow>, n: Name)
    requires n in Indexed(rows).entries
    ensures LastRowOf(rows, Indexed(rows).entries[n], n)
  {
    var init := rows[..|rows| - 1];
    if n != rows[|rows| - 1].name {
      IndexedLast(init, n);
      var i := Indexed(init).entries[n];
      assert rows[i] == init[i];
    }
  }
}

/**
 * Loading the alias table (clean-csrankings.py lines 51-60): the rows of
 * `dblp-aliases.csv` are grouped by canonical name into `aliases`, and the
 * reverse lookup `aliasToName` remembers, for every alias, the name of the
 * last row that mentions it.
 */
module AliasTable {
  import opened Tables

  /** One row of the alias table: `alias` is another spelling of `name`. */
  datatype AliasRow = AliasRow(alias: Name, name: Name)

  /** The `aliases` dict after reading `rows` (lines 56-59). */
  function Grouped(rows: seq<AliasRow>): (g: Dict<seq<Name>>)
    ensures g.Valid()
    ensures forall n :: n in g.entries ==> g.entries[n] != []
    ensures forall n, a :: n in g.entries && a in g.entries[n] ==> AliasRow(a, n) in rows
  {
    if rows == [] then Empty()
    else
      var g := Grouped(rows[..|rows| - 1]);
      var r := rows[|rows| - 1];
      g.Put(r.name, if r.name in g.entries then g.entries[r.name] + [r.alias] else [r.alias])
  }

  /** The `aliasToName` dict after reading `rows` (line 60). */
  function Reverse(rows: seq<AliasRow>): (r: map<Name, Name>)
    ensures forall a :: a in r ==> AliasRow(a, r[a]) in rows
  {
    if rows == [] then map[]
    else Reverse(rows[..|rows| - 1])[rows[|rows| - 1].alias := rows[|rows| - 1].name]
  }

  /** Reference definition: the aliases of the rows whose name is `n`, in row order. */
  function AliasesOf(rows: seq<AliasRow>, n: Name): seq<Name> {
    if rows == [] then []
    else (if rows[0].name == n then [rows[0].alias] else []) + AliasesOf(rows[1..], n)
  }

  /** Every alias string of the table appears under a single canonical name. */
  ghost predicate SingleName(rows: seq<AliasRow>) {
    forall i, j :: 0 <= i < |rows| && 0 <= j < |rows| && rows[i].alias == rows[j].alias ==>
      rows[i].name == rows[j].name
  }

  /** Lines 53-60 without the file: the loop over the rows. */
  method LoadAliases(rows: seq<AliasRow>) returns (aliases: Dict<seq<Name>>, aliasToName: map<Name, Name>)
    ensures aliases == Grouped(rows) && aliasToName == Reverse(rows)
    ensures aliases.Valid()
  {
    aliases, aliasToName := Empty(), map[];
    var i := 0;
    while i < |rows|
      invariant 0 <= i <= |rows|
      invariant aliases == Grouped(rows[..i]) && aliasToName == Reverse(rows[..i])
    {
      var row := rows[i];
      assert rows[..i + 1][..i] == rows[..i];
      if row.name in aliases.entries {
        aliases := aliases.Put(row.name, aliases.entries[row.name] + [row.alias]);
      } else {
        aliases := aliases.Put(row.name, [row.alias]);
      }
      aliasToName := aliasToName[row.alias := row.name];
      i := i + 1;
    }
    assert rows[..|rows|] == rows;
  }

  lemma {:induction false} AliasesOfSnoc(rows: seq<AliasRow>, r: AliasRow, n: Name)
    ensures AliasesOf(rows + [r], n) == AliasesOf(rows, n) + (if r.name == n then [r.alias] else [])
  {
    if rows != [] {
      assert (rows + [r])[1..] == rows[1..] + [r];
      AliasesOfSnoc(rows[1..], r, n);
    }
  }

  lemma {:induction false} AliasesOfMembers(rows: seq<AliasRow>, n: Name)
    ensures forall a :: a in AliasesOf(rows, n) <==> exists i :: 0 <= i < |rows| && rows[i] == AliasRow(a, n)
  {
    if rows != [] {
      AliasesOfMembers(rows[1..], n);
      forall a | (exists i :: 0 <= i < |rows| && rows[i] == AliasRow(a, n))
        ensures a in AliasesOf(rows, n)
      {
        var i :| 0 <= i < |rows| && rows[i] == AliasRow(a, n);
        if i > 0 {
          assert rows[1..][i - 1] == rows[i];
        }
      }
    }
  }

  /**
   * After loading, `aliases[n]` lists exactly the aliases of the rows whose
   * name is `n`, in row order; a name without rows has no group; and no
   * group is empty.
   */
  lemma {:induction false} GroupedLists(rows: seq<AliasRow>)
    ensures forall n :: AliasesOf(rows, n) == if n in Grouped(rows).entries then Grouped(rows).entries[n] else []
    ensures forall n :: n in Grouped(rows).entries ==> Grouped(rows).entries[n] != []
  {
    if rows != [] {
      var init, r := rows[..|rows| - 1], rows[|rows| - 1];
      assert rows == init + [r];
      GroupedLists(init);
      forall n ensures AliasesOf(rows, n) == if n in Grouped(rows).entries then Grouped(rows).entries[n] else [] {
        AliasesOfSnoc(init, r, n);
      }
    }
  }

  /** Corollary: `n` heads a group exactly when some row names it, and the group's members are those rows' aliases. */
  lemma GroupedMembers(rows: seq<AliasRow>)
    ensures forall n :: n in Grouped(rows).entries <==> exists i :: 0 <= i < |rows| && rows[i].name == n
    ensures forall n, a :: n in Grouped(rows).entries && a in Grouped(rows).entries[n] <==>
      exists i :: 0 <= i < |rows| && rows[i] == AliasRow(a, n)
  {
    var g := Grouped(rows);
    forall n ensures n in g.entries <==> exists i :: 0 <= i < |rows| && rows[i].name == n {
      GroupedMember(rows, n);
    }
    forall n, a ensures n in g.entries && a in g.entries[n] <==> exists i :: 0 <= i < |rows| && rows[i] == AliasRow(a, n) {
      GroupedMember(rows, n);
    }
  }

  lemma GroupedMember(rows: seq<AliasRow>, n: Name)
    ensures n in Grouped(rows).entries <==> exists i :: 0 <= i < |rows| && rows[i].name == n
    ensures forall a :: n in Grouped(rows).entries && a in Grouped(rows).entries[n] <==>
      exists i :: 0 <= i < |rows| && rows[i] == AliasRow(a, n)
  {
    var g := Grouped(rows);
    GroupedLists(rows);
    var l := AliasesOf(rows, n);
    assert l == if n in g.entries then g.entries[n] else [];
    AliasesOfMembers(rows, n);
    if i :| 0 <= i < |rows| && rows[i].name == n {
      assert rows[i] == AliasRow(rows[i].alias, n);
      assert rows[i].alias in l;
    }
  }

  /** Row `i` is the last row of the table for alias `a`. */
  ghost predicate LastRowOf(rows: seq<AliasRow>, i: int, a: Name) {
    0 <= i < |rows| && rows[i].alias == a && forall j :: i < j < |rows| ==> rows[j].alias != a
  }

  /** `aliasToName[a]` is defined exactly for the aliases of the table and is the name of the last row for `a`. */
  lemma ReverseLastRow(rows: seq<AliasRow>)
    ensures forall a :: a in Reverse(rows) <==> exists i :: 0 <= i < |rows| && rows[i].alias == a
    ensures forall a :: a in Reverse(rows) ==> exists i :: LastRowOf(rows, i, a) && rows[i].name == Reverse(rows)[a]
  {
    forall a ensures a in Reverse(rows) <==> exists i :: 0 <= i < |rows| && rows[i].alias == a {
      ReverseAlias(rows, a);
    }
    forall a | a in Reverse(rows)
      ensures exists i :: LastRowOf(rows, i, a) && rows[i].name == Reverse(rows)[a]
    {
      ReverseAlias(rows, a);
    }
  }

  lemma {:induction false} ReverseAlias(rows: seq<AliasRow>, a: Name)
    ensures a in Reverse(rows) <==> exists i :: 0 <= i < |rows| && rows[i].alias == a
    ensures a in Reverse(rows) ==> exists i :: LastRowOf(rows, i, a) && rows[i].name == Reverse(rows)[a]
  {
    if rows != [] {
      var init, r := rows[..|rows| - 1], rows[|rows| - 1];
      ReverseAlias(init, a);
      if a == r.alias {
        assert LastRowOf(rows, |rows| - 1, a);
      } else {
        if i :| 0 <= i < |rows| && rows[i].alias == a {
          assert init[i].alias == a;
        }
        if a in Reverse(rows) {
          var i :| LastRowOf(init, i, a) && init[i].name == Reverse(init)[a];
          assert rows[i] == init[i];
          forall j | i < j < |rows| ensures rows[j].alias != a {
            if j < |init| {
              assert rows[j] == init[j];
            }
          }
          assert LastRowOf(rows, i, a);
        }
      }
    }
  }

  /**
   * Every alias listed in a group has an entry in `aliasToName`; when each alias
   * appears under a single name, that entry is the group's name.
   */
  lemma AliasesKnown(rows: seq<AliasRow>)
    ensures forall n, a :: n in Grouped(rows).entries && a in Grouped(rows).entries[n] ==> a in Reverse(rows)
    ensures SingleName(rows) ==>
      forall n, a :: n in Grouped(rows).entries && a in Grouped(rows).entries[n] ==> Reverse(rows)[a] == n
  {
    forall n, a | n in Grouped(rows).entries && a in Grouped(rows).entries[n]
      ensures a in Reverse(rows)
      ensures SingleName(rows) ==> Reverse(rows)[a] == n
    {
      AliasKnown(rows, n, a);
    }
  }

  lemma AliasKnown(rows: seq<AliasRow>, n: Name, a: Name)
    requires n in Grouped(rows).entries && a in Grouped(rows).entries[n]
    ensures a in Reverse(rows)
    ensures SingleName(rows) ==> Reverse(rows)[a] == n
  {
    GroupedMember(rows, n);
    ReverseAlias(rows, a);
    var i :| 0 <= i < |rows| && rows[i] == AliasRow(a, n);
    assert rows[i].alias == a;
    var k :| LastRowOf(rows, k, a) && rows[k].name == Reverse(rows)[a];
  }
}

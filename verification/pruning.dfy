/**
 * Pruning the alias table (clean-csrankings.py lines 99-110): a group is
 * dropped when neither its canonical name nor any of its aliases has a
 * record in `csrankings`.
 */
module Pruning {
  import opened Tables
  import opened Records
  import Cycles

  /** Lines 102-107: `n` has a record, or one of its aliases has. */
  predicate Grounded(n: Name, aliasList: seq<Name>, csr: Index) {
    n in csr.entries || HasRecord(aliasList, csr)
  }

  /** Some alias of `aliasList` has a record. */
  predicate HasRecord(aliasList: seq<Name>, csr: Index) {
    aliasList != [] && (aliasList[0] in csr.entries || HasRecord(aliasList[1..], csr))
  }

  lemma {:induction false} HasRecordMeans(aliasList: seq<Name>, csr: Index)
    ensures HasRecord(aliasList, csr) <==> exists a :: a in aliasList && a in csr.entries
  {
    if aliasList != [] {
      HasRecordMeans(aliasList[1..], csr);
      assert aliasList == [aliasList[0]] + aliasList[1..];
    }
  }

  /** The canonical names among `names` whose groups lines 108-109 delete. */
  function Ungrounded(names: seq<Name>, g: Groups, csr: Index): set<Name> {
    if names == [] then {}
    else
      var n := names[|names| - 1];
      Ungrounded(names[..|names| - 1], g, csr) + if n in g.entries && !Grounded(n, g.entries[n], csr) then {n} else {}
  }

  lemma {:induction false} UngroundedMembers(names: seq<Name>, g: Groups, csr: Index)
    ensures forall n :: n in Ungrounded(names, g, csr) <==> n in names && n in g.entries && !Grounded(n, g.entries[n], csr)
  {
    if names != [] {
      UngroundedMembers(names[..|names| - 1], g, csr);
      assert names == names[..|names| - 1] + [names[|names| - 1]];
    }
  }

  /**
   * The alias table after line 110: exactly the grounded groups remain, each
   * unchanged and in its old position, and no group is added.
   */
  function Pruned(g: Groups, csr: Index): (r: Groups)
    requires g.Valid()
    ensures r.Valid()
    ensures forall n :: n in r.entries <==> n in g.entries && Grounded(n, g.entries[n], csr)
    ensures forall n :: n in r.entries ==> r.entries[n] == g.entries[n]
  {
    UngroundedMembers(g.keys, g, csr);
    g.RemoveAll(Ungrounded(g.keys, g, csr))
  }

  /** Lines 103-107: the search of `aliasList` for an alias with a record, stopping at the first. */
  method AnyHasRecord(aliasList: seq<Name>, csrankings: Index) returns (found: bool)
    ensures found == HasRecord(aliasList, csrankings)
  {
    found := false;
    var j := 0;
    while j < |aliasList|
      invariant 0 <= j <= |aliasList|
      invariant HasRecord(aliasList[j..], csrankings) == HasRecord(aliasList, csrankings)
    {
      assert aliasList[j..][1..] == aliasList[j + 1..];
      if aliasList[j] in csrankings.entries {
        found := true;
        break;
      }
      j := j + 1;
    }
  }

  /** Lines 100-110. */
  method Prune(aliases: Groups, csrankings: Index) returns (result: Groups)
    requires aliases.Valid()
    ensures result == Pruned(aliases, csrankings)
  {
    result := aliases;
    ghost var gone: set<Name> := {};
    RemoveNone(aliases);
    var i := 0;
    while i < |aliases.keys|
      invariant 0 <= i <= |aliases.keys|
      invariant gone == Ungrounded(aliases.keys[..i], aliases, csrankings)
      invariant result == aliases.RemoveAll(gone)
    {
      var n := aliases.keys[i];
      PruneStep(aliases, csrankings, i, gone);
      ghost var next := Ungrounded(aliases.keys[..i + 1], aliases, csrankings);
      if n !in csrankings.entries {
        var found := AnyHasRecord(aliases.entries[n], csrankings);
        if !found {
          result := result.Remove(n);
          gone := gone + {n};
        }
      }
      assert gone == next;
      i := i + 1;
    }
    assert aliases.keys[..|aliases.keys|] == aliases.keys;
  }

  /** One turn of the loop of lines 101-109 keeps the table equal to the input without the ungrounded names seen so far. */
  lemma PruneStep(g: Groups, csr: Index, i: nat, gone: set<Name>)
    requires g.Valid() && i < |g.keys| && gone == Ungrounded(g.keys[..i], g, csr)
    ensures var n := g.keys[i];
      if Grounded(n, g.entries[n], csr) then Ungrounded(g.keys[..i + 1], g, csr) == gone
      else Ungrounded(g.keys[..i + 1], g, csr) == gone + {n} && g.RemoveAll(gone).Remove(n) == g.RemoveAll(gone + {n})
  {
    UngroundedNext(g.keys, i, g, csr);
    RemoveMore(g, gone, g.keys[i]);
  }

  lemma UngroundedNext(names: seq<Name>, i: nat, g: Groups, csr: Index)
    requires i < |names|
    ensures Ungrounded(names[..i + 1], g, csr) == Ungrounded(names[..i], g, csr) +
      if names[i] in g.entries && !Grounded(names[i], g.entries[names[i]], csr) then {names[i]} else {}
  {
    assert names[..i + 1][..i] == names[..i];
  }

  /**
   * Pruning keeps the shape cycle removal left: every alias still occurs in
   * one group only and once there, and no alias is a canonical name.
   */
  lemma PrunedShape(g: Groups, csr: Index)
    requires g.Valid() && Cycles.Once(g) && Flat(g)
    ensures Cycles.Once(Pruned(g, csr)) && Flat(Pruned(g, csr))
  {
  }
}

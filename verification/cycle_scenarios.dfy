/**
 * Worked inputs for the cycle removal of clean-csrankings.py lines 73-97:
 * what the traversal keeps and which groups it deletes on small alias tables.
 */
module CycleScenarios {
  import opened Tables
  import opened AliasTable
  import opened Cycles

  /** `a` is an alias of `b` and `b` an alias of `a`: both groups are deleted. */
  lemma TwoCycle()
    ensures var rows := [AliasRow("a", "b"), AliasRow("b", "a")];
      Universe(Grouped(rows)) <= Reverse(rows).Keys &&
      CycleFree(Grouped(rows), Reverse(rows)).entries == map[]
  {
    var rows := [AliasRow("a", "b"), AliasRow("b", "a")];
    TwoCycleRows();
    AliasesKnown(rows);
    TwoCycleFree(Grouped(rows), Reverse(rows));
  }

  lemma TwoCycleFree(g: Groups, aliasToName: map<Name, Name>)
    requires g.keys == ["b", "a"] && g.entries == map["b" := ["a"], "a" := ["b"]]
    requires aliasToName == map["a" := "b", "b" := "a"] && Universe(g) <= aliasToName.Keys
    ensures CycleFree(g, aliasToName).entries == map[]
  {
    TwoCycleUniverse(g);
    TwoCycleWalk(g);
    assert Doomed({"a", "b"}, aliasToName) == {"a", "b"};
  }

  lemma TwoCycleRows()
    ensures var rows := [AliasRow("a", "b"), AliasRow("b", "a")];
      Reverse(rows) == map["a" := "b", "b" := "a"] &&
      Grouped(rows).keys == ["b", "a"] && Grouped(rows).entries == map["b" := ["a"], "a" := ["b"]]
  {
    var r1, r2 := AliasRow("a", "b"), AliasRow("b", "a");
    var rows := [r1, r2];
    assert [r1][..0] == [];
    var g0 := Grouped([]);
    assert g0 == Dict([], map[]);
    var g1 := Grouped([r1]);
    assert g1 == g0.Put("b", ["a"]);
    assert g1.keys == ["b"];
    assert rows[..1] == [r1];
    assert Grouped(rows) == g1.Put("a", ["b"]);
  }

  /** `a` is the only alias of `b`, `b` the only alias of `a`, and no other string is an alias. */
  ghost predicate Mutual(g: Groups) {
    && "a" in g.entries && "b" in g.entries
    && g.entries["b"] == ["a"] && g.entries["a"] == ["b"]
    && Universe(g) == {"a", "b"}
  }

  /** The groups `b: [a]` and `a: [b]`, in that order, as the walks copy them. */
  function BothKept(): Groups {
    Dict(["b", "a"], map["b" := ["a"], "a" := ["b"]])
  }

  /** The walks from `b` and then from `a` mark both, keep both edges and flag both. */
  lemma TwoCycleWalk(g: Groups)
    requires |g.keys| >= 2 && g.keys[0] == "b" && g.keys[1] == "a" && Mutual(g)
    ensures Roots(g, 2) == Walk({"a", "b"}, BothKept(), {"a", "b"})
  {
    var v3 := Walk({"a", "b"}, BothKept(), {"a"});
    var w := Walk({"a", "b"}, BothKept(), {"a", "b"});
    TwoCycleFirstRoot(g);
    assert VisitFrom(g, "a", 1, w) == w;
    assert VisitFrom(g, "a", 0, v3) == w;
  }

  /** The walk from `b` marks `a`, then from `a` marks `b`, and meets `a` again. */
  lemma TwoCycleFirstRoot(g: Groups)
    requires |g.keys| >= 1 && g.keys[0] == "b" && Mutual(g)
    ensures Roots(g, 1) == Walk({"a", "b"}, BothKept(), {"a"})
  {
    var k1 := Dict(["b"], map["b" := ["a"]]);
    TwoCycleKept();
    var s0 := Start();
    var v1 := Walk({"a"}, k1, {});
    var v3 := Walk({"a", "b"}, BothKept(), {"a"});
    TwoCycleSecond(g);
    assert Walk(s0.visited + {"a"}, Append(s0.kept, "b", "a"), s0.flagged) == v1;
    assert VisitFrom(g, "b", 0, s0) == v3;
  }

  /** The edges the walk keeps, one at a time. */
  lemma TwoCycleKept()
    ensures Append(Empty(), "b", "a") == Dict(["b"], map["b" := ["a"]])
    ensures Append(Dict(["b"], map["b" := ["a"]]), "a", "b") == BothKept()
  {
    TwoCycleFirstEdge();
    var k1 := Dict(["b"], map["b" := ["a"]]);
    assert k1.Valid() && "a" !in k1.entries && [] + ["b"] == ["b"];
    assert k1.Put("a", ["b"]) == BothKept();
  }

  lemma TwoCycleFirstEdge()
    ensures Append(Empty(), "b", "a") == Dict(["b"], map["b" := ["a"]])
  {
    assert [] + ["a"] == ["a"];
    assert Empty<seq<Name>>().Put("b", ["a"]) == Dict(["b"], map["b" := ["a"]]);
  }

  /** Inside the walk from `a`: the walk from `b` meets `a` again and flags it. */
  lemma TwoCycleThird(g: Groups)
    requires Mutual(g)
    ensures Visit(g, "b", Walk({"a", "b"}, BothKept(), {})) == Walk({"a", "b"}, BothKept(), {"a"})
  {
    var v2 := Walk({"a", "b"}, BothKept(), {});
    var v3 := Walk({"a", "b"}, BothKept(), {"a"});
    assert VisitFrom(g, "b", 1, v3) == v3;
    assert VisitFrom(g, "b", 0, v2) == v3;
  }

  /** Inside the walk from `b`: the walk from `a` marks `b` and meets `a` again. */
  lemma TwoCycleSecond(g: Groups)
    requires Mutual(g)
    ensures Visit(g, "a", Walk({"a"}, Dict(["b"], map["b" := ["a"]]), {})) == Walk({"a", "b"}, BothKept(), {"a"})
  {
    var k1 := Dict(["b"], map["b" := ["a"]]);
    var v1 := Walk({"a"}, k1, {});
    var v2 := Walk({"a", "b"}, BothKept(), {});
    var v3 := Walk({"a", "b"}, BothKept(), {"a"});
    TwoCycleKept();
    TwoCycleThird(g);
    TwoCycleStep(g, v1, v2, v3);
  }

  /** The aliases of the two-cycle table are `a` and `b`. */
  lemma TwoCycleUniverse(g: Groups)
    requires g.entries == map["b" := ["a"], "a" := ["b"]]
    ensures Mutual(g)
  {
    InUniverse(g, "b", "a");
    InUniverse(g, "a", "b");
  }

  /** The step from `a` to `b`: mark `b`, keep the edge, walk from `b`, and finish the list of `a`. */
  lemma TwoCycleStep(g: Groups, v1: Walk, v2: Walk, v3: Walk)
    requires Mutual(g)
    requires Bounded(g, v1) && Bounded(g, v2) && Bounded(g, v3)
    requires Walk(v1.visited + {"b"}, Append(v1.kept, "a", "b"), v1.flagged) == v2 && "b" !in v1.visited
    requires Visit(g, "b", v2) == v3
    ensures VisitFrom(g, "a", 0, v1) == v3
  {
    assert VisitFrom(g, "a", 1, v3) == v3;
  }

  /**
   * A cycle that survives: `a` and `b` are aliases of each other, and each is
   * also listed under a second canonical name (`a` under `x`, `b` under `y`).
   * Both are flagged, but `aliasToName` keeps only the last name of each, so
   * the groups of `x` and `y` are deleted and the cycle `a: [b]`, `b: [a]`
   * is left in the table.
   */
  lemma SharedAliasKeepsCycle()
    ensures var rows := [AliasRow("a", "b"), AliasRow("b", "a"), AliasRow("a", "x"), AliasRow("b", "y")];
      Universe(Grouped(rows)) <= Reverse(rows).Keys &&
      Roots(Grouped(rows), |Grouped(rows).keys|).flagged == {"a", "b"} &&
      CycleFree(Grouped(rows), Reverse(rows)).entries == map["b" := ["a"], "a" := ["b"]]
  {
    var rows := [AliasRow("a", "b"), AliasRow("b", "a"), AliasRow("a", "x"), AliasRow("b", "y")];
    SharedRows();
    AliasesKnown(rows);
    SharedFree(Grouped(rows), Reverse(rows));
  }

  lemma SharedFree(g: Groups, aliasToName: map<Name, Name>)
    requires g.keys == ["b", "a", "x", "y"] && g.entries == map["b" := ["a"], "a" := ["b"], "x" := ["a"], "y" := ["b"]]
    requires aliasToName == map["a" := "x", "b" := "y"] && Universe(g) <= aliasToName.Keys
    ensures Roots(g, |g.keys|).flagged == {"a", "b"}
    ensures CycleFree(g, aliasToName).entries == map["b" := ["a"], "a" := ["b"]]
  {
    SharedWalk(g);
    assert Doomed({"a", "b"}, aliasToName) == {"x", "y"};
  }

  lemma SharedRows()
    ensures var rows := [AliasRow("a", "b"), AliasRow("b", "a"), AliasRow("a", "x"), AliasRow("b", "y")];
      Reverse(rows) == map["a" := "x", "b" := "y"] &&
      Grouped(rows).keys == ["b", "a", "x", "y"] &&
      Grouped(rows).entries == map["b" := ["a"], "a" := ["b"], "x" := ["a"], "y" := ["b"]]
  {
    SharedGrouped();
    SharedReverse();
  }

  lemma SharedGrouped()
    ensures var rows := [AliasRow("a", "b"), AliasRow("b", "a"), AliasRow("a", "x"), AliasRow("b", "y")];
      Grouped(rows) == Dict(["b", "a", "x", "y"], map["b" := ["a"], "a" := ["b"], "x" := ["a"], "y" := ["b"]])
  {
    var rows := [AliasRow("a", "b"), AliasRow("b", "a"), AliasRow("a", "x"), AliasRow("b", "y")];
    var front := [AliasRow("a", "b"), AliasRow("b", "a"), AliasRow("a", "x")];
    assert rows[..|rows| - 1] == front;
    SharedFront();
    var g3 := Dict(["b", "a", "x"], map["b" := ["a"], "a" := ["b"], "x" := ["a"]]);
    assert Grouped(rows) == g3.Put("y", ["b"]);
  }

  lemma SharedReverse()
    ensures var rows := [AliasRow("a", "b"), AliasRow("b", "a"), AliasRow("a", "x"), AliasRow("b", "y")];
      Reverse(rows) == map["a" := "x", "b" := "y"]
  {
    var rows := [AliasRow("a", "b"), AliasRow("b", "a"), AliasRow("a", "x"), AliasRow("b", "y")];
    var front := [AliasRow("a", "b"), AliasRow("b", "a"), AliasRow("a", "x")];
    assert rows[..|rows| - 1] == front;
    SharedFront();
  }

  /** The first three rows: the two-cycle, then `a` under `x`. */
  lemma SharedFront()
    ensures var front := [AliasRow("a", "b"), AliasRow("b", "a"), AliasRow("a", "x")];
      Reverse(front) == map["a" := "x", "b" := "a"] &&
      Grouped(front) == Dict(["b", "a", "x"], map["b" := ["a"], "a" := ["b"], "x" := ["a"]])
  {
    var front := [AliasRow("a", "b"), AliasRow("b", "a"), AliasRow("a", "x")];
    TwoCycleRows();
    assert front[..|front| - 1] == [AliasRow("a", "b"), AliasRow("b", "a")];
  }

  /** The walks from `x` and `y` only meet aliases already marked, and flag them again. */
  lemma SharedWalk(g: Groups)
    requires g.keys == ["b", "a", "x", "y"] && g.entries == map["b" := ["a"], "a" := ["b"], "x" := ["a"], "y" := ["b"]]
    ensures Roots(g, 4) == Walk({"a", "b"}, BothKept(), {"a", "b"})
  {
    InUniverse(g, "b", "a");
    InUniverse(g, "a", "b");
    assert Mutual(g);
    TwoCycleWalk(g);
    var w := Walk({"a", "b"}, BothKept(), {"a", "b"});
    assert VisitFrom(g, "x", 1, w) == w;
    assert VisitFrom(g, "x", 0, w) == w;
    assert Roots(g, 3) == w;
    assert VisitFrom(g, "y", 1, w) == w;
    assert VisitFrom(g, "y", 0, w) == w;
  }

  /**
   * A chain without a cycle: `b` is an alias of `c` and `a` an alias of `b`.
   * The walk from `c` already marks `a`, so the walk from `b` meets `a` again
   * and flags it; the group of `b` is deleted and only `c: [b]` is left.
   */
  lemma ChainOfTwo()
    ensures var rows := [AliasRow("b", "c"), AliasRow("a", "b")];
      Universe(Grouped(rows)) <= Reverse(rows).Keys &&
      CycleFree(Grouped(rows), Reverse(rows)).entries == map["c" := ["b"]]
  {
    var rows := [AliasRow("b", "c"), AliasRow("a", "b")];
    ChainRows();
    AliasesKnown(rows);
    ChainFree(Grouped(rows), Reverse(rows));
  }

  lemma ChainFree(g: Groups, aliasToName: map<Name, Name>)
    requires g.keys == ["c", "b"] && g.entries == map["c" := ["b"], "b" := ["a"]]
    requires aliasToName == map["b" := "c", "a" := "b"] && Universe(g) <= aliasToName.Keys
    ensures CycleFree(g, aliasToName).entries == map["c" := ["b"]]
  {
    ChainWalk(g);
    assert Doomed({"a"}, aliasToName) == {"b"};
  }

  lemma ChainRows()
    ensures var rows := [AliasRow("b", "c"), AliasRow("a", "b")];
      Reverse(rows) == map["b" := "c", "a" := "b"] &&
      Grouped(rows).keys == ["c", "b"] && Grouped(rows).entries == map["c" := ["b"], "b" := ["a"]]
  {
    var r1, r2 := AliasRow("b", "c"), AliasRow("a", "b");
    var rows := [r1, r2];
    assert [r1][..0] == [];
    var g0 := Grouped([]);
    assert g0 == Dict([], map[]);
    var g1 := Grouped([r1]);
    assert g1 == g0.Put("c", ["b"]);
    assert g1.keys == ["c"];
    assert rows[..1] == [r1];
    assert Grouped(rows) == g1.Put("b", ["a"]);
  }

  lemma ChainWalk(g: Groups)
    requires g.keys == ["c", "b"] && g.entries == map["c" := ["b"], "b" := ["a"]]
    ensures Roots(g, |g.keys|) == Walk({"a", "b"}, Dict(["c", "b"], g.entries), {"a"})
  {
    var k2 := Dict(["c", "b"], map["c" := ["b"], "b" := ["a"]]);
    var w2 := Walk({"b", "a"}, k2, {});
    var w := Walk({"b", "a"}, k2, {"a"});
    ChainFirstRoot(g);
    assert VisitFrom(g, "b", 1, w) == w;
    assert VisitFrom(g, "b", 0, w2) == w;
  }

  /** The walk from `c` marks `b`, and from `b` marks `a`: both edges are kept and nothing is flagged. */
  lemma ChainFirstRoot(g: Groups)
    requires g.keys == ["c", "b"] && g.entries == map["c" := ["b"], "b" := ["a"]]
    ensures Roots(g, 1) == Walk({"b", "a"}, Dict(["c", "b"], map["c" := ["b"], "b" := ["a"]]), {})
  {
    InUniverse(g, "c", "b");
    InUniverse(g, "b", "a");
    var k1 := Dict(["c"], map["c" := ["b"]]);
    var k2 := Dict(["c", "b"], map["c" := ["b"], "b" := ["a"]]);
    ChainKept();
    var s0 := Start();
    var w1 := Walk({"b"}, k1, {});
    var w2 := Walk({"b", "a"}, k2, {});
    assert Visit(g, "a", w2) == w2;
    assert VisitFrom(g, "b", 1, w2) == w2;
    assert Walk(w1.visited + {"a"}, Append(w1.kept, "b", "a"), w1.flagged) == w2;
    assert VisitFrom(g, "b", 0, w1) == w2;
    assert VisitFrom(g, "c", 1, w2) == w2;
    assert Walk(s0.visited + {"b"}, Append(s0.kept, "c", "b"), s0.flagged) == w1;
    assert VisitFrom(g, "c", 0, s0) == w2;
  }

  /** The edges the chain's walk keeps, one at a time. */
  lemma ChainKept()
    ensures Append(Empty(), "c", "b") == Dict(["c"], map["c" := ["b"]])
    ensures Append(Dict(["c"], map["c" := ["b"]]), "b", "a") == Dict(["c", "b"], map["c" := ["b"], "b" := ["a"]])
  {
    ChainFirstEdge();
    var k1 := Dict(["c"], map["c" := ["b"]]);
    assert k1.Valid() && "b" !in k1.entries && [] + ["a"] == ["a"];
    assert k1.Put("b", ["a"]) == Dict(["c", "b"], map["c" := ["b"], "b" := ["a"]]);
  }

  lemma ChainFirstEdge()
    ensures Append(Empty(), "c", "b") == Dict(["c"], map["c" := ["b"]])
  {
    assert [] + ["b"] == ["b"];
    assert Empty<seq<Name>>().Put("c", ["b"]) == Dict(["c"], map["c" := ["b"]]);
  }
}

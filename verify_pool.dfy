/** The read-only acceptance check of a freshly initialised pool: total rows,
    distinct ids, undrawn rows and the per-level counts of the
    `GROUP BY level, type` query, against the expected distribution. */
module VerifyPool {
  import opened Signs
  import opened InitPool

  /** One row of `SELECT level, type, COUNT(*) AS n ... GROUP BY level, type`. */
  datatype Group = Group(level: int, kind: string, n: nat)

  /** The expected number of signs per level. */
  const Expected: map<int, nat> := map[0 := 9610, 1 := 40, 2 := 200, 3 := 150]

  /** `expected[row.level] === row.n`: false for a level that is not a key. */
  predicate GroupMatches(g: Group)
  {
    g.level in Expected && Expected[g.level] == g.n
  }

  /** The verdict of the check on the four query results. */
  predicate PoolPasses(total: nat, distinctIds: nat, undrawn: nat, byLevel: seq<Group>)
  {
    total == PoolSize && distinctIds == PoolSize && undrawn == PoolSize &&
    forall j :: 0 <= j < |byLevel| ==> GroupMatches(byLevel[j])
  }

  /** `ok` from the three totals, then cleared by any group whose count is not
      the expected one for its level. */
  method CheckPool(total: nat, distinctIds: nat, undrawn: nat, byLevel: seq<Group>) returns (ok: bool)
    ensures ok <==> PoolPasses(total, distinctIds, undrawn, byLevel)
    ensures ok ==> total == PoolSize && distinctIds == PoolSize && undrawn == PoolSize
    ensures (exists j :: 0 <= j < |byLevel| && !GroupMatches(byLevel[j])) ==> !ok
  {
    ok := total == PoolSize && distinctIds == PoolSize && undrawn == PoolSize;
    var i := 0;
    while i < |byLevel|
      invariant 0 <= i <= |byLevel|
      invariant ok <==> total == PoolSize && distinctIds == PoolSize && undrawn == PoolSize &&
                        forall j :: 0 <= j < i ==> GroupMatches(byLevel[j])
    {
      var row := byLevel[i];
      if !(row.level in Expected && Expected[row.level] == row.n) {
        ok := false;
      }
      i := i + 1;
    }
  }

  // ---------------------------------------------------------------------------
  // The check on the generated pool
  // ---------------------------------------------------------------------------

  /** `gs` is what `GROUP BY level, type` returns on the rows `s`: one group per
      (level, type) pair present, holding the number of rows with that pair. */
  predicate Grouping(s: seq<Row>, gs: seq<Group>)
  {
    (forall i, j :: 0 <= i < j < |gs| ==> gs[i].level != gs[j].level || gs[i].kind != gs[j].kind) &&
    (forall i :: 0 <= i < |gs| ==> 0 < gs[i].n == GroupCount(s, gs[i].level, gs[i].kind)) &&
    (forall k :: 0 <= k < |s| ==>
       exists i :: 0 <= i < |gs| && gs[i].level == s[k].level && gs[i].kind == s[k].kind)
  }

  /** The rows the initialisation inserts pass the check, however the grouping
      query orders its groups. */
  lemma GeneratedPoolPasses(gs: seq<Group>)
    requires Grouping(Expand(PoolSpec), gs)
    ensures PoolPasses(|Expand(PoolSpec)|, |IdSet(Expand(PoolSpec))|, UndrawnCount(Expand(PoolSpec)), gs)
  {
    var s := Expand(PoolSpec);
    GeneratedPool();
    DistinctIdCount(s);
    forall j | 0 <= j < |gs|
      ensures GroupMatches(gs[j])
    {
      ExpandedGroupCount(PoolSpec, gs[j].level, gs[j].kind);
      PoolSpecFacts(gs[j].level, gs[j].kind);
    }
  }

  // ---------------------------------------------------------------------------
  // Per-level totals
  // ---------------------------------------------------------------------------

  /** The sum of all group counts: the table's row count when `byLevel` is its
      grouping. */
  function GroupSum(gs: seq<Group>): nat
  {
    if gs == [] then 0 else GroupSum(gs[..|gs| - 1]) + gs[|gs| - 1].n
  }

  /** How many rows the groups put at `level`, summed over its types. */
  function LevelSum(gs: seq<Group>, level: int): nat
  {
    if gs == [] then 0
    else LevelSum(gs[..|gs| - 1], level) + (if gs[|gs| - 1].level == level then gs[|gs| - 1].n else 0)
  }

  /** A grouping with no level-2 sign and 240 level-1 signs: six level-1
      groups of 40 under different types, with the 9,610 empty and 150 special
      signs, add up to 10,000. */
  const SkewedGroups: seq<Group> := [
    Group(0, "Empty", 9610), Group(3, "Special", 150),
    Group(1, "a", 40), Group(1, "b", 40), Group(1, "c", 40),
    Group(1, "d", 40), Group(1, "e", 40), Group(1, "f", 40)
  ]

  lemma SkewedSums()
    ensures GroupSum(SkewedGroups) == 10000
    ensures LevelSum(SkewedGroups, 2) == 0 && LevelSum(SkewedGroups, 1) == 240
  {
    var gs := SkewedGroups;
    var p0: seq<Group> := [];
    var p1 := p0 + [gs[0]];
    SumsAppend(p0, gs[0], 1);
    SumsAppend(p0, gs[0], 2);
    var p2 := p1 + [gs[1]];
    SumsAppend(p1, gs[1], 1);
    SumsAppend(p1, gs[1], 2);
    var p3 := p2 + [gs[2]];
    SumsAppend(p2, gs[2], 1);
    SumsAppend(p2, gs[2], 2);
    var p4 := p3 + [gs[3]];
    SumsAppend(p3, gs[3], 1);
    SumsAppend(p3, gs[3], 2);
    var p5 := p4 + [gs[4]];
    SumsAppend(p4, gs[4], 1);
    SumsAppend(p4, gs[4], 2);
    var p6 := p5 + [gs[5]];
    SumsAppend(p5, gs[5], 1);
    SumsAppend(p5, gs[5], 2);
    var p7 := p6 + [gs[6]];
    SumsAppend(p6, gs[6], 1);
    SumsAppend(p6, gs[6], 2);
    var p8 := p7 + [gs[7]];
    SumsAppend(p7, gs[7], 1);
    SumsAppend(p7, gs[7], 2);
    assert p8 == gs;
  }

  /** The check as written passes the skewed grouping, with every total at
      10,000, although it puts no sign at level 2 and 240 at level 1. */
  lemma SkewedPoolPasses()
    ensures PoolPasses(10000, 10000, 10000, SkewedGroups)
    ensures GroupSum(SkewedGroups) == 10000
    ensures LevelSum(SkewedGroups, 2) == 0 && LevelSum(SkewedGroups, 1) == 240
  {
    SkewedSums();
    var gs := SkewedGroups;
    assert GroupMatches(gs[0]) && GroupMatches(gs[1]);
    assert forall j :: 2 <= j < 8 ==> gs[j].level == 1 && gs[j].n == 40;
  }

  /** One more group adds its count to the sum, and to its level's sum. */
  lemma SumsAppend(gs: seq<Group>, g: Group, level: int)
    ensures GroupSum(gs + [g]) == GroupSum(gs) + g.n
    ensures LevelSum(gs + [g], level) == LevelSum(gs, level) + if g.level == level then g.n else 0
  {
    assert (gs + [g])[..|gs|] == gs;
  }

  /** The check with the `byLevel.length === 4` condition the initialisation's
      own check has: four groups and the three totals. */
  predicate StrictPoolPasses(total: nat, distinctIds: nat, undrawn: nat, byLevel: seq<Group>)
  {
    PoolPasses(total, distinctIds, undrawn, byLevel) && |byLevel| == 4
  }

  /** With four groups whose counts add up to the total, passing the check means
      every level holds exactly its expected number of signs. */
  lemma StrictCheckFixesDistribution(total: nat, distinctIds: nat, undrawn: nat, gs: seq<Group>)
    requires StrictPoolPasses(total, distinctIds, undrawn, gs)
    requires GroupSum(gs) == total
    ensures forall level :: level in Expected ==> LevelSum(gs, level) == Expected[level]
  {
    assert GroupMatches(gs[0]) && GroupMatches(gs[1]) && GroupMatches(gs[2]) && GroupMatches(gs[3]);
    forall level | level in Expected
      ensures LevelSum(gs, level) == Expected[level]
    {
      SumsOfFour(gs, level);
    }
  }

  lemma SumsOfFour(gs: seq<Group>, level: int)
    requires |gs| == 4
    ensures GroupSum(gs) == gs[0].n + gs[1].n + gs[2].n + gs[3].n
    ensures LevelSum(gs, level) ==
              (if gs[0].level == level then gs[0].n else 0) + (if gs[1].level == level then gs[1].n else 0) +
              (if gs[2].level == level then gs[2].n else 0) + (if gs[3].level == level then gs[3].n else 0)
  {
    var p0: seq<Group> := [];
    var p1 := p0 + [gs[0]];
    SumsAppend(p0, gs[0], level);
    var p2 := p1 + [gs[1]];
    SumsAppend(p1, gs[1], level);
    var p3 := p2 + [gs[2]];
    SumsAppend(p2, gs[2], level);
    var p4 := p3 + [gs[3]];
    SumsAppend(p3, gs[3], level);
    assert p4 == gs;
  }

  /** The (level, type) pairs of POOL_SPEC. */
  const PoolPairs: set<(int, string)> := {(1, "Top-Top"), (2, "Top"), (3, "Special"), (0, "Empty")}

  function Pairs(gs: seq<Group>): set<(int, string)>
  {
    set i | 0 <= i < |gs| :: (gs[i].level, gs[i].kind)
  }

  /** The grouping of the generated pool has one group for each tier of POOL_SPEC. */
  lemma GeneratedPairs(gs: seq<Group>)
    requires Grouping(Expand(PoolSpec), gs)
    ensures Pairs(gs) == PoolPairs
  {
    var s := Expand(PoolSpec);
    forall p | p in Pairs(gs)
      ensures p in PoolPairs
    {
      var i :| 0 <= i < |gs| && p == (gs[i].level, gs[i].kind);
      ExpandedGroupCount(PoolSpec, gs[i].level, gs[i].kind);
      PoolSpecFacts(gs[i].level, gs[i].kind);
    }
    forall p | p in PoolPairs
      ensures p in Pairs(gs)
    {
      ExpandedGroupCount(PoolSpec, p.0, p.1);
      PoolSpecFacts(p.0, p.1);
      var k := GroupCountWitness(s, p.0, p.1);
      var i :| 0 <= i < |gs| && gs[i].level == s[k].level && gs[i].kind == s[k].kind;
      assert (gs[i].level, gs[i].kind) in Pairs(gs);
    }
  }

  /** The generated pool has exactly four (level, type) groups, so it passes the
      stricter check as well. */
  lemma GeneratedPoolPassesStrict(gs: seq<Group>)
    requires Grouping(Expand(PoolSpec), gs)
    ensures StrictPoolPasses(|Expand(PoolSpec)|, |IdSet(Expand(PoolSpec))|, UndrawnCount(Expand(PoolSpec)), gs)
  {
    GeneratedPoolPasses(gs);
    GeneratedPairs(gs);
    DistinctPairCount(gs);
  }

  /** A group with a non-zero count has a row. */
  lemma {:induction false} GroupCountWitness(s: seq<Row>, level: int, kind: string) returns (k: nat)
    requires GroupCount(s, level, kind) > 0
    ensures k < |s| && s[k].level == level && s[k].kind == kind
  {
    var p := s[..|s| - 1];
    if s[|s| - 1].level == level && s[|s| - 1].kind == kind {
      k := |s| - 1;
    } else {
      k := GroupCountWitness(p, level, kind);
    }
  }

  /** Groups with pairwise different (level, type) pairs are as many as their pairs. */
  lemma {:induction false} DistinctPairCount(gs: seq<Group>)
    requires forall i, j :: 0 <= i < j < |gs| ==> gs[i].level != gs[j].level || gs[i].kind != gs[j].kind
    ensures |Pairs(gs)| == |gs|
  {
    if gs != [] {
      var p := gs[..|gs| - 1];
      var last := gs[|gs| - 1];
      DistinctPairCount(p);
      var ps := Pairs(p);
      assert Pairs(gs) == ps + {(last.level, last.kind)};
      assert (last.level, last.kind) !in ps;
    }
  }
}

/** Pool initialisation: the tiers of the pool, the 10,000 rows generated from
    them, the batches they are inserted in, and the choice between keeping,
    refilling and filling the table by its current row count. */
module InitPool {
  import opened Signs
  import opened SignIds

  /** One tier of the pool: `count` signs of `level`, with its type and reward code. */
  datatype SpecEntry = SpecEntry(level: nat, kind: string, rewardCode: string, count: nat)

  /** POOL_SPEC, in the order the rows are generated. */
  const PoolSpec: seq<SpecEntry> := [
    SpecEntry(1, "Top-Top", "R01", 40),
    SpecEntry(2, "Top", "R02", 200),
    SpecEntry(3, "Special", "R03", 150),
    SpecEntry(0, "Empty", "EMPTY", 9610)
  ]

  /** The row count a complete pool has. */
  const PoolSize: nat := 10000

  /** Rows per INSERT statement. */
  const BatchSize: nat := 500

  /** The tiers a spec may list: levels and running indices that fit the id
      format, and no level twice. */
  predicate ValidSpec(spec: seq<SpecEntry>)
  {
    (forall j :: 0 <= j < |spec| ==> spec[j].level < 100 && spec[j].count < 10000) &&
    (forall i, j :: 0 <= i < j < |spec| ==> spec[i].level != spec[j].level)
  }

  function TotalCount(spec: seq<SpecEntry>): nat
  {
    if spec == [] then 0 else TotalCount(spec[..|spec| - 1]) + spec[|spec| - 1].count
  }

  /** How many signs of this level and type the spec asks for. */
  function SpecCount(spec: seq<SpecEntry>, level: int, kind: string): nat
  {
    if spec == [] then 0
    else
      var e := spec[|spec| - 1];
      SpecCount(spec[..|spec| - 1], level, kind) + (if e.level == level && e.kind == kind then e.count else 0)
  }

  function Levels(spec: seq<SpecEntry>): set<int>
  {
    set j | 0 <= j < |spec| :: spec[j].level
  }

  function Tiers(spec: seq<SpecEntry>): set<(int, string, string)>
  {
    set j | 0 <= j < |spec| :: (spec[j].level as int, spec[j].kind, spec[j].rewardCode)
  }

  /** The rows of one tier: running indices 1..count, undrawn. */
  function LevelRows(e: SpecEntry): (rows: seq<Row>)
    ensures |rows| == e.count
  {
    seq(e.count, i requires 0 <= i < e.count =>
      Row(SignId(e.level, i + 1), e.level, e.kind, e.rewardCode, false))
  }

  /** All rows of a spec, tier after tier in spec order. */
  function Expand(spec: seq<SpecEntry>): (rows: seq<Row>)
    ensures |rows| == TotalCount(spec)
  {
    if spec == [] then [] else Expand(spec[..|spec| - 1]) + LevelRows(spec[|spec| - 1])
  }

  /** The nested loops that push one row per running index of every tier. */
  method GenerateRows(spec: seq<SpecEntry>) returns (rows: seq<Row>)
    ensures rows == Expand(spec)
  {
    rows := [];
    var j := 0;
    while j < |spec|
      invariant 0 <= j <= |spec|
      invariant rows == Expand(spec[..j])
    {
      var e := spec[j];
      var i := 1;
      while i <= e.count
        invariant 1 <= i <= e.count + 1
        invariant rows == Expand(spec[..j]) + LevelRows(e)[..i - 1]
      {
        assert LevelRows(e)[..i] == LevelRows(e)[..i - 1] + [LevelRows(e)[i - 1]];
        rows := rows + [Row(SignId(e.level, i), e.level, e.kind, e.rewardCode, false)];
        i := i + 1;
      }
      assert LevelRows(e)[..e.count] == LevelRows(e);
      assert spec[..j + 1][..j] == spec[..j];
      j := j + 1;
    }
    assert spec[..|spec|] == spec;
  }

  // ---------------------------------------------------------------------------
  // What the generated rows are
  // ---------------------------------------------------------------------------

  lemma DistinctConcat(a: seq<Row>, b: seq<Row>)
    requires DistinctIds(a) && DistinctIds(b)
    requires forall i, j :: 0 <= i < |a| && 0 <= j < |b| ==> a[i].id != b[j].id
    ensures DistinctIds(a + b)
  {
  }

  /** The rows of one tier have distinct ids that carry the tier's level. */
  lemma LevelRowsIds(e: SpecEntry)
    requires e.level < 100 && e.count < 10000
    ensures DistinctIds(LevelRows(e))
    ensures forall i :: 0 <= i < e.count ==> IdLevel(LevelRows(e)[i].id) == e.level
  {
    var rows := LevelRows(e);
    forall i, j | 0 <= i < j < e.count
      ensures rows[i].id != rows[j].id
    {
      if rows[i].id == rows[j].id {
        SignIdInjective(e.level, i + 1, e.level, j + 1);
      }
    }
    forall i | 0 <= i < e.count
      ensures IdLevel(rows[i].id) == e.level
    {
      SignIdLayout(e.level, i + 1);
    }
  }

  /** The generated rows are all undrawn, each carries the level, type and reward
      code of one tier of the spec, its id carries its level, and no id repeats. */
  lemma {:induction false} ExpandedRows(spec: seq<SpecEntry>)
    requires ValidSpec(spec)
    ensures DistinctIds(Expand(spec))
    ensures forall i :: 0 <= i < |Expand(spec)| ==>
              !Expand(spec)[i].isDrawn
              && IdLevel(Expand(spec)[i].id) == Expand(spec)[i].level
              && Expand(spec)[i].level in Levels(spec)
              && (Expand(spec)[i].level, Expand(spec)[i].kind, Expand(spec)[i].rewardCode) in Tiers(spec)
  {
    if spec != [] {
      var p := spec[..|spec| - 1];
      var e := spec[|spec| - 1];
      assert ValidSpec(p);
      ExpandedRows(p);
      LevelRowsIds(e);
      var a, b := Expand(p), LevelRows(e);
      assert Levels(p) <= Levels(spec) && e.level in Levels(spec);
      assert Tiers(p) <= Tiers(spec) && (e.level as int, e.kind, e.rewardCode) in Tiers(spec);
      assert e.level !in Levels(p);
      forall i, j | 0 <= i < |a| && 0 <= j < |b|
        ensures a[i].id != b[j].id
      {
        assert IdLevel(a[i].id) == a[i].level && a[i].level in Levels(p);
      }
      DistinctConcat(a, b);
    }
  }

  /** Each level and type appears as many times as the spec asks for it. */
  lemma {:induction false} ExpandedGroupCount(spec: seq<SpecEntry>, level: int, kind: string)
    ensures GroupCount(Expand(spec), level, kind) == SpecCount(spec, level, kind)
  {
    if spec != [] {
      var p := spec[..|spec| - 1];
      var e := spec[|spec| - 1];
      ExpandedGroupCount(p, level, kind);
      GroupCountConcat(Expand(p), LevelRows(e), level, kind);
      GroupCountUniform(LevelRows(e), e.level, e.kind, level, kind);
    }
  }

  /** POOL_SPEC fits the id format, sums to 10,000, and asks for 40, 200, 150 and
      9,610 signs of levels 1, 2, 3 and 0, each with its one type. */
  lemma PoolSpecFacts(level: int, kind: string)
    ensures ValidSpec(PoolSpec)
    ensures TotalCount(PoolSpec) == PoolSize
    ensures Levels(PoolSpec) == {0, 1, 2, 3}
    ensures SpecCount(PoolSpec, level, kind) ==
              if level == 1 && kind == "Top-Top" then 40
              else if level == 2 && kind == "Top" then 200
              else if level == 3 && kind == "Special" then 150
              else if level == 0 && kind == "Empty" then 9610
              else 0
  {
    var s := PoolSpec;
    assert s[..3] == [s[0], s[1], s[2]];
    assert s[..3][..2] == [s[0], s[1]];
    assert s[..3][..2][..1] == [s[0]];
    assert s[..3][..2][..1][..0] == [];
    var p1, p2, p3 := s[..3][..2][..1], s[..3][..2], s[..3];
    assert TotalCount(p1) == 40;
    assert TotalCount(p2) == 240;
    assert TotalCount(p3) == 390;
    assert SpecCount(p1, level, kind) == if level == 1 && kind == "Top-Top" then 40 else 0;
    assert SpecCount(p2, level, kind) == SpecCount(p1, level, kind) + if level == 2 && kind == "Top" then 200 else 0;
    assert SpecCount(p3, level, kind) == SpecCount(p2, level, kind) + if level == 3 && kind == "Special" then 150 else 0;
    assert Levels(PoolSpec) == {s[0].level, s[1].level, s[2].level, s[3].level};
  }

  /** The generated pool: 10,000 undrawn rows with distinct ids. */
  lemma GeneratedPool()
    ensures |Expand(PoolSpec)| == PoolSize
    ensures DistinctIds(Expand(PoolSpec))
    ensures UndrawnCount(Expand(PoolSpec)) == PoolSize
  {
    PoolSpecFacts(0, "");
    ExpandedRows(PoolSpec);
    Conservation(Expand(PoolSpec));
    AllUndrawnCount(Expand(PoolSpec));
  }

  lemma {:induction false} AllUndrawnCount(s: seq<Row>)
    requires forall i :: 0 <= i < |s| ==> !s[i].isDrawn
    ensures UndrawnCount(s) == |s|
  {
    if s != [] {
      AllUndrawnCount(s[..|s| - 1]);
    }
  }

  // ---------------------------------------------------------------------------
  // Batched INSERT statements
  // ---------------------------------------------------------------------------

  function Min(a: int, b: int): int
  {
    if a < b then a else b
  }

  function Concat(bs: seq<seq<Row>>): seq<Row>
  {
    if bs == [] then [] else Concat(bs[..|bs| - 1]) + bs[|bs| - 1]
  }

  /** The loop stepping `i += BATCH`: `rows.slice(i, i + BATCH)` each time. */
  method Batches(rows: seq<Row>) returns (batches: seq<seq<Row>>)
    ensures Concat(batches) == rows
    ensures |batches| == (|rows| + BatchSize - 1) / BatchSize
    ensures forall j :: 0 <= j < |batches| ==>
              batches[j] == rows[BatchSize * j .. Min(BatchSize * j + BatchSize, |rows|)]
    ensures forall j :: 0 <= j < |batches| ==> 0 < |batches[j]| <= BatchSize
    ensures forall j :: 0 <= j < |batches| - 1 ==> |batches[j]| == BatchSize
  {
    batches := [];
    var i := 0;
    while i < |rows|
      invariant i == BatchSize * |batches|
      invariant i <= |rows| || (|rows| < i < |rows| + BatchSize)
      invariant Concat(batches) == rows[..Min(i, |rows|)]
      invariant forall j :: 0 <= j < |batches| ==>
                  batches[j] == rows[BatchSize * j .. Min(BatchSize * j + BatchSize, |rows|)]
      invariant forall j :: 0 <= j < |batches| - 1 ==> |batches[j]| == BatchSize
      invariant forall j :: 0 <= j < |batches| ==> 0 < |batches[j]| <= BatchSize
    {
      var batch := rows[i .. Min(i + BatchSize, |rows|)];
      assert rows[..Min(i + BatchSize, |rows|)] == rows[..i] + batch;
      batches := batches + [batch];
      assert Concat(batches) == Concat(batches[..|batches| - 1]) + batch;
      i := i + BatchSize;
    }
    assert rows[..|rows|] == rows;
  }

  /** One value bound to an INSERT placeholder. */
  datatype SqlValue = Text(s: string) | Int(n: int) | Bool(b: bool)

  function RowValues(r: Row): seq<SqlValue>
  {
    [Text(r.id), Int(r.level), Text(r.kind), Text(r.rewardCode), Bool(r.isDrawn)]
  }

  /** `batch.flat()`: five values per row, row after row. */
  function Values(batch: seq<Row>): (vs: seq<SqlValue>)
    ensures |vs| == 5 * |batch|
  {
    if batch == [] then [] else Values(batch[..|batch| - 1]) + RowValues(batch[|batch| - 1])
  }

  /** `batch.map(() => '(?, ?, ?, ?, ?)').join(', ')` for a batch of `k` rows. */
  function Placeholders(k: nat): (r: string)
    ensures |r| == if k == 0 then 0 else 17 * k - 2
  {
    if k == 0 then ""
    else if k == 1 then RowTuple
    else Placeholders(k - 1) + Separator + RowTuple
  }

  const RowTuple: string := "(?, ?, ?, ?, ?)"
  const Separator: string := ", "

  lemma PiecesCounts()
    ensures multiset(RowTuple)['('] == 1 && multiset(RowTuple)['?'] == 5
    ensures multiset(Separator)['('] == 0 && multiset(Separator)['?'] == 0
  {
    assert multiset(RowTuple) == multiset{'(', '?', ',', ' ', '?', ',', ' ', '?', ',', ' ', '?', ',', ' ', '?', ')'};
  }

  /** Row `i` of the batch supplies values `5 * i` to `5 * i + 4`, in column order. */
  lemma {:induction false} ValuesOfRow(batch: seq<Row>, i: nat)
    requires i < |batch|
    ensures Values(batch)[5 * i .. 5 * i + 5] == RowValues(batch[i])
  {
    var p := batch[..|batch| - 1];
    if i < |p| {
      ValuesOfRow(p, i);
      assert Values(batch)[5 * i .. 5 * i + 5] == Values(p)[5 * i .. 5 * i + 5];
    }
  }

  /** A statement for `k` rows has `k` row tuples and `5 * k` parameter markers,
      one for each value bound. */
  lemma {:induction false} PlaceholderCounts(k: nat)
    ensures multiset(Placeholders(k))['('] == k
    ensures multiset(Placeholders(k))['?'] == 5 * k
  {
    PiecesCounts();
    if k > 1 {
      PlaceholderCounts(k - 1);
      var p := Placeholders(k - 1);
      assert multiset(Placeholders(k)) == multiset(p) + multiset(Separator) + multiset(RowTuple);
    }
  }

  /** Every batch's statement binds exactly as many values as it has markers. */
  lemma MarkersMatchValues(batch: seq<Row>)
    ensures multiset(Placeholders(|batch|))['?'] == |Values(batch)|
  {
    PlaceholderCounts(|batch|);
  }

  // ---------------------------------------------------------------------------
  // Keep, refill or fill
  // ---------------------------------------------------------------------------

  /** What initialisation does to a table holding `count` rows. */
  datatype InitPlan = InitPlan(truncate: bool, insert: bool)

  /** A full table is left alone; any other non-empty one is truncated first;
      an empty one is only filled. */
  function PlanFor(count: nat): (r: InitPlan)
    ensures !r.insert <==> count == PoolSize
    ensures r.truncate <==> count != PoolSize && count > 0
    ensures r.truncate ==> r.insert
  {
    if count == PoolSize then InitPlan(false, false)
    else if count > 0 then InitPlan(true, true)
    else InitPlan(false, true)
  }

  /** The table's rows after initialisation: a full table as it was, any other
      one replaced by the generated pool. */
  function Initialize(existing: seq<Row>): (r: seq<Row>)
    ensures |existing| == PoolSize ==> r == existing
    ensures |existing| != PoolSize ==> r == Expand(PoolSpec)
  {
    var plan := PlanFor(|existing|);
    var kept := if plan.truncate then [] else existing;
    if plan.insert then kept + Expand(PoolSpec) else kept
  }

  /** After initialisation the table has 10,000 rows, and running it again
      changes nothing. */
  lemma InitializeResult(existing: seq<Row>)
    ensures |Initialize(existing)| == PoolSize
    ensures Initialize(Initialize(existing)) == Initialize(existing)
  {
    PoolSpecFacts(0, "");
  }
}

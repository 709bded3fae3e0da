/** Rows of the `signs` table, the order the draw reads them in, and the
    counting and update queries the draw issues, as functions on the table's
    contents. */
module Signs {

  datatype Option<T> = None | Some(value: T)

  /** The fields a successful draw hands out. */
  datatype Sign = Sign(id: string, level: int, kind: string, rewardCode: string)

  /** One row of `signs`; `kind` is the column `type`. */
  datatype Row = Row(id: string, level: int, kind: string, rewardCode: string, isDrawn: bool)

  function SignOf(r: Row): Sign
  {
    Sign(r.id, r.level, r.kind, r.rewardCode)
  }

  /** An error raised by the database driver; `code` is the driver's `err.code`,
      which some errors do not carry. */
  datatype DbError = DbError(code: Option<string>)

  /** What `draw()` returns when it does not throw. */
  datatype DrawResult = Ok(sign: Sign) | OutOfStock

  /** What a call of `draw()` ends with: a value, or an exception. */
  datatype Outcome = Returned(result: DrawResult) | Threw(error: DbError)

  // ---------------------------------------------------------------------------
  // The primary-key order on ids
  // ---------------------------------------------------------------------------

  /** Lexicographic order on ids, character by character; a proper prefix comes first. */
  predicate IdLess(a: string, b: string)
  {
    if |a| == 0 then |b| > 0
    else |b| > 0 && (a[0] < b[0] || (a[0] == b[0] && IdLess(a[1..], b[1..])))
  }

  lemma {:induction false} IdLessIrreflexive(a: string)
    ensures !IdLess(a, a)
  {
    if |a| > 0 {
      IdLessIrreflexive(a[1..]);
    }
  }

  lemma {:induction false} IdLessAsymmetric(a: string, b: string)
    requires IdLess(a, b)
    ensures !IdLess(b, a)
  {
    if |a| > 0 && |b| > 0 && a[0] == b[0] {
      IdLessAsymmetric(a[1..], b[1..]);
    }
  }

  /** The table's rows lie in strictly increasing primary-key order. */
  predicate SortedById(s: seq<Row>)
  {
    forall i, j :: 0 <= i < j < |s| ==> IdLess(s[i].id, s[j].id)
  }

  predicate DistinctIds(s: seq<Row>)
  {
    forall i, j :: 0 <= i < j < |s| ==> s[i].id != s[j].id
  }

  lemma SortedHasDistinctIds(s: seq<Row>)
    requires SortedById(s)
    ensures DistinctIds(s)
  {
    forall i, j | 0 <= i < j < |s|
      ensures s[i].id != s[j].id
    {
      IdLessIrreflexive(s[i].id);
    }
  }

  /** Two tables hold the same signs at the same positions; only `is_drawn` may differ. */
  predicate SameSigns(a: seq<Row>, b: seq<Row>)
  {
    |a| == |b| && forall i :: 0 <= i < |a| ==> SignOf(a[i]) == SignOf(b[i])
  }

  /** No row that is drawn in `a` is undrawn in `b`. */
  predicate NeverUndraws(a: seq<Row>, b: seq<Row>)
    requires |a| == |b|
  {
    forall i :: 0 <= i < |a| && a[i].isDrawn ==> b[i].isDrawn
  }

  lemma SameSignsKeepSorted(a: seq<Row>, b: seq<Row>)
    requires SameSigns(a, b) && SortedById(a)
    ensures SortedById(b)
  {
    forall i, j | 0 <= i < j < |b|
      ensures IdLess(b[i].id, b[j].id)
    {
      assert SignOf(a[i]) == SignOf(b[i]) && SignOf(a[j]) == SignOf(b[j]);
    }
  }

  lemma KeepsSignsTransitive(a: seq<Row>, b: seq<Row>, c: seq<Row>)
    requires SameSigns(a, b) && NeverUndraws(a, b)
    requires SameSigns(b, c) && NeverUndraws(b, c)
    ensures SameSigns(a, c) && NeverUndraws(a, c)
  {
  }

  // ---------------------------------------------------------------------------
  // Counting: SELECT COUNT(*) ... WHERE is_drawn = false / = true
  // ---------------------------------------------------------------------------

  /** The undrawn rows, in table order. */
  function Undrawn(s: seq<Row>): (u: seq<Row>)
    ensures |u| <= |s|
    ensures forall i :: 0 <= i < |u| ==> !u[i].isDrawn
  {
    if s == [] then []
    else
      var p := s[..|s| - 1];
      Undrawn(p) + (if s[|s| - 1].isDrawn then [] else [s[|s| - 1]])
  }

  /** The drawn rows, in table order. */
  function Drawn(s: seq<Row>): (d: seq<Row>)
    ensures |d| <= |s|
    ensures forall i :: 0 <= i < |d| ==> d[i].isDrawn
  {
    if s == [] then []
    else
      var p := s[..|s| - 1];
      Drawn(p) + (if s[|s| - 1].isDrawn then [s[|s| - 1]] else [])
  }

  function UndrawnCount(s: seq<Row>): nat
  {
    |Undrawn(s)|
  }

  function DrawnCount(s: seq<Row>): nat
  {
    |Drawn(s)|
  }

  /** Drawn plus undrawn is always the whole table. */
  lemma {:induction false} Conservation(s: seq<Row>)
    ensures UndrawnCount(s) + DrawnCount(s) == |s|
  {
    if s != [] {
      Conservation(s[..|s| - 1]);
    }
  }

  /** No row is undrawn exactly when every row is drawn. */
  lemma {:induction false} NoneUndrawn(s: seq<Row>)
    ensures UndrawnCount(s) == 0 <==> forall i :: 0 <= i < |s| ==> s[i].isDrawn
  {
    if s != [] {
      var p := s[..|s| - 1];
      NoneUndrawn(p);
      assert forall i :: 0 <= i < |p| ==> p[i] == s[i];
    }
  }

  /** Drawing one undrawn row moves exactly one row from the undrawn count to the drawn count. */
  lemma {:induction false} FlipCounts(s: seq<Row>, k: nat)
    requires k < |s| && !s[k].isDrawn
    ensures UndrawnCount(s[k := s[k].(isDrawn := true)]) == UndrawnCount(s) - 1
    ensures DrawnCount(s[k := s[k].(isDrawn := true)]) == DrawnCount(s) + 1
  {
    var t := s[k := s[k].(isDrawn := true)];
    var p := s[..|s| - 1];
    if k == |s| - 1 {
      assert t[..|t| - 1] == p;
    } else {
      FlipCounts(p, k);
      assert t[..|t| - 1] == p[k := p[k].(isDrawn := true)];
    }
  }

  lemma PrefixCountStep(s: seq<Row>, i: nat)
    requires i < |s|
    ensures UndrawnCount(s[..i + 1]) == UndrawnCount(s[..i]) + (if s[i].isDrawn then 0 else 1)
  {
    assert s[..i + 1][..i] == s[..i];
  }

  lemma {:induction false} PrefixCountMonotone(s: seq<Row>, i: nat, j: nat)
    requires i <= j <= |s|
    ensures UndrawnCount(s[..i]) <= UndrawnCount(s[..j])
    decreases j - i
  {
    if i < j {
      PrefixCountStep(s, i);
      PrefixCountMonotone(s, i + 1, j);
    }
  }

  // ---------------------------------------------------------------------------
  // SELECT ... WHERE is_drawn = false ORDER BY id LIMIT 1 OFFSET o
  // ---------------------------------------------------------------------------

  /** The position of the `o`-th undrawn row (counting from 0) in table order. */
  function NthUndrawnIndex(s: seq<Row>, o: nat): (i: nat)
    requires o < UndrawnCount(s)
    ensures i < |s| && !s[i].isDrawn
    ensures UndrawnCount(s[..i]) == o
    ensures Undrawn(s)[o] == s[i]
  {
    var p := s[..|s| - 1];
    if o < UndrawnCount(p) then
      var i := NthUndrawnIndex(p, o);
      assert s[..i] == p[..i];
      i
    else
      assert s[..|s| - 1] == p;
      |s| - 1
  }

  /** The row the offset query returns, if any. */
  function SelectAt(s: seq<Row>, o: nat): (k: Option<nat>)
    ensures k.Some? ==> k.value < |s| && !s[k.value].isDrawn
  {
    if o < UndrawnCount(s) then Some(NthUndrawnIndex(s, o)) else None
  }

  /** An undrawn row with exactly `o` undrawn rows before it is the `o`-th one. */
  lemma NthUndrawnUnique(s: seq<Row>, o: nat, i: nat)
    requires i < |s| && !s[i].isDrawn && UndrawnCount(s[..i]) == o
    ensures o < UndrawnCount(s) && NthUndrawnIndex(s, o) == i
  {
    PrefixCountStep(s, i);
    PrefixCountMonotone(s, i + 1, |s|);
    assert s[..|s|] == s;
    var k := NthUndrawnIndex(s, o);
    assert UndrawnCount(s[..k]) == o && !s[k].isDrawn;
    if k < i {
      PrefixCountStep(s, k);
      PrefixCountMonotone(s, k + 1, i);
      assert false;
    } else if i < k {
      PrefixCountMonotone(s, i + 1, k);
      assert false;
    }
  }

  /** The query returns no row exactly when at most `o` rows are undrawn, and the
      row it returns is the undrawn one with exactly `o` undrawn rows before it. */
  lemma SelectAtCharacterized(s: seq<Row>, o: nat, i: nat)
    ensures SelectAt(s, o).None? <==> UndrawnCount(s) <= o
    ensures SelectAt(s, o) == Some(i) <==> i < |s| && !s[i].isDrawn && UndrawnCount(s[..i]) == o
  {
    if i < |s| && !s[i].isDrawn && UndrawnCount(s[..i]) == o {
      NthUndrawnUnique(s, o, i);
    }
  }

  /** In a table kept in id order, the selected row is the undrawn row with exactly
      `o` undrawn rows of smaller id. */
  lemma SelectedIsOffsetInIdOrder(s: seq<Row>, o: nat, k: nat)
    requires SortedById(s)
    requires SelectAt(s, o) == Some(k)
    ensures k < |s| && !s[k].isDrawn && s[k] == Undrawn(s)[o]
    ensures UndrawnCount(s[..k]) == o
    ensures forall i :: 0 <= i < |s| ==> (IdLess(s[i].id, s[k].id) <==> i < k)
  {
    forall i | 0 <= i < |s|
      ensures IdLess(s[i].id, s[k].id) <==> i < k
    {
      if i == k {
        IdLessIrreflexive(s[k].id);
      } else if k < i {
        IdLessAsymmetric(s[k].id, s[i].id);
      }
    }
  }

  // ---------------------------------------------------------------------------
  // UPDATE signs SET is_drawn = true WHERE id = ? AND is_drawn = false
  // ---------------------------------------------------------------------------

  /** The table after the conditional update. */
  function MarkIdDrawn(s: seq<Row>, id: string): (t: seq<Row>)
    ensures SameSigns(s, t) && NeverUndraws(s, t)
    ensures forall i :: 0 <= i < |s| && s[i].id != id ==> t[i] == s[i]
    ensures forall i :: 0 <= i < |s| && s[i].id == id ==> t[i].isDrawn
  {
    seq(|s|, i requires 0 <= i < |s| => if s[i].id == id then s[i].(isDrawn := true) else s[i])
  }

  /** The update's `affectedRows`: rows with that id that are still undrawn. */
  function MatchCount(s: seq<Row>, id: string): (r: nat)
    ensures r <= UndrawnCount(s)
  {
    if s == [] then 0
    else
      var last := s[|s| - 1];
      MatchCount(s[..|s| - 1], id) + (if last.id == id && !last.isDrawn then 1 else 0)
  }

  lemma MatchCountStep(s: seq<Row>, i: nat, id: string)
    requires i < |s|
    ensures MatchCount(s[..i + 1], id) == MatchCount(s[..i], id) + (if s[i].id == id && !s[i].isDrawn then 1 else 0)
  {
    assert s[..i + 1][..i] == s[..i];
  }

  lemma {:induction false} MatchCountAbsent(s: seq<Row>, id: string)
    requires forall i :: 0 <= i < |s| ==> s[i].id != id
    ensures MatchCount(s, id) == 0
  {
    if s != [] {
      MatchCountAbsent(s[..|s| - 1], id);
    }
  }

  /** With distinct ids, the update keyed by row `k`'s id touches row `k` alone:
      it affects one row if that row is undrawn and none otherwise. */
  lemma {:induction false} ConditionalUpdateTouchesOneRow(s: seq<Row>, k: nat)
    requires DistinctIds(s) && k < |s|
    ensures MatchCount(s, s[k].id) == if s[k].isDrawn then 0 else 1
    ensures MarkIdDrawn(s, s[k].id) == s[k := s[k].(isDrawn := true)]
  {
    var p := s[..|s| - 1];
    if k == |s| - 1 {
      MatchCountAbsent(p, s[k].id);
    } else {
      ConditionalUpdateTouchesOneRow(p, k);
    }
  }

  /** Rows at the positions in `claimed` become drawn: the commits of other transactions. */
  function ClaimAll(s: seq<Row>, claimed: set<nat>): (t: seq<Row>)
    ensures SameSigns(s, t) && NeverUndraws(s, t)
    ensures forall i :: 0 <= i < |s| && i !in claimed ==> t[i] == s[i]
    ensures forall i :: 0 <= i < |s| && i in claimed ==> t[i].isDrawn
  {
    seq(|s|, i requires 0 <= i < |s| => if i in claimed then s[i].(isDrawn := true) else s[i])
  }

  // ---------------------------------------------------------------------------
  // SELECT level, type, COUNT(*) ... GROUP BY level, type
  // ---------------------------------------------------------------------------

  /** The number of rows of one level and type. */
  function GroupCount(s: seq<Row>, level: int, kind: string): nat
  {
    if s == [] then 0
    else
      var last := s[|s| - 1];
      GroupCount(s[..|s| - 1], level, kind) + (if last.level == level && last.kind == kind then 1 else 0)
  }

  lemma {:induction false} GroupCountConcat(a: seq<Row>, b: seq<Row>, level: int, kind: string)
    ensures GroupCount(a + b, level, kind) == GroupCount(a, level, kind) + GroupCount(b, level, kind)
    decreases |b|
  {
    if b == [] {
      assert a + b == a;
    } else {
      assert (a + b)[..|a + b| - 1] == a + b[..|b| - 1];
      GroupCountConcat(a, b[..|b| - 1], level, kind);
    }
  }

  /** In rows that all share one level and type, a group holds all of them or none. */
  lemma {:induction false} GroupCountUniform(s: seq<Row>, lv: int, k: string, level: int, kind: string)
    requires forall i :: 0 <= i < |s| ==> s[i].level == lv && s[i].kind == k
    ensures GroupCount(s, level, kind) == if lv == level && k == kind then |s| else 0
  {
    if s != [] {
      GroupCountUniform(s[..|s| - 1], lv, k, level, kind);
    }
  }

  /** The ids in the table: SELECT DISTINCT id. */
  function IdSet(s: seq<Row>): set<string>
  {
    set i | 0 <= i < |s| :: s[i].id
  }

  /** With distinct ids, COUNT(DISTINCT id) is the row count. */
  lemma {:induction false} DistinctIdCount(s: seq<Row>)
    requires DistinctIds(s)
    ensures |IdSet(s)| == |s|
  {
    if s != [] {
      var p := s[..|s| - 1];
      DistinctIdCount(p);
      assert IdSet(s) == IdSet(p) + {s[|s| - 1].id};
      assert s[|s| - 1].id !in IdSet(p);
    }
  }
}

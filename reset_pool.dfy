/** The reset used between test runs: `UPDATE signs SET is_drawn = false` on
    every row, with no change to the rows themselves or their number. */
module ResetPool {
  import opened Signs
  import opened Table
  import opened Draw

  /** The table's rows after the reset. */
  function ResetAll(s: seq<Row>): (r: seq<Row>)
    ensures SameSigns(s, r)
    ensures forall i :: 0 <= i < |r| ==> !r[i].isDrawn
  {
    seq(|s|, i requires 0 <= i < |s| => s[i].(isDrawn := false))
  }

  /** The UPDATE, row by row, in place. */
  method Reset(t: SignsTable)
    requires t.Valid()
    modifies t.rows
    ensures t.Valid()
    ensures t.rows[..] == ResetAll(old(t.rows[..]))
  {
    ghost var before := t.rows[..];
    var i := 0;
    while i < t.rows.Length
      invariant 0 <= i <= t.rows.Length
      invariant forall j :: 0 <= j < i ==> t.rows[j] == before[j].(isDrawn := false)
      invariant forall j :: i <= j < t.rows.Length ==> t.rows[j] == before[j]
    {
      t.rows[i] := t.rows[i].(isDrawn := false);
      i := i + 1;
    }
    SameSignsKeepSorted(before, t.rows[..]);
  }

  /** After the reset every row counts as undrawn and none as drawn. */
  lemma {:induction false} ResetCounts(s: seq<Row>)
    ensures UndrawnCount(ResetAll(s)) == |s|
    ensures DrawnCount(ResetAll(s)) == 0
  {
    var r := ResetAll(s);
    if s != [] {
      ResetCounts(s[..|s| - 1]);
      assert ResetAll(s[..|s| - 1]) == r[..|r| - 1];
    }
    Conservation(r);
  }

  /** The reset depends only on the signs, not on which of them are drawn: two
      tables that differ only in `is_drawn` reset to the same table. */
  lemma ResetForgetsDraws(a: seq<Row>, b: seq<Row>)
    requires SameSigns(a, b)
    ensures ResetAll(a) == ResetAll(b)
  {
    forall i | 0 <= i < |a|
      ensures ResetAll(a)[i] == ResetAll(b)[i]
    {
      assert SignOf(a[i]) == SignOf(b[i]);
    }
  }

  /** Resetting twice is resetting once. */
  lemma ResetIdempotent(s: seq<Row>)
    ensures ResetAll(ResetAll(s)) == ResetAll(s)
  {
    ResetForgetsDraws(s, ResetAll(s));
  }

  /** Whatever a draw did to the table, the reset undoes it. */
  lemma ResetUndoesDraw(s: seq<Row>, e: DrawEnv)
    requires ValidEnv(e)
    ensures ResetAll(RunDraw(s, e).0) == ResetAll(s)
  {
    var (s1, a1) := RunAttempt(s, e.first);
    if e.connectError.None? && a1.LostUpdate? {
      KeepsSignsTransitive(s, s1, RunAttempt(s1, e.second).0);
    }
    ResetForgetsDraws(s, RunDraw(s, e).0);
  }
}

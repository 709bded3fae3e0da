/** The draw: one attempt is a transaction that counts the undrawn rows, picks
    a random offset below that count, selects the undrawn row at that offset in
    id order, and flips its `is_drawn` under the guard that it is still false;
    `draw()` makes at most two attempts.

    What the database and the other callers do is an input: the random number,
    the rows other transactions claim while an attempt runs, and the query at
    which the driver throws, if any. */
module Draw {
  import opened Signs
  import opened Table

  /** The queries of one attempt, in the order it issues them. */
  datatype Step = Begin | Count | Select | Update | Commit

  /** The driver throws `error` when the attempt reaches `at`. */
  datatype Fault = Fault(at: Step, error: DbError)

  /** What the world does during one attempt:
      `roll` is the value of `Math.random()`;
      `claimedBeforeSelect` are the positions of rows other transactions commit
      as drawn between the count and the select;
      `selectedClaimed` says another transaction commits the selected row between
      the select and the update;
      `fault` is the query that throws, if any. */
  datatype AttemptEnv = AttemptEnv(
    roll: real,
    claimedBeforeSelect: set<nat>,
    selectedClaimed: bool,
    fault: Option<Fault>)

  /** What one `draw()` call meets: a failure to connect, then the two attempts'
      environments (the second is used only if the first loses its update). */
  datatype DrawEnv = DrawEnv(connectError: Option<DbError>, first: AttemptEnv, second: AttemptEnv)

  /** What `attempt()` ends with: a result object, `null` after a lost update,
      or an exception rethrown after the rollback. */
  datatype AttemptOutcome = Finished(result: DrawResult) | LostUpdate | Raised(error: DbError)

  predicate ValidRoll(roll: real)
  {
    0.0 <= roll < 1.0
  }

  predicate ValidEnv(e: DrawEnv)
  {
    ValidRoll(e.first.roll) && ValidRoll(e.second.roll)
  }

  predicate FaultsAt(e: AttemptEnv, step: Step)
  {
    e.fault.Some? && e.fault.value.at == step
  }

  /** No other transaction commits anything while the attempt runs. */
  predicate NoRival(e: AttemptEnv)
  {
    e.claimedBeforeSelect == {} && !e.selectedClaimed
  }

  /** A sequential run: no rival and no fault. */
  predicate Quiet(e: AttemptEnv)
  {
    NoRival(e) && e.fault.None?
  }

  /** Math.floor(roll * n): a position among the n undrawn rows. */
  function Offset(roll: real, n: nat): (k: nat)
    requires ValidRoll(roll) && 0 < n
    ensures k < n
  {
    var x := roll * n as real;
    assert 0.0 <= x < n as real;
    x.Floor
  }

  // ---------------------------------------------------------------------------
  // The transaction as functions on the table's contents
  // ---------------------------------------------------------------------------

  /** The table after one attempt and what the attempt returns or throws. The
      attempt, and the rivals it meets, never touch a row's id, level, type or
      reward code, and never make a drawn row undrawn. */
  function RunAttempt(s: seq<Row>, e: AttemptEnv): (r: (seq<Row>, AttemptOutcome))
    requires ValidRoll(e.roll)
    ensures SameSigns(s, r.0) && NeverUndraws(s, r.0)
  {
    if FaultsAt(e, Begin) || FaultsAt(e, Count) then (s, Raised(e.fault.value.error))
    else if UndrawnCount(s) == 0 then (s, Finished(OutOfStock))
    else
      var s1 := ClaimAll(s, e.claimedBeforeSelect);
      var r := SelectAndUpdate(s1, e, Offset(e.roll, UndrawnCount(s)));
      KeepsSignsTransitive(s, s1, r.0);
      r
  }

  /** The attempt from the select on, on the table as the select sees it. */
  function SelectAndUpdate(s1: seq<Row>, e: AttemptEnv, offset: nat): (r: (seq<Row>, AttemptOutcome))
    ensures SameSigns(s1, r.0) && NeverUndraws(s1, r.0)
  {
    if FaultsAt(e, Select) then (s1, Raised(e.fault.value.error))
    else
      match SelectAt(s1, offset)
      case None => (s1, Finished(OutOfStock))
      case Some(k) => UpdateSelected(s1, e, k)
  }

  /** The attempt from the update on, once row `k` is selected: commits the flip
      of row `k` alone, or writes nothing of its own. */
  function UpdateSelected(s1: seq<Row>, e: AttemptEnv, k: nat): (r: (seq<Row>, AttemptOutcome))
    requires k < |s1|
    ensures SameSigns(s1, r.0) && NeverUndraws(s1, r.0)
  {
    var sign := SignOf(s1[k]);
    var s2 := if e.selectedClaimed then ClaimAll(s1, {k}) else s1;
    if FaultsAt(e, Update) then (s2, Raised(e.fault.value.error))
    else if MatchCount(s2, sign.id) == 0 then (s2, LostUpdate)
    else if FaultsAt(e, Commit) then (s2, Raised(e.fault.value.error))
    else
      KeepsSignsTransitive(s1, s2, MarkIdDrawn(s2, sign.id));
      (MarkIdDrawn(s2, sign.id), Finished(Ok(sign)))
  }

  /** `draw()`: a second attempt only after a lost update, and a second lost
      update reported as out of stock. */
  function RunDraw(s: seq<Row>, e: DrawEnv): (r: (seq<Row>, Outcome))
    requires ValidEnv(e)
    ensures SameSigns(s, r.0) && NeverUndraws(s, r.0)
  {
    if e.connectError.Some? then (s, Threw(e.connectError.value))
    else
      var (s1, a1) := RunAttempt(s, e.first);
      var (s2, a2) := if a1.LostUpdate? then RunAttempt(s1, e.second) else (s1, a1);
      KeepsSignsTransitive(s, s1, s2);
      (s2, match a2
           case Finished(r) => Returned(r)
           case LostUpdate => Returned(OutOfStock)
           case Raised(err) => Threw(err))
  }

  /** A series of `draw()` calls, one after another, on the same table: one
      outcome per call, and the signs kept throughout. */
  function RunDraws(s: seq<Row>, es: seq<DrawEnv>): (r: (seq<Row>, seq<Outcome>))
    requires forall i :: 0 <= i < |es| ==> ValidEnv(es[i])
    ensures |r.1| == |es|
    ensures SameSigns(s, r.0) && NeverUndraws(s, r.0)
    decreases |es|
  {
    if es == [] then (s, [])
    else
      var (s1, o) := RunDraw(s, es[0]);
      var (s2, os) := RunDraws(s1, es[1..]);
      KeepsSignsTransitive(s, s1, s2);
      (s2, [o] + os)
  }

  // ---------------------------------------------------------------------------
  // The transaction against the table
  // ---------------------------------------------------------------------------

  /** `attempt()`: BEGIN, COUNT, SELECT ... FOR UPDATE, conditional UPDATE,
      then COMMIT, or ROLLBACK on every other exit. */
  method Attempt(t: SignsTable, e: AttemptEnv) returns (out: AttemptOutcome)
    requires t.Valid() && ValidRoll(e.roll)
    modifies t.rows
    ensures t.Valid()
    ensures (t.rows[..], out) == RunAttempt(old(t.rows[..]), e)
  {
    if FaultsAt(e, Begin) || FaultsAt(e, Count) {
      return Raised(e.fault.value.error);
    }
    var n := t.CountUndrawn();
    if n == 0 {
      return Finished(OutOfStock);
    }
    var offset := Offset(e.roll, n);
    t.Claim(e.claimedBeforeSelect);
    if FaultsAt(e, Select) {
      return Raised(e.fault.value.error);
    }
    var k := t.SelectUndrawnAt(offset);
    if k.None? {
      return Finished(OutOfStock);
    }
    var sign := SignOf(t.rows[k.value]);
    if e.selectedClaimed {
      t.Claim({k.value});
    }
    if FaultsAt(e, Update) {
      return Raised(e.fault.value.error);
    }
    var before := t.rows[..];
    var affected := t.MarkDrawnWhereUndrawn(sign.id);
    if affected == 0 {
      t.Rollback(before);
      return LostUpdate;
    }
    if FaultsAt(e, Commit) {
      t.Rollback(before);
      return Raised(e.fault.value.error);
    }
    return Finished(Ok(sign));
  }

  /** `draw()`: connect, one attempt, a second one if the first returned `null`,
      and OUT_OF_STOCK if that one did too. */
  method PerformDraw(t: SignsTable, e: DrawEnv) returns (out: Outcome)
    requires t.Valid() && ValidEnv(e)
    modifies t.rows
    ensures t.Valid()
    ensures (t.rows[..], out) == RunDraw(old(t.rows[..]), e)
  {
    if e.connectError.Some? {
      return Threw(e.connectError.value);
    }
    var a := Attempt(t, e.first);
    if a.LostUpdate? {
      a := Attempt(t, e.second);
    }
    match a
    case Finished(r) => out := Returned(r);
    case LostUpdate => out := Returned(OutOfStock);
    case Raised(err) => out := Threw(err);
  }
}

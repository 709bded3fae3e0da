/** What the draw promises: per call, and over a series of calls. */
module DrawProperties {
  import opened Signs
  import opened Draw

  predicate IsOk(o: Outcome)
  {
    o.Returned? && o.result.Ok?
  }

  /** A `draw()` with a connection, no rival transaction and no fault. */
  predicate Sequential(e: DrawEnv)
  {
    e.connectError.None? && Quiet(e.first) && Quiet(e.second)
  }

  lemma ClaimNothing(s: seq<Row>)
    ensures ClaimAll(s, {}) == s
  {
  }

  // ---------------------------------------------------------------------------
  // One attempt
  // ---------------------------------------------------------------------------

  /** A sign handed out by an attempt is that of a row that was undrawn before
      the attempt and is drawn after it. */
  lemma AttemptClaimsUndrawnRow(s: seq<Row>, e: AttemptEnv)
    requires ValidRoll(e.roll)
    requires RunAttempt(s, e).1.Finished? && RunAttempt(s, e).1.result.Ok?
    ensures exists k :: 0 <= k < |s| && !s[k].isDrawn && RunAttempt(s, e).0[k].isDrawn
                        && RunAttempt(s, e).1.result.sign == SignOf(s[k])
  {
    var n := UndrawnCount(s);
    var s1 := ClaimAll(s, e.claimedBeforeSelect);
    var offset := Offset(e.roll, n);
    assert RunAttempt(s, e) == SelectAndUpdate(s1, e, offset);
    var k := SelectAt(s1, offset).value;
    assert SelectAndUpdate(s1, e, offset) == UpdateSelected(s1, e, k);
    assert !s[k].isDrawn && SignOf(s[k]) == SignOf(s1[k]);
  }

  /** The update's guard can only fail when another transaction committed the
      selected row first. */
  lemma LostUpdateNeedsRival(s: seq<Row>, e: AttemptEnv)
    requires ValidRoll(e.roll) && DistinctIds(s)
    requires RunAttempt(s, e).1 == LostUpdate
    ensures e.selectedClaimed
  {
    var n := UndrawnCount(s);
    var s1 := ClaimAll(s, e.claimedBeforeSelect);
    var k := SelectAt(s1, Offset(e.roll, n)).value;
    if !e.selectedClaimed {
      assert DistinctIds(s1);
      ConditionalUpdateTouchesOneRow(s1, k);
    }
  }

  /** With undrawn rows counted, the select can only come back empty when other
      transactions committed claims between the count and the select. */
  lemma EmptySelectNeedsRival(s: seq<Row>, e: AttemptEnv)
    requires ValidRoll(e.roll) && UndrawnCount(s) > 0
    requires RunAttempt(s, e).1 == Finished(OutOfStock)
    ensures e.claimedBeforeSelect != {}
  {
    if e.claimedBeforeSelect == {} {
      ClaimNothing(s);
    }
  }

  /** Without rival transactions: OUT_OF_STOCK exactly when nothing is undrawn
      (and the count ran); an OK flips exactly the row at the offset, in id order,
      among the undrawn rows; every other ending leaves the table as it was; and
      the update is never lost. */
  lemma RivalFreeAttempt(s: seq<Row>, e: AttemptEnv)
    requires ValidRoll(e.roll) && NoRival(e) && DistinctIds(s)
    ensures RunAttempt(s, e).1 != LostUpdate
    ensures RunAttempt(s, e).1 == Finished(OutOfStock)
            <==> !FaultsAt(e, Begin) && !FaultsAt(e, Count) && UndrawnCount(s) == 0
    ensures e.fault.None? ==> RunAttempt(s, e).1.Finished?
    ensures RunAttempt(s, e).1.Raised? ==> e.fault.Some? && RunAttempt(s, e).1.error == e.fault.value.error
    ensures RunAttempt(s, e).1.Finished? && RunAttempt(s, e).1.result.Ok? ==>
              var n := UndrawnCount(s);
              n > 0 &&
              var k := NthUndrawnIndex(s, Offset(e.roll, n));
              RunAttempt(s, e) == (s[k := s[k].(isDrawn := true)], Finished(Ok(SignOf(s[k]))))
    ensures !(RunAttempt(s, e).1.Finished? && RunAttempt(s, e).1.result.Ok?) ==> RunAttempt(s, e).0 == s
  {
    var n := UndrawnCount(s);
    ClaimNothing(s);
    if n > 0 && !FaultsAt(e, Begin) && !FaultsAt(e, Count) {
      var o := Offset(e.roll, n);
      var k := NthUndrawnIndex(s, o);
      SelectAtCharacterized(s, o, k);
      ConditionalUpdateTouchesOneRow(s, k);
      assert RunAttempt(s, e) == SelectAndUpdate(s, e, o);
      if !FaultsAt(e, Select) {
        assert SelectAndUpdate(s, e, o) == UpdateSelected(s, e, k);
      }
    }
  }

  // ---------------------------------------------------------------------------
  // One draw()
  // ---------------------------------------------------------------------------

  /** A sign handed out by a draw is that of a row that was undrawn before the
      call and is drawn after it. */
  lemma DrawClaimsUndrawnRow(s: seq<Row>, e: DrawEnv)
    requires ValidEnv(e)
    requires IsOk(RunDraw(s, e).1)
    ensures exists k :: 0 <= k < |s| && !s[k].isDrawn && RunDraw(s, e).0[k].isDrawn
                        && RunDraw(s, e).1.result.sign == SignOf(s[k])
  {
    var (s1, a1) := RunAttempt(s, e.first);
    if a1.LostUpdate? {
      AttemptClaimsUndrawnRow(s1, e.second);
      var k :| 0 <= k < |s1| && !s1[k].isDrawn && RunAttempt(s1, e.second).0[k].isDrawn
               && RunAttempt(s1, e.second).1.result.sign == SignOf(s1[k]);
      assert !s[k].isDrawn && SignOf(s[k]) == SignOf(s1[k]);
    } else {
      AttemptClaimsUndrawnRow(s, e.first);
    }
  }

  /** A sequential draw: OUT_OF_STOCK with the table unchanged when nothing is
      undrawn; otherwise OK with the sign of the undrawn row at the offset, that
      row alone flipped, and the undrawn count one lower. */
  lemma SequentialDraw(s: seq<Row>, e: DrawEnv)
    requires ValidEnv(e) && Sequential(e) && DistinctIds(s)
    ensures UndrawnCount(s) == 0 ==> RunDraw(s, e) == (s, Returned(OutOfStock))
    ensures UndrawnCount(s) > 0 ==>
              var k := NthUndrawnIndex(s, Offset(e.first.roll, UndrawnCount(s)));
              RunDraw(s, e) == (s[k := s[k].(isDrawn := true)], Returned(Ok(SignOf(s[k]))))
              && UndrawnCount(RunDraw(s, e).0) == UndrawnCount(s) - 1
              && DrawnCount(RunDraw(s, e).0) == DrawnCount(s) + 1
  {
    RivalFreeAttempt(s, e.first);
    if UndrawnCount(s) > 0 {
      var k := NthUndrawnIndex(s, Offset(e.first.roll, UndrawnCount(s)));
      FlipCounts(s, k);
    }
  }

  /** On a table in id order, a sequential draw hands out the undrawn row that
      has exactly `offset` undrawn rows of smaller id before it. */
  lemma SequentialDrawPicksInIdOrder(s: seq<Row>, e: DrawEnv)
    requires ValidEnv(e) && Sequential(e) && SortedById(s) && UndrawnCount(s) > 0
    ensures var o := Offset(e.first.roll, UndrawnCount(s));
            exists k :: 0 <= k < |s| && !s[k].isDrawn
                        && RunDraw(s, e).1 == Returned(Ok(SignOf(s[k])))
                        && UndrawnCount(s[..k]) == o
                        && forall i :: 0 <= i < |s| ==> (IdLess(s[i].id, s[k].id) <==> i < k)
  {
    var o := Offset(e.first.roll, UndrawnCount(s));
    SortedHasDistinctIds(s);
    SequentialDraw(s, e);
    var k := NthUndrawnIndex(s, o);
    SelectAtCharacterized(s, o, k);
    SelectedIsOffsetInIdOrder(s, o, k);
  }

  /** Without rival transactions a draw never retries, a failure rolls back
      everything, and the error reported is the driver's. */
  lemma RivalFreeDrawRollsBack(s: seq<Row>, e: DrawEnv)
    requires ValidEnv(e) && NoRival(e.first) && DistinctIds(s)
    ensures RunAttempt(s, e.first).1 != LostUpdate
    ensures !IsOk(RunDraw(s, e).1) ==> RunDraw(s, e).0 == s
    ensures RunDraw(s, e).1.Threw? ==>
              (e.connectError.Some? && RunDraw(s, e).1.error == e.connectError.value) ||
              (e.first.fault.Some? && RunDraw(s, e).1.error == e.first.fault.value.error)
  {
    RivalFreeAttempt(s, e.first);
  }

  /** Once every row is drawn, every draw leaves the table alone and hands out
      nothing, whatever the rivals and the driver do. */
  lemma ExhaustedStaysExhausted(s: seq<Row>, e: DrawEnv)
    requires ValidEnv(e) && UndrawnCount(s) == 0
    ensures RunDraw(s, e).0 == s
    ensures !IsOk(RunDraw(s, e).1)
    ensures e.connectError.None? && e.first.fault.None? ==> RunDraw(s, e).1 == Returned(OutOfStock)
  {
  }

  /** Three undrawn empty signs. */
  const Contended: seq<Row> := [
    Row("S00-0001", 0, "Empty", "EMPTY", false),
    Row("S00-0002", 0, "Empty", "EMPTY", false),
    Row("S00-0003", 0, "Empty", "EMPTY", false)
  ]

  /** Each attempt picks offset 0 and a rival commits that row before the update. */
  const Rivalled: AttemptEnv := AttemptEnv(0.0, {}, true, None)

  /** On any table, a draw whose two attempts both lose their update reports
      OUT_OF_STOCK, whatever is still undrawn. */
  lemma TwoLostUpdatesReportOutOfStock(s: seq<Row>, e: DrawEnv)
    requires ValidEnv(e) && e.connectError.None?
    requires RunAttempt(s, e.first).1 == LostUpdate
    requires RunAttempt(RunAttempt(s, e.first).0, e.second).1 == LostUpdate
    ensures RunDraw(s, e) == (RunAttempt(RunAttempt(s, e.first).0, e.second).0, Returned(OutOfStock))
  {
  }

  /** A witness that the case is real: on the three-row table `Contended`, with
      a rival taking the selected row in both attempts (`Rivalled`), the draw
      reports OUT_OF_STOCK although a row is still undrawn. */
  lemma ContentionReportsOutOfStock()
    ensures RunDraw(Contended, DrawEnv(None, Rivalled, Rivalled)).1 == Returned(OutOfStock)
    ensures UndrawnCount(RunDraw(Contended, DrawEnv(None, Rivalled, Rivalled)).0) == 1
  {
    var s1 := FirstLoss();
    assert Offset(0.0, 2) == 0;
    NthUndrawnUnique(s1, 0, 1);
    var k := LoseSelectedRow(s1, Rivalled);
    assert RunDraw(Contended, DrawEnv(None, Rivalled, Rivalled)) == (RunAttempt(s1, Rivalled).0, Returned(OutOfStock));
  }

  /** The first attempt on the contended table loses row 0 to the rival. */
  lemma FirstLoss() returns (s1: seq<Row>)
    ensures RunAttempt(Contended, Rivalled) == (s1, LostUpdate)
    ensures DistinctIds(s1) && UndrawnCount(s1) == 2
    ensures 1 < |s1| && !s1[1].isDrawn && UndrawnCount(s1[..1]) == 0
  {
    var s := Contended;
    PrefixCountStep(s, 0);
    PrefixCountStep(s, 1);
    PrefixCountStep(s, 2);
    assert s[..0] == [] && s[..3] == s;
    assert Offset(0.0, 3) == 0;
    NthUndrawnUnique(s, 0, 0);
    var k := LoseSelectedRow(s, Rivalled);
    s1 := RunAttempt(s, Rivalled).0;
    assert s1[..1][..0] == [];
  }

  /** Whatever the roll, when no row is claimed before the select but a rival
      commits the selected row before the update, the attempt loses its update:
      the table then holds the rival's flip of that row alone, one undrawn row
      fewer, and the attempt's own write is rolled back. */
  lemma LoseSelectedRow(s: seq<Row>, e: AttemptEnv) returns (k: nat)
    requires ValidRoll(e.roll) && e.claimedBeforeSelect == {} && e.selectedClaimed && e.fault.None?
    requires DistinctIds(s) && UndrawnCount(s) > 0
    ensures k == NthUndrawnIndex(s, Offset(e.roll, UndrawnCount(s)))
    ensures RunAttempt(s, e) == (s[k := s[k].(isDrawn := true)], LostUpdate)
    ensures UndrawnCount(RunAttempt(s, e).0) == UndrawnCount(s) - 1
    ensures DistinctIds(RunAttempt(s, e).0)
  {
    var o := Offset(e.roll, UndrawnCount(s));
    ClaimNothing(s);
    k := NthUndrawnIndex(s, o);
    SelectAtCharacterized(s, o, k);
    var s1 := ClaimAll(s, {k});
    assert s1 == s[k := s[k].(isDrawn := true)];
    assert DistinctIds(s1);
    ConditionalUpdateTouchesOneRow(s1, k);
    assert SelectAndUpdate(s, e, o) == UpdateSelected(s, e, k);
    FlipCounts(s, k);
  }

  // ---------------------------------------------------------------------------
  // What an attempt writes, whatever the rivals do
  // ---------------------------------------------------------------------------

  /** The table as the rivals leave it during an attempt: the rows claimed
      between the count and the select, then the selected row if a rival
      commits it before the update. Nothing is claimed once the attempt has
      stopped: after a fault at BEGIN or COUNT, or a count of 0. */
  function RivalCommits(s: seq<Row>, e: AttemptEnv): (r: seq<Row>)
    requires ValidRoll(e.roll)
    ensures SameSigns(s, r) && NeverUndraws(s, r)
  {
    if FaultsAt(e, Begin) || FaultsAt(e, Count) || UndrawnCount(s) == 0 then s
    else
      var s1 := ClaimAll(s, e.claimedBeforeSelect);
      if FaultsAt(e, Select) then s1
      else
        match SelectAt(s1, Offset(e.roll, UndrawnCount(s)))
        case None => s1
        case Some(k) =>
          KeepsSignsTransitive(s, s1, if e.selectedClaimed then ClaimAll(s1, {k}) else s1);
          if e.selectedClaimed then ClaimAll(s1, {k}) else s1
  }

  /** Every ending other than OK rolls the attempt's own write back: the table
      is exactly what the rivals made of it. */
  lemma AttemptRollsBackUnlessOk(s: seq<Row>, e: AttemptEnv)
    requires ValidRoll(e.roll)
    requires !(RunAttempt(s, e).1.Finished? && RunAttempt(s, e).1.result.Ok?)
    ensures RunAttempt(s, e).0 == RivalCommits(s, e)
  {
  }

  /** An OK commits the flip of one row on top of the rivals' commits: the row
      whose fields were handed out, which was still undrawn, and no other. */
  lemma AttemptOkFlipsOneRow(s: seq<Row>, e: AttemptEnv)
    requires ValidRoll(e.roll) && DistinctIds(s)
    requires RunAttempt(s, e).1.Finished? && RunAttempt(s, e).1.result.Ok?
    ensures var r := RivalCommits(s, e);
            RunAttempt(s, e).0 == MarkIdDrawn(r, RunAttempt(s, e).1.result.sign.id)
            && exists k :: 0 <= k < |r| && !r[k].isDrawn
                           && RunAttempt(s, e).0 == r[k := r[k].(isDrawn := true)]
                           && RunAttempt(s, e).1.result.sign == SignOf(s[k])
  {
    var n := UndrawnCount(s);
    var s1 := ClaimAll(s, e.claimedBeforeSelect);
    var o := Offset(e.roll, n);
    assert RunAttempt(s, e) == SelectAndUpdate(s1, e, o);
    var k := SelectAt(s1, o).value;
    assert SelectAndUpdate(s1, e, o) == UpdateSelected(s1, e, k);
    var r := RivalCommits(s, e);
    assert r == if e.selectedClaimed then ClaimAll(s1, {k}) else s1;
    assert DistinctIds(r);
    ConditionalUpdateTouchesOneRow(r, k);
    assert SignOf(s[k]) == SignOf(s1[k]);
  }

  // ---------------------------------------------------------------------------
  // A series of draw() calls
  // ---------------------------------------------------------------------------

  /** Over any series of draws, every sign handed out comes from a row undrawn at
      the start, and no id is handed out twice. */
  lemma {:induction false} DrawsHandOutDistinctIds(s: seq<Row>, es: seq<DrawEnv>)
    requires forall i :: 0 <= i < |es| ==> ValidEnv(es[i])
    requires DistinctIds(s)
    ensures |RunDraws(s, es).1| == |es|
    ensures SameSigns(s, RunDraws(s, es).0)
    ensures forall i :: 0 <= i < |es| && IsOk(RunDraws(s, es).1[i]) ==>
              exists k :: 0 <= k < |s| && !s[k].isDrawn && RunDraws(s, es).1[i].result.sign == SignOf(s[k])
    ensures forall i, j :: 0 <= i < j < |es| && IsOk(RunDraws(s, es).1[i]) && IsOk(RunDraws(s, es).1[j]) ==>
              RunDraws(s, es).1[i].result.sign.id != RunDraws(s, es).1[j].result.sign.id
    decreases |es|
  {
    if es != [] {
      var (s1, o) := RunDraw(s, es[0]);
      assert DistinctIds(s1);
      DrawsHandOutDistinctIds(s1, es[1..]);
      if IsOk(o) {
        DrawClaimsUndrawnRow(s, es[0]);
      }
      PrependHandOut(s, s1, o, RunDraws(s1, es[1..]).1);
    }
  }

  /** One more draw in front of a series: its sign came from a row it drew, so
      it is none of the later signs, which all came from rows undrawn after it. */
  lemma PrependHandOut(s: seq<Row>, s1: seq<Row>, o: Outcome, os: seq<Outcome>)
    requires DistinctIds(s) && SameSigns(s, s1) && NeverUndraws(s, s1)
    requires IsOk(o) ==> exists k :: 0 <= k < |s| && !s[k].isDrawn && s1[k].isDrawn && o.result.sign == SignOf(s[k])
    requires forall i :: 0 <= i < |os| && IsOk(os[i]) ==>
               exists k :: 0 <= k < |s1| && !s1[k].isDrawn && os[i].result.sign == SignOf(s1[k])
    requires forall i, j :: 0 <= i < j < |os| && IsOk(os[i]) && IsOk(os[j]) ==>
               os[i].result.sign.id != os[j].result.sign.id
    ensures forall i :: 0 <= i < |[o] + os| && IsOk(([o] + os)[i]) ==>
              exists k :: 0 <= k < |s| && !s[k].isDrawn && ([o] + os)[i].result.sign == SignOf(s[k])
    ensures forall i, j :: 0 <= i < j < |[o] + os| && IsOk(([o] + os)[i]) && IsOk(([o] + os)[j]) ==>
              ([o] + os)[i].result.sign.id != ([o] + os)[j].result.sign.id
  {
    var outs := [o] + os;
    forall i | 0 <= i < |outs| && IsOk(outs[i])
      ensures exists k :: 0 <= k < |s| && !s[k].isDrawn && outs[i].result.sign == SignOf(s[k])
    {
      if i > 0 {
        assert IsOk(os[i - 1]);
        var k :| 0 <= k < |s1| && !s1[k].isDrawn && os[i - 1].result.sign == SignOf(s1[k]);
        assert !s[k].isDrawn && SignOf(s[k]) == SignOf(s1[k]);
      }
    }
    forall i, j | 0 <= i < j < |outs| && IsOk(outs[i]) && IsOk(outs[j])
      ensures outs[i].result.sign.id != outs[j].result.sign.id
    {
      if i == 0 {
        var k0 :| 0 <= k0 < |s| && !s[k0].isDrawn && s1[k0].isDrawn && o.result.sign == SignOf(s[k0]);
        assert IsOk(os[j - 1]);
        var k :| 0 <= k < |s1| && !s1[k].isDrawn && os[j - 1].result.sign == SignOf(s1[k]);
        assert k != k0;
        assert SignOf(s[k0]) == SignOf(s1[k0]);
      } else {
        assert IsOk(os[i - 1]) && IsOk(os[j - 1]);
      }
    }
  }

  lemma SequentialDrawStep(s: seq<Row>, e: DrawEnv)
    requires ValidEnv(e) && Sequential(e) && DistinctIds(s) && UndrawnCount(s) > 0
    ensures IsOk(RunDraw(s, e).1)
    ensures UndrawnCount(RunDraw(s, e).0) == UndrawnCount(s) - 1
    ensures |RunDraw(s, e).0| == |s| && DistinctIds(RunDraw(s, e).0)
  {
    SequentialDraw(s, e);
  }

  /** Starting with n undrawn rows, n sequential draws all succeed and leave every
      row drawn: drawn = total and undrawn = 0, so the next draw is OUT_OF_STOCK. */
  lemma SequentialDepletion(s: seq<Row>, es: seq<DrawEnv>)
    requires forall i :: 0 <= i < |es| ==> ValidEnv(es[i]) && Sequential(es[i])
    requires DistinctIds(s) && |es| == UndrawnCount(s)
    ensures |RunDraws(s, es).1| == |es|
    ensures forall i :: 0 <= i < |es| ==> IsOk(RunDraws(s, es).1[i])
    ensures UndrawnCount(RunDraws(s, es).0) == 0
    ensures DrawnCount(RunDraws(s, es).0) == |s|
  {
    SequentialDrawsSucceed(s, es);
    Conservation(RunDraws(s, es).0);
  }

  lemma {:induction false} SequentialDrawsSucceed(s: seq<Row>, es: seq<DrawEnv>)
    requires forall i :: 0 <= i < |es| ==> ValidEnv(es[i]) && Sequential(es[i])
    requires DistinctIds(s) && |es| == UndrawnCount(s)
    ensures AllOk(RunDraws(s, es).1)
    ensures UndrawnCount(RunDraws(s, es).0) == 0
    decreases |es|
  {
    if es != [] {
      var r := RunDraw(s, es[0]);
      SequentialDrawStep(s, es[0]);
      SequentialDrawsSucceed(r.0, es[1..]);
      RunDrawsCons(s, es);
      AllOkCons(r.1, RunDraws(r.0, es[1..]).1);
    }
  }

  predicate AllOk(os: seq<Outcome>)
  {
    forall i :: 0 <= i < |os| ==> IsOk(os[i])
  }

  lemma AllOkCons(o: Outcome, os: seq<Outcome>)
    requires IsOk(o) && AllOk(os)
    ensures AllOk([o] + os)
  {
    assert forall i :: 0 < i <= |os| ==> ([o] + os)[i] == os[i - 1];
  }

  /** A series is its first draw followed by the rest of the series. */
  lemma RunDrawsCons(s: seq<Row>, es: seq<DrawEnv>)
    requires forall i :: 0 <= i < |es| ==> ValidEnv(es[i])
    requires es != []
    ensures var r := RunDraw(s, es[0]);
            var rs := RunDraws(r.0, es[1..]);
            RunDraws(s, es) == (rs.0, [r.1] + rs.1)
  {
  }
}

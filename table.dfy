/** An in-memory stand-in for the `signs` table: the rows in an array kept in
    primary-key order, and the queries the draw and the reset issue against it. */
module Table {
  import opened Signs

  class SignsTable {
    const rows: array<Row>

    /** The table is stored in ascending id order, as its primary key keeps it. */
    ghost predicate Valid()
      reads this, rows
    {
      SortedById(rows[..])
    }

    constructor (init: seq<Row>)
      requires SortedById(init)
      ensures Valid() && fresh(rows)
      ensures rows[..] == init
    {
      rows := new Row[|init|](i requires 0 <= i < |init| => init[i]);
    }

    /** SELECT COUNT(*) FROM signs WHERE is_drawn = false */
    method CountUndrawn() returns (n: nat)
      ensures n == UndrawnCount(rows[..])
    {
      n := 0;
      var i := 0;
      while i < rows.Length
        invariant 0 <= i <= rows.Length
        invariant n == UndrawnCount(rows[..i])
      {
        PrefixCountStep(rows[..], i);
        assert rows[..][..i] == rows[..i] && rows[..][..i + 1] == rows[..i + 1];
        if !rows[i].isDrawn {
          n := n + 1;
        }
        i := i + 1;
      }
      assert rows[..rows.Length] == rows[..];
    }

    /** SELECT ... WHERE is_drawn = false ORDER BY id LIMIT 1 OFFSET offset:
        the position of the row returned, or None for an empty result. */
    method SelectUndrawnAt(offset: nat) returns (k: Option<nat>)
      ensures k == SelectAt(rows[..], offset)
    {
      var seen := 0;
      var i := 0;
      while i < rows.Length
        invariant 0 <= i <= rows.Length
        invariant seen == UndrawnCount(rows[..i]) && seen <= offset
      {
        PrefixCountStep(rows[..], i);
        assert rows[..][..i] == rows[..i] && rows[..][..i + 1] == rows[..i + 1];
        if !rows[i].isDrawn {
          if seen == offset {
            SelectAtCharacterized(rows[..], offset, i);
            return Some(i);
          }
          seen := seen + 1;
        }
        i := i + 1;
      }
      assert rows[..rows.Length] == rows[..];
      SelectAtCharacterized(rows[..], offset, 0);
      return None;
    }

    /** UPDATE signs SET is_drawn = true WHERE id = ? AND is_drawn = false,
        returning `affectedRows`. */
    method MarkDrawnWhereUndrawn(id: string) returns (affected: nat)
      requires Valid()
      modifies rows
      ensures Valid()
      ensures rows[..] == MarkIdDrawn(old(rows[..]), id)
      ensures affected == MatchCount(old(rows[..]), id)
    {
      ghost var before := rows[..];
      affected := 0;
      var i := 0;
      while i < rows.Length
        invariant 0 <= i <= rows.Length
        invariant forall j :: 0 <= j < i ==> rows[j] == MarkIdDrawn(before, id)[j]
        invariant forall j :: i <= j < rows.Length ==> rows[j] == before[j]
        invariant affected == MatchCount(before[..i], id)
      {
        MatchCountStep(before, i, id);
        if rows[i].id == id && !rows[i].isDrawn {
          rows[i] := rows[i].(isDrawn := true);
          affected := affected + 1;
        }
        i := i + 1;
      }
      assert before[..rows.Length] == before;
      SameSignsKeepSorted(before, rows[..]);
    }

    /** Other transactions commit their claims on the rows at `claimed`. */
    method Claim(claimed: set<nat>)
      requires Valid()
      modifies rows
      ensures Valid()
      ensures rows[..] == ClaimAll(old(rows[..]), claimed)
    {
      ghost var before := rows[..];
      forall i | 0 <= i < rows.Length && i in claimed {
        rows[i] := rows[i].(isDrawn := true);
      }
      SameSignsKeepSorted(before, rows[..]);
    }

    /** ROLLBACK: the rows return to the snapshot taken when the transaction wrote. */
    method Rollback(snapshot: seq<Row>)
      requires SortedById(snapshot) && |snapshot| == rows.Length
      modifies rows
      ensures Valid()
      ensures rows[..] == snapshot
    {
      forall i | 0 <= i < rows.Length {
        rows[i] := snapshot[i];
      }
    }
  }
}

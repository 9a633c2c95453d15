/**
 * MergeChangesAsync: in the "all update old" change list, every UpdateOld row whose update mask
 * is set is removed, and the old values of its changed columns are copied into the Update row
 * that must follow it immediately, which is then marked merged.
 */
module Merge {
  import opened Wrappers
  import opened CiMaps
  import opened Strings
  import opened Exceptions
  import opened Extensions
  import opened ChangedRows
  import Enums

  /** A row the loop works on: not yet merged, an update half, with a non-zero mask. */
  predicate IsCandidate(r: ChangedRow) {
    !r.changedColumnsMerged && (r.operation == Enums.UpdateOld || r.operation == Enums.Update)
    && !IsNullEmptyOrZero(r.updateMask)
  }

  /** Its changed columns were retrieved: not null and not empty. */
  predicate IsResolved(r: ChangedRow) {
    r.changedColumns.Some? && |r.changedColumns.value| > 0
  }

  /** A candidate that opens a pair. */
  predicate Opens(r: ChangedRow) {
    IsCandidate(r) && r.operation == Enums.UpdateOld
  }

  /**
   * `foreach (var p in previousRow.ChangedColumns)`: each column the Update row also has takes
   * the previous row's OldValue and HasOldValue.
   */
  function CopyOld(prev: CiMap<ChangedColumnValue>, cur: CiMap<ChangedColumnValue>): CiMap<ChangedColumnValue>
    decreases |prev|
  {
    if |prev| == 0 then cur
    else CopyStep(CopyOld(prev[..|prev| - 1], cur), prev[|prev| - 1])
  }

  /** One iteration: if the columns have p's key, that column takes p's OldValue and HasOldValue. */
  function CopyStep(c: CiMap<ChangedColumnValue>, p: Entry<ChangedColumnValue>): CiMap<ChangedColumnValue> {
    match Get(c, p.key)
    case None => c
    case Some(v) => Set(c, p.key, v.(oldValue := p.value.oldValue, hasOldValue := p.value.hasOldValue))
  }

  /** The Update row after the merge. */
  function MergePair(prev: CiMap<ChangedColumnValue>, row: ChangedRow): ChangedRow
    requires row.changedColumns.Some?
  {
    row.(changedColumns := Some(CopyOld(prev, row.changedColumns.value)), changedColumnsMerged := true)
  }

  /** What the loop remembers: nothing, the changed columns of the UpdateOld row just passed, or an UpdateOld row further back. */
  datatype Pending = Idle | Waiting(columns: CiMap<ChangedColumnValue>) | Broken

  function Prepend(row: ChangedRow, r: Result<seq<ChangedRow>, ExceptionType>): Result<seq<ChangedRow>, ExceptionType> {
    match r
    case Success(rows) => Success([row] + rows)
    case Failure(e) => Failure(e)
  }

  function PrependAll(rows: seq<ChangedRow>, r: Result<seq<ChangedRow>, ExceptionType>): Result<seq<ChangedRow>, ExceptionType> {
    match r
    case Success(tail) => Success(rows + tail)
    case Failure(e) => Failure(e)
  }

  /**
   * The loop over the rest of the list, given what it remembers. An unresolved candidate throws
   * CdcRequireRetrieveChangedColumnsException; a candidate after a pending UpdateOld must be an
   * Update right next to it, or CdcWithoutCorrespondingOperationException is thrown, as it is
   * when the list ends with an UpdateOld pending.
   */
  function Go(rest: seq<ChangedRow>, st: Pending): Result<seq<ChangedRow>, ExceptionType>
    decreases |rest|
  {
    if |rest| == 0 then
      if st.Idle? then Success([]) else Failure(CdcWithoutCorrespondingOperationException)
    else
      var row := rest[0];
      if !IsCandidate(row) then Prepend(row, Go(rest[1..], if st.Idle? then Idle else Broken))
      else if !IsResolved(row) then Failure(CdcRequireRetrieveChangedColumnsException)
      else if st.Broken? then Failure(CdcWithoutCorrespondingOperationException)
      else if st.Waiting? then
        if row.operation != Enums.Update then Failure(CdcWithoutCorrespondingOperationException)
        else Prepend(MergePair(st.columns, row), Go(rest[1..], Idle))
      else if row.operation == Enums.UpdateOld then Go(rest[1..], Waiting(row.changedColumns.value))
      else Prepend(row, Go(rest[1..], Idle))
  }

  /** The list MergeChangesAsync leaves, or what it throws. */
  function MergeSpec(rows: seq<ChangedRow>): Result<seq<ChangedRow>, ExceptionType> {
    Go(rows, Idle)
  }

  // ---------------------------------------------------------------- the loop

  /** The inner foreach, copying old values column by column. */
  method CopyOldValues(prev: CiMap<ChangedColumnValue>, cur: CiMap<ChangedColumnValue>) returns (cols: CiMap<ChangedColumnValue>)
    ensures cols == CopyOld(prev, cur)
  {
    cols := cur;
    var k := 0;
    while k < |prev|
      invariant 0 <= k <= |prev|
      invariant cols == CopyOld(prev[..k], cur)
    {
      assert prev[..k + 1][..k] == prev[..k];
      var p := prev[k];
      var c := Get(cols, p.key);
      if c.Some? {
        cols := Set(cols, p.key, c.value.(oldValue := p.value.oldValue, hasOldValue := p.value.hasOldValue));
      }
      k := k + 1;
    }
    assert prev[..k] == prev;
  }

  /** Where MergeChanges stands: i rows passed, rowBeforeUpdate the pending UpdateOld row or -1. */
  ghost predicate Position(rows: seq<ChangedRow>, i: int, rowBeforeUpdate: int) {
    0 <= i <= |rows| && -1 <= rowBeforeUpdate < i
    && (rowBeforeUpdate >= 0 ==> IsResolved(rows[rowBeforeUpdate]))
  }

  /** What the loop remembers, read off rowBeforeUpdate. */
  ghost function State(rows: seq<ChangedRow>, i: int, rowBeforeUpdate: int): Pending
    requires Position(rows, i, rowBeforeUpdate)
  {
    if rowBeforeUpdate < 0 then Idle
    else if rowBeforeUpdate == i - 1 then Waiting(rows[rowBeforeUpdate].changedColumns.value)
    else Broken
  }

  /** The outcome once the loop is at the given position: the rows passed and kept, then the rest. */
  ghost function Outcome(rows: seq<ChangedRow>, i: int, rowBeforeUpdate: int): Result<seq<ChangedRow>, ExceptionType>
    requires Position(rows, i, rowBeforeUpdate)
  {
    var kept := if 0 <= rowBeforeUpdate == i - 1 then rows[..i - 1] else rows[..i];
    PrependAll(kept, Go(rows[i..], State(rows, i, rowBeforeUpdate)))
  }

  lemma PrependNothing(r: Result<seq<ChangedRow>, ExceptionType>)
    ensures PrependAll([], r) == r
  {
    if r.Success? {
      assert [] + r.value == r.value;
    }
  }

  lemma PrependAllSnoc(rows: seq<ChangedRow>, row: ChangedRow, r: Result<seq<ChangedRow>, ExceptionType>)
    ensures PrependAll(rows, Prepend(row, r)) == PrependAll(rows + [row], r)
  {
    if r.Success? {
      assert rows + ([row] + r.value) == (rows + [row]) + r.value;
    }
  }

  /** Once an UpdateOld row was passed without its Update right after it, the merge fails. */
  lemma {:induction false} BrokenFails(rest: seq<ChangedRow>)
    ensures Go(rest, Broken).Failure?
    decreases |rest|
  {
    if |rest| > 0 && !IsCandidate(rest[0]) {
      BrokenFails(rest[1..]);
    }
  }

  lemma StartOutcome(rows: seq<ChangedRow>)
    ensures Position(rows, 0, -1) && Outcome(rows, 0, -1) == MergeSpec(rows)
  {
    assert rows[0..] == rows;
    PrependNothing(MergeSpec(rows));
  }

  /** A row that is not a candidate is kept; it breaks a pending pair. */
  lemma PassOutcome(rows: seq<ChangedRow>, i: int, rowBeforeUpdate: int)
    requires Position(rows, i, rowBeforeUpdate) && i < |rows| && !IsCandidate(rows[i])
    ensures Position(rows, i + 1, rowBeforeUpdate)
    ensures Outcome(rows, i + 1, rowBeforeUpdate) == Outcome(rows, i, rowBeforeUpdate)
  {
    assert rows[i..][1..] == rows[i + 1..];
    if rowBeforeUpdate < 0 {
      PrependAllSnoc(rows[..i], rows[i], Go(rows[i + 1..], Idle));
      assert rows[..i + 1] == rows[..i] + [rows[i]];
    } else {
      BrokenFails(rows[i + 1..]);
    }
  }

  lemma UnresolvedOutcome(rows: seq<ChangedRow>, i: int, rowBeforeUpdate: int)
    requires Position(rows, i, rowBeforeUpdate) && i < |rows| && IsCandidate(rows[i]) && !IsResolved(rows[i])
    ensures Outcome(rows, i, rowBeforeUpdate) == Failure(CdcRequireRetrieveChangedColumnsException)
  {
  }

  lemma UnpairedOutcome(rows: seq<ChangedRow>, i: int, rowBeforeUpdate: int)
    requires Position(rows, i, rowBeforeUpdate) && i < |rows| && IsCandidate(rows[i]) && IsResolved(rows[i])
    requires rowBeforeUpdate >= 0 && (i != rowBeforeUpdate + 1 || rows[i].operation != Enums.Update)
    ensures Outcome(rows, i, rowBeforeUpdate) == Failure(CdcWithoutCorrespondingOperationException)
  {
  }

  /** With nothing pending, an UpdateOld candidate becomes pending and an Update candidate is kept. */
  lemma OpenOrKeepOutcome(rows: seq<ChangedRow>, i: int)
    requires Position(rows, i, -1) && i < |rows| && IsCandidate(rows[i]) && IsResolved(rows[i])
    ensures rows[i].operation == Enums.UpdateOld ==>
      Position(rows, i + 1, i) && Outcome(rows, i + 1, i) == Outcome(rows, i, -1)
    ensures rows[i].operation != Enums.UpdateOld ==>
      Position(rows, i + 1, -1) && Outcome(rows, i + 1, -1) == Outcome(rows, i, -1)
  {
    assert rows[i..][1..] == rows[i + 1..];
    if rows[i].operation != Enums.UpdateOld {
      PrependAllSnoc(rows[..i], rows[i], Go(rows[i + 1..], Idle));
      assert rows[..i + 1] == rows[..i] + [rows[i]];
    }
  }

  /** The merged row replaces the Update row and the UpdateOld row before it is removed. */
  lemma MergedOutcome(rows: seq<ChangedRow>, i: int, merged: ChangedRow, after: seq<ChangedRow>)
    requires Position(rows, i, i - 1) && i < |rows| && i >= 1 && IsCandidate(rows[i]) && IsResolved(rows[i])
    requires rows[i].operation == Enums.Update
    requires merged == MergePair(rows[i - 1].changedColumns.value, rows[i])
    requires after == rows[i := merged][..i - 1] + rows[i := merged][i..]
    ensures Position(after, i, -1) && Outcome(after, i, -1) == Outcome(rows, i, i - 1)
  {
    assert rows[i..][1..] == rows[i + 1..];
    assert after[..i] == rows[..i - 1] + [merged];
    assert after[i..] == rows[i + 1..];
    PrependAllSnoc(rows[..i - 1], merged, Go(rows[i + 1..], Idle));
  }

  lemma EndOutcome(rows: seq<ChangedRow>, rowBeforeUpdate: int)
    requires Position(rows, |rows|, rowBeforeUpdate)
    ensures Outcome(rows, |rows|, rowBeforeUpdate)
      == if rowBeforeUpdate < 0 then Success(rows) else Failure(CdcWithoutCorrespondingOperationException)
  {
    assert rows[|rows|..] == [];
    assert rows[..|rows|] == rows && rows + [] == rows;
  }

  /**
   * MergeChangesAsync over the list, in place: a merge writes the merged row over the Update row,
   * removes the UpdateOld row before it and goes on with the row after.
   */
  method MergeChanges(input: seq<ChangedRow>) returns (r: Result<seq<ChangedRow>, ExceptionType>)
    ensures r == MergeSpec(input)
  {
    if |input| == 0 {
      return Success(input);
    }
    var rows := input;
    var rowBeforeUpdate := -1;
    var i := 0;
    StartOutcome(rows);
    while i < |rows|
      invariant Position(rows, i, rowBeforeUpdate)
      invariant MergeSpec(input) == Outcome(rows, i, rowBeforeUpdate)
      decreases |rows| - i
    {
      var row := rows[i];
      if !IsCandidate(row) {
        PassOutcome(rows, i, rowBeforeUpdate);
        i := i + 1;
        continue;
      }
      if !IsResolved(row) {
        UnresolvedOutcome(rows, i, rowBeforeUpdate);
        return Failure(CdcRequireRetrieveChangedColumnsException);
      }
      if rowBeforeUpdate >= 0 {
        if i != rowBeforeUpdate + 1 || row.operation != Enums.Update {
          UnpairedOutcome(rows, i, rowBeforeUpdate);
          return Failure(CdcWithoutCorrespondingOperationException);
        }
        var previousRow := rows[rowBeforeUpdate];
        var cols := CopyOldValues(previousRow.changedColumns.value, row.changedColumns.value);
        var merged := row.(changedColumns := Some(cols), changedColumnsMerged := true);
        ghost var before := rows;
        rows := rows[i := merged];
        rows := rows[..rowBeforeUpdate] + rows[rowBeforeUpdate + 1..];
        MergedOutcome(before, i, merged, rows);
        rowBeforeUpdate := -1;
        continue;
      }
      OpenOrKeepOutcome(rows, i);
      if row.operation == Enums.UpdateOld {
        rowBeforeUpdate := i;
      }
      i := i + 1;
    }
    EndOutcome(rows, rowBeforeUpdate);
    if rowBeforeUpdate >= 0 {
      return Failure(CdcWithoutCorrespondingOperationException);
    }
    r := Success(rows);
  }

  // ---------------------------------------------------------------- what the merge means

  /** A candidate that closes a pair. */
  predicate Closes(r: ChangedRow) {
    IsCandidate(r) && r.operation == Enums.Update
  }

  /**
   * The input the merge accepts: every candidate has its changed columns, and every UpdateOld
   * candidate is followed immediately by an Update candidate.
   */
  ghost predicate WellPaired(rows: seq<ChangedRow>) {
    (forall i :: 0 <= i < |rows| && IsCandidate(rows[i]) ==> IsResolved(rows[i]))
    && (forall i :: 0 <= i < |rows| && Opens(rows[i]) ==> i + 1 < |rows| && Closes(rows[i + 1]))
  }

  /** The first row of a list satisfies what WellPaired asks of it. */
  ghost predicate HeadPaired(rows: seq<ChangedRow>)
    requires |rows| > 0
  {
    (IsCandidate(rows[0]) ==> IsResolved(rows[0]))
    && (Opens(rows[0]) ==> |rows| > 1 && Closes(rows[1]))
  }

  lemma WellPairedCons(rows: seq<ChangedRow>)
    requires |rows| > 0
    ensures WellPaired(rows) <==> HeadPaired(rows) && WellPaired(rows[1..])
  {
    assert forall i :: 1 <= i < |rows| ==> rows[i] == rows[1..][i - 1];
    if HeadPaired(rows) && WellPaired(rows[1..]) {
      forall i | 0 <= i < |rows| && Opens(rows[i]) ensures i + 1 < |rows| && Closes(rows[i + 1]) {
        if i > 0 {
          assert Opens(rows[1..][i - 1]);
        }
      }
    }
  }

  /** The loop succeeds from Idle exactly on well-paired input, and while waiting exactly when an Update comes next. */
  lemma {:induction false} GoSuccess(rest: seq<ChangedRow>, st: Pending)
    ensures st.Idle? ==> (Go(rest, st).Success? <==> WellPaired(rest))
    ensures st.Waiting? ==>
      (Go(rest, st).Success? <==> |rest| > 0 && Closes(rest[0]) && IsResolved(rest[0]) && WellPaired(rest[1..]))
    decreases |rest|
  {
    if |rest| > 0 {
      var row := rest[0];
      WellPairedCons(rest);
      BrokenFails(rest[1..]);
      GoSuccess(rest[1..], Idle);
      if IsResolved(row) {
        GoSuccess(rest[1..], Waiting(row.changedColumns.value));
      }
      if |rest| > 1 {
        WellPairedCons(rest[1..]);
        assert rest[1..][1..] == rest[2..];
      }
    }
  }

  /** MergeChangesAsync completes exactly on well-paired input. */
  lemma MergeSucceedsIff(rows: seq<ChangedRow>)
    ensures MergeSpec(rows).Success? <==> WellPaired(rows)
  {
    GoSuccess(rows, Idle);
  }

  /** An UpdateOld candidate at the end of the list has nothing to pair with, so the merge throws. */
  lemma TrailingUpdateOldFails(rows: seq<ChangedRow>)
    requires |rows| > 0 && Opens(rows[|rows| - 1])
    ensures MergeSpec(rows).Failure?
  {
    MergeSucceedsIff(rows);
  }

  /**
   * The merge throws only the two change-data-capture exceptions, and asks for a retrieval only
   * when some candidate lacks its changed columns.
   */
  lemma {:induction false} GoErrors(rest: seq<ChangedRow>, st: Pending)
    ensures Go(rest, st).Failure? ==>
      Go(rest, st).error == CdcWithoutCorrespondingOperationException
      || (Go(rest, st).error == CdcRequireRetrieveChangedColumnsException
          && exists i :: 0 <= i < |rest| && IsCandidate(rest[i]) && !IsResolved(rest[i]))
    decreases |rest|
  {
    if |rest| > 0 {
      var row := rest[0];
      var next := if !IsCandidate(row) then (if st.Idle? then Idle else Broken)
        else if st.Waiting? || !IsResolved(row) then Idle
        else if row.operation == Enums.UpdateOld then Waiting(row.changedColumns.value) else Idle;
      GoErrors(rest[1..], next);
      if Go(rest[1..], next).Failure? && Go(rest[1..], next).error == CdcRequireRetrieveChangedColumnsException {
        var j :| 0 <= j < |rest[1..]| && IsCandidate(rest[1..][j]) && !IsResolved(rest[1..][j]);
        assert rest[j + 1] == rest[1..][j];
      }
    }
  }

  /** The merge's errors, from the start of the list. */
  lemma MergeErrors(rows: seq<ChangedRow>)
    ensures MergeSpec(rows).Failure? ==>
      MergeSpec(rows).error == CdcWithoutCorrespondingOperationException
      || (MergeSpec(rows).error == CdcRequireRetrieveChangedColumnsException
          && exists i :: 0 <= i < |rows| && IsCandidate(rows[i]) && !IsResolved(rows[i]))
  {
    GoErrors(rows, Idle);
  }

  /**
   * The intended result, written independently of the loop: each UpdateOld row and the Update
   * row after it become one merged row; every other row stays as it is, in order.
   */
  function Paired(rows: seq<ChangedRow>): seq<ChangedRow>
    decreases |rows|
  {
    if |rows| == 0 then []
    else if Opens(rows[0]) && rows[0].changedColumns.Some? && |rows| > 1 && rows[1].changedColumns.Some? then
      [MergePair(rows[0].changedColumns.value, rows[1])] + Paired(rows[2..])
    else [rows[0]] + Paired(rows[1..])
  }

  lemma {:induction false} GoPaired(rest: seq<ChangedRow>)
    requires WellPaired(rest)
    ensures Go(rest, Idle) == Success(Paired(rest))
    decreases |rest|
  {
    if |rest| > 0 {
      WellPairedCons(rest);
      if Opens(rest[0]) {
        WellPairedCons(rest[1..]);
        assert rest[1..][1..] == rest[2..];
        GoPaired(rest[2..]);
      } else {
        GoPaired(rest[1..]);
      }
    }
  }

  /** On the input it accepts, the merge yields exactly the pairing. */
  lemma MergeIsPairing(rows: seq<ChangedRow>)
    requires WellPaired(rows)
    ensures MergeSpec(rows) == Success(Paired(rows))
  {
    GoPaired(rows);
  }

  /** The number of rows that open a pair. */
  function Openings(rows: seq<ChangedRow>): (n: nat)
    ensures n <= |rows|
    decreases |rows|
  {
    if |rows| == 0 then 0 else (if Opens(rows[0]) then 1 else 0) + Openings(rows[1..])
  }

  /** One row disappears per pair. */
  lemma {:induction false} PairedLength(rows: seq<ChangedRow>)
    requires WellPaired(rows)
    ensures |Paired(rows)| == |rows| - Openings(rows)
    decreases |rows|
  {
    if |rows| > 0 {
      WellPairedCons(rows);
      if Opens(rows[0]) {
        WellPairedCons(rows[1..]);
        assert rows[1..][1..] == rows[2..];
        PairedLength(rows[2..]);
      } else {
        PairedLength(rows[1..]);
      }
    }
  }

  /** A list with nothing left to merge: no UpdateOld candidate, every candidate resolved. */
  ghost predicate Settled(rows: seq<ChangedRow>) {
    forall i :: 0 <= i < |rows| ==> !Opens(rows[i]) && (IsCandidate(rows[i]) ==> IsResolved(rows[i]))
  }

  lemma {:induction false} PairedSettled(rows: seq<ChangedRow>)
    requires WellPaired(rows)
    ensures Settled(Paired(rows))
    decreases |rows|
  {
    if |rows| > 0 {
      WellPairedCons(rows);
      if Opens(rows[0]) {
        WellPairedCons(rows[1..]);
        assert rows[1..][1..] == rows[2..];
        PairedSettled(rows[2..]);
      } else {
        PairedSettled(rows[1..]);
      }
    }
  }

  lemma {:induction false} SettledUnchanged(rows: seq<ChangedRow>)
    requires Settled(rows)
    ensures Go(rows, Idle) == Success(rows)
    decreases |rows|
  {
    if |rows| > 0 {
      assert Settled(rows[1..]) by {
        forall i | 0 <= i < |rows[1..]| ensures rows[1..][i] == rows[i + 1] { }
      }
      SettledUnchanged(rows[1..]);
      assert [rows[0]] + rows[1..] == rows;
    }
  }

  /** Merging a merged list changes nothing: the result is a fixed point of the merge. */
  lemma MergeIdempotent(rows: seq<ChangedRow>)
    requires MergeSpec(rows).Success?
    ensures MergeSpec(MergeSpec(rows).value) == MergeSpec(rows)
    ensures |MergeSpec(rows).value| == |rows| - Openings(rows)
  {
    MergeSucceedsIff(rows);
    MergeIsPairing(rows);
    PairedSettled(rows);
    PairedLength(rows);
    SettledUnchanged(Paired(rows));
  }

  // ---------------------------------------------------------------- copying old values

  /** A changed column of the Update row, after the UpdateOld row's column of the same name (if any) was copied in. */
  function CopyOne(cur: Option<ChangedColumnValue>, prev: Option<ChangedColumnValue>): Option<ChangedColumnValue> {
    match cur
    case None => None
    case Some(v) =>
      match prev
      case None => Some(v)
      case Some(p) => Some(v.(oldValue := p.oldValue, hasOldValue := p.hasOldValue))
  }

  /** The merged columns are those of the Update row, in its order. */
  lemma {:induction false} CopyOldKeys(prev: CiMap<ChangedColumnValue>, cur: CiMap<ChangedColumnValue>)
    ensures Keys(CopyOld(prev, cur)) == Keys(cur)
    decreases |prev|
  {
    if |prev| > 0 {
      CopyOldKeys(prev[..|prev| - 1], cur);
    }
  }

  /** One iteration changes only the column named by p's key, and that one as CopyOne says. */
  lemma CopyStepGet(c: CiMap<ChangedColumnValue>, p: Entry<ChangedColumnValue>, k: string)
    ensures Get(CopyStep(c, p), k) == if EqualsIgnoreCase(p.key, k) then CopyOne(Get(c, k), Some(p.value)) else Get(c, k)
  {
    if EqualsIgnoreCase(p.key, k) {
      IndexOfIgnoresCase(c, p.key, k);
    }
  }

  /** Each merged column takes its new value from the Update row and its old value from the UpdateOld row. */
  lemma {:induction false} CopyOldGet(prev: CiMap<ChangedColumnValue>, cur: CiMap<ChangedColumnValue>, k: string)
    requires UniqueKeys(prev)
    ensures Get(CopyOld(prev, cur), k) == CopyOne(Get(cur, k), Get(prev, k))
    decreases |prev|
  {
    if |prev| > 0 {
      var n := |prev| - 1;
      var pp := prev[..n];
      var e := prev[n];
      assert pp + [e] == prev;
      GetSnoc(pp, e, k);
      UniqueKeysSnoc(prev);
      CopyOldGet(pp, cur, k);
      CopyStepGet(CopyOld(pp, cur), e, k);
      if EqualsIgnoreCase(e.key, k) {
        assert forall i :: 0 <= i < n ==> pp[i] == prev[i];
        assert IndexOf(pp, e.key).None?;
        IndexOfIgnoresCase(pp, e.key, k);
      }
    }
  }

  /** The merged row: the Update row, marked merged, with the old values copied into its changed columns. */
  lemma MergePairMeaning(prev: CiMap<ChangedColumnValue>, row: ChangedRow, k: string)
    requires row.changedColumns.Some? && UniqueKeys(prev)
    ensures var m := MergePair(prev, row);
      m == row.(changedColumns := m.changedColumns, changedColumnsMerged := true)
      && m.changedColumns.Some?
      && Keys(m.changedColumns.value) == Keys(row.changedColumns.value)
      && Get(m.changedColumns.value, k) == CopyOne(Get(row.changedColumns.value, k), Get(prev, k))
  {
    CopyOldKeys(prev, row.changedColumns.value);
    CopyOldGet(prev, row.changedColumns.value, k);
  }
}

/**
 * `get_final_string`: put the newly scraped rows in front of the rows already
 * stored, admitting only the new rows whose timestamp column is strictly later
 * (as a string) than the newest stored row's, and stopping at the first that
 * is not.
 */
module Merge {
  import opened Wrappers
  import opened Text
  import opened FilingRow

  /** `row.split('|')[2]` raised IndexError on this row. */
  datatype MergeError = MissingTimestamp(row: string)

  /** `row.split('|')[2] > cutoff`, for a row that has that column. */
  predicate NewerThan(row: string, cutoff: string) {
    TimestampField(row).Some? && Less(cutoff, TimestampField(row).value)
  }

  /** The row has a timestamp column and it is not later than `cutoff`: the loop breaks here. */
  predicate EndsScan(row: string, cutoff: string) {
    TimestampField(row).Some? && !Less(cutoff, TimestampField(row).value)
  }

  /**
   * The scan of `rows` from index `i`: Ok(n) when it breaks at `n` (or runs
   * off the end, `n == |rows|`), Err(k) when `rows[k]` has no timestamp column.
   */
  function ScanFrom(rows: seq<string>, cutoff: string, i: nat): (r: Result<nat, nat>)
    requires i <= |rows|
    ensures r.Ok? ==> i <= r.value <= |rows|
    ensures r.Ok? ==> forall k :: i <= k < r.value ==> NewerThan(rows[k], cutoff)
    ensures r.Ok? && r.value < |rows| ==> EndsScan(rows[r.value], cutoff)
    ensures r.Err? ==> i <= r.error < |rows| && TimestampField(rows[r.error]).None?
    ensures r.Err? ==> forall k :: i <= k < r.error ==> NewerThan(rows[k], cutoff)
    decreases |rows| - i
  {
    if i == |rows| then Ok(i)
    else match TimestampField(rows[i])
      case None => Err(i)
      case Some(t) => if Less(cutoff, t) then ScanFrom(rows, cutoff, i + 1) else Ok(i)
  }

  /**
   * The list `get_final_string` joins. With no stored rows (None or an empty
   * list, both falsy) it is the new rows unchanged.
   */
  function Merged(newRows: seq<string>, oldRows: Option<seq<string>>): Result<seq<string>, MergeError>
  {
    if oldRows.None? || oldRows.value == [] then Ok(newRows)
    else match TimestampField(oldRows.value[0])
      case None => Err(MissingTimestamp(oldRows.value[0]))
      case Some(cutoff) =>
        match ScanFrom(newRows, cutoff, 0)
        case Ok(n) => Ok(newRows[..n] + oldRows.value)
        case Err(k) => Err(MissingTimestamp(newRows[k]))
  }

  /** `get_final_string(new_entries, old_entries)`, with IndexError as an error result. */
  method GetFinalString(newRows: seq<string>, oldRows: Option<seq<string>>)
    returns (result: Result<string, MergeError>)
    ensures result.Ok? <==> Merged(newRows, oldRows).Ok?
    ensures result.Ok? ==> result.value == Join(Merged(newRows, oldRows).value, "\n")
    ensures result.Err? ==> result.error == Merged(newRows, oldRows).error
  {
    var finalList: seq<string> := [];
    if oldRows.Some? && oldRows.value != [] {
      var stored := oldRows.value;
      var cutoffField := TimestampField(stored[0]);
      if cutoffField.None? {
        return Err(MissingTimestamp(stored[0]));
      }
      var cutoff := cutoffField.value;
      var i := 0;
      while i < |newRows|
        invariant i <= |newRows|
        invariant finalList == newRows[..i]
        invariant ScanFrom(newRows, cutoff, i) == ScanFrom(newRows, cutoff, 0)
      {
        var entry := newRows[i];
        var field := TimestampField(entry);
        if field.None? {
          return Err(MissingTimestamp(entry));
        }
        if Less(cutoff, field.value) {
          finalList := finalList + [entry];
        } else {
          assert ScanFrom(newRows, cutoff, i) == Ok(i);
          break;
        }
        i := i + 1;
      }
      assert ScanFrom(newRows, cutoff, 0) == Ok(i);
      finalList := finalList + stored;
    } else {
      finalList := finalList + newRows;
      assert finalList == newRows;
    }
    assert Merged(newRows, oldRows) == Ok(finalList);
    result := Ok(Join(finalList, "\n"));
  }

  /**
   * With stored rows, the result is a prefix of the new rows followed by every
   * stored row in order. The prefix is the longest whose rows are all strictly
   * newer than the newest stored row: the first row that is not ends it, so
   * no later new row gets in, however new.
   */
  lemma MergeKeepsOldRowsAfterNewerPrefix(newRows: seq<string>, oldRows: seq<string>, merged: seq<string>)
    requires oldRows != []
    requires Merged(newRows, Some(oldRows)) == Ok(merged)
    ensures TimestampField(oldRows[0]).Some?
    ensures |oldRows| <= |merged| <= |newRows| + |oldRows|
    ensures merged == newRows[..|merged| - |oldRows|] + oldRows
    ensures forall k :: 0 <= k < |merged| - |oldRows| ==>
              NewerThan(newRows[k], TimestampField(oldRows[0]).value)
    ensures forall k :: 0 <= k < |newRows| && !NewerThan(newRows[k], TimestampField(oldRows[0]).value) ==>
              |merged| - |oldRows| <= k
    ensures |merged| - |oldRows| < |newRows| ==>
              EndsScan(newRows[|merged| - |oldRows|], TimestampField(oldRows[0]).value)
  {
    var n := ScanFrom(newRows, TimestampField(oldRows[0]).value, 0).value;
    assert merged == newRows[..n] + oldRows;
    assert |merged| - |oldRows| == n;
  }

  /** With no stored rows the merge returns the new rows unchanged. */
  lemma MergeWithoutOldRows(newRows: seq<string>, oldRows: Option<seq<string>>)
    requires oldRows.None? || oldRows.value == []
    ensures Merged(newRows, oldRows) == Ok(newRows)
  {
  }

  /**
   * The merge fails only where the script raises IndexError: on the newest
   * stored row, or on a new row the scan reaches, and only for a row without
   * a timestamp column.
   */
  lemma MergeFailsOnlyOnMissingColumn(newRows: seq<string>, oldRows: seq<string>)
    requires oldRows != []
    requires Merged(newRows, Some(oldRows)).Err?
    ensures TimestampField(Merged(newRows, Some(oldRows)).error.row).None?
    ensures Merged(newRows, Some(oldRows)).error.row == oldRows[0]
         || exists k :: 0 <= k < |newRows| && newRows[k] == Merged(newRows, Some(oldRows)).error.row
  {
    if TimestampField(oldRows[0]).Some? {
      var k := ScanFrom(newRows, TimestampField(oldRows[0]).value, 0).error;
      assert newRows[k] == Merged(newRows, Some(oldRows)).error.row;
    }
  }

  /** Every row has a timestamp column and none is later than the row before it. */
  predicate NewestFirst(rows: seq<string>) {
    && (forall k :: 0 <= k < |rows| ==> TimestampField(rows[k]).Some?)
    && (forall k :: 0 < k < |rows| ==>
          !Less(TimestampField(rows[k - 1]).value, TimestampField(rows[k]).value))
  }

  /** Rows that all carry a timestamp column never make the merge fail. */
  lemma MergeSucceedsOnRowsWithTimestamps(newRows: seq<string>, oldRows: seq<string>)
    requires forall k :: 0 <= k < |newRows| ==> TimestampField(newRows[k]).Some?
    requires oldRows != [] ==> TimestampField(oldRows[0]).Some?
    ensures Merged(newRows, Some(oldRows)).Ok?
  {
  }

  /** Merging two newest-first lists gives a newest-first list. */
  lemma MergeKeepsNewestFirst(newRows: seq<string>, oldRows: seq<string>)
    requires NewestFirst(newRows) && NewestFirst(oldRows)
    ensures Merged(newRows, Some(oldRows)).Ok?
    ensures NewestFirst(Merged(newRows, Some(oldRows)).value)
  {
    if oldRows != [] {
      var cutoff := TimestampField(oldRows[0]).value;
      var n := ScanFrom(newRows, cutoff, 0).value;
      var merged := newRows[..n] + oldRows;
      assert Merged(newRows, Some(oldRows)) == Ok(merged);
      forall k | 0 < k < |merged|
        ensures !Less(TimestampField(merged[k - 1]).value, TimestampField(merged[k]).value)
      {
        if k == n {
          assert NewerThan(newRows[n - 1], cutoff);
          LessAsymmetric(cutoff, TimestampField(newRows[n - 1]).value);
        } else if k < n {
          assert merged[k - 1] == newRows[k - 1] && merged[k] == newRows[k];
        } else {
          assert merged[k - 1] == oldRows[k - 1 - n] && merged[k] == oldRows[k - n];
        }
      }
      assert forall k :: 0 <= k < |merged| ==> TimestampField(merged[k]).Some?;
    }
  }

  /**
   * Merging the same new rows into the result of a merge adds nothing: the
   * first row of that result is never strictly later than itself.
   */
  lemma MergeIdempotent(newRows: seq<string>, oldRows: Option<seq<string>>, merged: seq<string>)
    requires Merged(newRows, oldRows) == Ok(merged)
    requires newRows != [] ==> TimestampField(newRows[0]).Some?
    ensures Merged(newRows, Some(merged)) == Ok(merged)
  {
    if merged != [] {
      var cutoff := TimestampField(merged[0]);
      if oldRows.Some? && oldRows.value != [] {
        var n := ScanFrom(newRows, TimestampField(oldRows.value[0]).value, 0).value;
        if n > 0 {
          assert merged[0] == newRows[0];
          LessIrreflexive(cutoff.value);
        } else {
          assert merged == oldRows.value;
        }
      } else {
        assert merged == newRows;
        LessIrreflexive(cutoff.value);
      }
      assert ScanFrom(newRows, cutoff.value, 0) == Ok(0);
      assert newRows[..0] + merged == merged;
    }
  }

  /**
   * A new row strictly later than the newest stored row is admitted, and a
   * following new row at exactly the stored time ends the scan: whatever
   * comes after it is dropped.
   */
  lemma MergeStopsAtEqualTimestamp(stored: string, newer: string, same: string, older: string,
                                   cutoff: string, later: string)
    requires TimestampField(stored) == Some(cutoff)
    requires TimestampField(newer) == Some(later) && Less(cutoff, later)
    requires TimestampField(same) == Some(cutoff)
    ensures Merged([newer, same, older], Some([stored])) == Ok([newer, stored])
  {
    LessIrreflexive(cutoff);
    var rows := [newer, same, older];
    assert ScanFrom(rows, cutoff, 1) == Ok(1);
    assert rows[..1] + [stored] == [newer, stored];
  }

  /**
   * The newest stored row is at 2024-01-02 10:00:00 and the new rows are at
   * 2024-01-03 09:00:00, 2024-01-02 10:00:00 and anything else: only the
   * first new row is admitted; the second, not strictly later, ends the scan,
   * and the third is never looked at.
   */
  lemma MergeBoundaryExample(c0: string, c1: string, c2: string, l0: string, l1: string, l2: string,
                             stored: string, newer: string, same: string, older: string)
    requires '|' !in c0 && '|' !in c1 && '|' !in c2
    requires '|' !in l0 && '|' !in l1 && '|' !in l2
    requires stored == TableRow(c0, "2024-01-02 10:00:00", l0)
    requires newer == TableRow(c1, "2024-01-03 09:00:00", l1)
    requires same == TableRow(c2, "2024-01-02 10:00:00", l2)
    ensures Merged([newer, same, older], Some([stored])) == Ok([newer, stored])
  {
    var t0, t1 := "2024-01-02 10:00:00", "2024-01-03 09:00:00";
    TableRowTimestamp(c0, t0, l0);
    TableRowTimestamp(c1, t1, l1);
    TableRowTimestamp(c2, t0, l2);
    ExampleStampsOrdered();
    MergeStopsAtEqualTimestamp(stored, newer, same, older, t0, t1);
  }

  /** The two example timestamps first differ in the day's last digit. */
  lemma ExampleStampsOrdered()
    ensures Less("2024-01-02 10:00:00", "2024-01-03 09:00:00")
  {
    var t0, t1 := "2024-01-02 10:00:00", "2024-01-03 09:00:00";
    assert t0[..9] == t1[..9];
    LessSplit(t0, t1, 9);
  }
}

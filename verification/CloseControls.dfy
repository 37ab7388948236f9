/**
 * The closed-through watermark (src/domain/close_controls.rs) and the handlers
 * that move it (src/handlers/closing.rs).
 */
module CloseControls {
  import opened Prelude
  import opened LedgerTables

  datatype CloseError = AlreadyClosed(through: int) | DuplicateYear

  function Year(date: int): int {
    date / 10000
  }

  function Dec31(year: int): int {
    10000 * year + 1231
  }

  predicate IsDate(date: int) {
    101 <= date % 10000 <= 1231
  }

  function MaxOf(a: Option<int>, b: Option<int>): Option<int> {
    if a == None then b else if b == None then a else if a.value >= b.value then a else b
  }

  function MaxThrough(rows: seq<ClosedRow>, ledger: nat): Option<int> {
    if rows == [] then None
    else MaxOf(if rows[0].ledger == ledger then rows[0].through else None, MaxThrough(rows[1..], ledger))
  }

  function MaxYear(rows: seq<ClosedRow>, ledger: nat): Option<int> {
    if rows == [] then None
    else MaxOf(if rows[0].ledger == ledger then Some(rows[0].year) else None, MaxYear(rows[1..], ledger))
  }

  /** `closed_through_in_tx`: a date-level close wins; otherwise the last legacy year, as its Dec 31. */
  function Watermark(rows: seq<ClosedRow>, ledger: nat): Option<int> {
    var through, year := MaxThrough(rows, ledger), MaxYear(rows, ledger);
    if through.Some? then through
    else if year.Some? then Some(Dec31(year.value))
    else None
  }

  predicate IsClosed(watermark: Option<int>, date: int) {
    watermark.Some? && date <= watermark.value
  }

  predicate HasYear(rows: seq<ClosedRow>, ledger: nat, year: int) {
    exists i :: 0 <= i < |rows| && rows[i].ledger == ledger && rows[i].year == year
  }

  /** `close_period`: refused at or below the watermark, and by the table's UNIQUE (ledger, year). */
  function ClosePeriod(rows: seq<ClosedRow>, ledger: nat, through: int): (seq<ClosedRow>, Result<(), CloseError>) {
    var w := Watermark(rows, ledger);
    if IsClosed(w, through) then (rows, Err(AlreadyClosed(w.value)))
    else if HasYear(rows, ledger, Year(through)) then (rows, Err(DuplicateYear))
    else (rows + [ClosedRow(ledger, Year(through), Some(through))], Ok(()))
  }

  predicate Reopened(row: ClosedRow, ledger: nat, from: Option<int>) {
    && row.ledger == ledger
    && (from.Some? ==>
          if row.through.Some? then row.through.value >= from.value else row.year >= Year(from.value))
  }

  /** `reopen_period`: drops the closes at or after the date, or all of them without a date. */
  function Reopen(rows: seq<ClosedRow>, ledger: nat, from: Option<int>): seq<ClosedRow> {
    if rows == [] then []
    else (if Reopened(rows[0], ledger, from) then [] else [rows[0]]) + Reopen(rows[1..], ledger, from)
  }

  lemma {:induction false} MaxOfAppend(rows: seq<ClosedRow>, row: ClosedRow, ledger: nat)
    ensures MaxThrough(rows + [row], ledger)
         == MaxOf(MaxThrough(rows, ledger), if row.ledger == ledger then row.through else None)
    ensures MaxYear(rows + [row], ledger)
         == MaxOf(MaxYear(rows, ledger), if row.ledger == ledger then Some(row.year) else None)
  {
    if rows == [] {
      assert rows + [row] == [row] && [row][1..] == [];
    } else {
      assert (rows + [row])[1..] == rows[1..] + [row];
      MaxOfAppend(rows[1..], row, ledger);
    }
  }

  /** A successful close moves the watermark to the given date, strictly up, and leaves other ledgers alone. */
  lemma CloseRaisesWatermark(rows: seq<ClosedRow>, ledger: nat, through: int, other: nat)
    ensures var (rows', r) := ClosePeriod(rows, ledger, through);
            && (r.Ok? ==> Watermark(rows', ledger) == Some(through) && !IsClosed(Watermark(rows, ledger), through))
            && (r.Err? ==> rows' == rows)
            && (other != ledger ==> Watermark(rows', other) == Watermark(rows, other))
  {
    MaxOfAppend(rows, ClosedRow(ledger, Year(through), Some(through)), ledger);
    MaxOfAppend(rows, ClosedRow(ledger, Year(through), Some(through)), other);
  }

  lemma HasYearAppend(rows: seq<ClosedRow>, row: ClosedRow, ledger: nat, year: int)
    ensures HasYear(rows + [row], ledger, year)
            <==> HasYear(rows, ledger, year) || (row.ledger == ledger && row.year == year)
  {
    var rows' := rows + [row];
    assert rows'[|rows|] == row;
    if HasYear(rows, ledger, year) {
      var i :| 0 <= i < |rows| && rows[i].ledger == ledger && rows[i].year == year;
      assert rows'[i] == rows[i];
    }
  }

  /**
   * Closing again after a close: the later date must lie in another calendar year, and no
   * row may have that year, because the table allows one row per ledger and year.
   */
  lemma CloseAgainExactly(rows: seq<ClosedRow>, ledger: nat, first: int, second: int)
    requires ClosePeriod(rows, ledger, first).1.Ok?
    ensures ClosePeriod(ClosePeriod(rows, ledger, first).0, ledger, second).1.Ok?
            <==> second > first && Year(second) != Year(first) && !HasYear(rows, ledger, Year(second))
  {
    var rows' := ClosePeriod(rows, ledger, first).0;
    CloseRaisesWatermark(rows, ledger, first, ledger);
    HasYearAppend(rows, rows'[|rows|], ledger, Year(second));
  }

  /* ---------- which dates stay closed ---------- */

  predicate DatedRow(r: ClosedRow, ledger: nat) {
    r.ledger == ledger && r.through.Some?
  }

  predicate LegacyRow(r: ClosedRow, ledger: nat) {
    r.ledger == ledger && r.through.None?
  }

  lemma {:induction false} MaximaBound(rows: seq<ClosedRow>, ledger: nat, r: ClosedRow)
    requires r in rows && r.ledger == ledger
    ensures r.through.Some? ==> MaxThrough(rows, ledger).Some? && r.through.value <= MaxThrough(rows, ledger).value
    ensures MaxYear(rows, ledger).Some? && r.year <= MaxYear(rows, ledger).value
  {
    if r != rows[0] { MaximaBound(rows[1..], ledger, r); }
  }

  lemma {:induction false} LatestRow(rows: seq<ClosedRow>, ledger: nat) returns (r: ClosedRow)
    requires MaxThrough(rows, ledger).Some?
    ensures r in rows && DatedRow(r, ledger) && r.through == MaxThrough(rows, ledger)
  {
    if DatedRow(rows[0], ledger) && rows[0].through == MaxThrough(rows, ledger) {
      r := rows[0];
    } else {
      r := LatestRow(rows[1..], ledger);
    }
  }

  lemma {:induction false} LatestYear(rows: seq<ClosedRow>, ledger: nat) returns (r: ClosedRow)
    requires MaxYear(rows, ledger).Some?
    ensures r in rows && r.ledger == ledger && Some(r.year) == MaxYear(rows, ledger)
  {
    if rows[0].ledger == ledger && Some(rows[0].year) == MaxYear(rows, ledger) {
      r := rows[0];
    } else {
      r := LatestYear(rows[1..], ledger);
    }
  }

  lemma {:induction false} ReopenKeeps(rows: seq<ClosedRow>, ledger: nat, from: Option<int>, r: ClosedRow)
    ensures r in Reopen(rows, ledger, from) <==> r in rows && !Reopened(r, ledger, from)
  {
    if rows != [] {
      ReopenKeeps(rows[1..], ledger, from, r);
      assert rows == [rows[0]] + rows[1..];
    }
  }

  /** A dated close before the reopening date covers x, or there is none and a legacy year before it does. */
  ghost predicate StaysClosed(rows: seq<ClosedRow>, ledger: nat, from: Option<int>, x: int) {
    && from.Some?
    && (|| (exists r :: r in rows && DatedRow(r, ledger) && x <= r.through.value < from.value)
        || (&& (forall r :: r in rows && DatedRow(r, ledger) ==> r.through.value >= from.value)
            && exists r :: r in rows && LegacyRow(r, ledger) && r.year < Year(from.value) && x <= Dec31(r.year)))
  }

  /**
   * How far a reopening takes the watermark down: x is closed afterwards exactly when a
   * close strictly before the reopening date covers it. Dates between the last such close
   * and the reopening date are opened with it.
   */
  lemma ReopenExactly(rows: seq<ClosedRow>, ledger: nat, from: Option<int>, x: int)
    ensures IsClosed(Watermark(Reopen(rows, ledger, from), ledger), x) <==> StaysClosed(rows, ledger, from, x)
  {
    var kept := Reopen(rows, ledger, from);
    forall r ensures r in kept <==> r in rows && !Reopened(r, ledger, from) {
      ReopenKeeps(rows, ledger, from, r);
    }
    if MaxThrough(kept, ledger).Some? {
      var last := LatestRow(kept, ledger);
      forall r | r in kept && DatedRow(r, ledger) ensures r.through.value <= last.through.value {
        MaximaBound(kept, ledger, r);
      }
    } else {
      forall r | r in rows && DatedRow(r, ledger) ensures r !in kept {
        if r in kept { MaximaBound(kept, ledger, r); }
      }
      if MaxYear(kept, ledger).Some? {
        var last := LatestYear(kept, ledger);
        assert LegacyRow(last, ledger);
      }
      forall r | r in kept && LegacyRow(r, ledger)
        ensures MaxYear(kept, ledger).Some? && r.year <= MaxYear(kept, ledger).value
      {
        MaximaBound(kept, ledger, r);
      }
    }
  }

  lemma {:induction false} ReopenMaxima(rows: seq<ClosedRow>, ledger: nat, d: int)
    ensures MaxThrough(rows, ledger).Some? && MaxThrough(rows, ledger).value < d ==>
              MaxThrough(Reopen(rows, ledger, Some(d)), ledger) == MaxThrough(rows, ledger)
    ensures MaxThrough(rows, ledger) == None ==>
              && MaxThrough(Reopen(rows, ledger, Some(d)), ledger) == None
              && (MaxYear(rows, ledger).Some? && MaxYear(rows, ledger).value < Year(d) ==>
                    MaxYear(Reopen(rows, ledger, Some(d)), ledger) == MaxYear(rows, ledger))
              && (MaxYear(rows, ledger) == None ==> MaxYear(Reopen(rows, ledger, Some(d)), ledger) == None)
  {
    if rows != [] {
      ReopenMaxima(rows[1..], ledger, d);
      var s := Reopen(rows, ledger, Some(d));
      if !Reopened(rows[0], ledger, Some(d)) {
        assert s[1..] == Reopen(rows[1..], ledger, Some(d));
      } else {
        assert s == Reopen(rows[1..], ledger, Some(d));
      }
    }
  }

  /**
   * Reopening from a date leaves no watermark at or after it, over legacy rows too,
   * and does not move a watermark that was already earlier.
   */
  lemma ReopenLowersWatermark(rows: seq<ClosedRow>, ledger: nat, d: int)
    requires IsDate(d)
    ensures !IsClosed(Watermark(Reopen(rows, ledger, Some(d)), ledger), d)
    ensures !IsClosed(Watermark(rows, ledger), d) ==>
              Watermark(Reopen(rows, ledger, Some(d)), ledger) == Watermark(rows, ledger)
  {
    ReopenExactly(rows, ledger, Some(d), d);
    if !IsClosed(Watermark(rows, ledger), d) {
      ReopenMaxima(rows, ledger, d);
    }
  }

  lemma {:induction false} ReopenLeavesOthers(rows: seq<ClosedRow>, ledger: nat, from: Option<int>, other: nat)
    requires other != ledger
    ensures Watermark(Reopen(rows, ledger, from), other) == Watermark(rows, other)
    ensures MaxThrough(Reopen(rows, ledger, from), other) == MaxThrough(rows, other)
    ensures MaxYear(Reopen(rows, ledger, from), other) == MaxYear(rows, other)
  {
    if rows != [] {
      ReopenLeavesOthers(rows[1..], ledger, from, other);
      var s := Reopen(rows, ledger, from);
      if !Reopened(rows[0], ledger, from) {
        assert s[1..] == Reopen(rows[1..], ledger, from);
      } else {
        assert s == Reopen(rows[1..], ledger, from);
      }
    }
  }

  /** A full reopen, without a date, clears the ledger's watermark. */
  lemma {:induction false} FullReopenClears(rows: seq<ClosedRow>, ledger: nat)
    ensures Watermark(Reopen(rows, ledger, None), ledger) == None
    ensures MaxThrough(Reopen(rows, ledger, None), ledger) == None
    ensures MaxYear(Reopen(rows, ledger, None), ledger) == None
  {
    if rows != [] {
      FullReopenClears(rows[1..], ledger);
      var s := Reopen(rows, ledger, None);
      if rows[0].ledger != ledger {
        assert s[1..] == Reopen(rows[1..], ledger, None);
      } else {
        assert s == Reopen(rows[1..], ledger, None);
      }
    }
  }

  /** When a close succeeds, what it writes, and what its refusals mean. */
  lemma CloseExactly(rows: seq<ClosedRow>, ledger: nat, through: int)
    ensures var (rows', r) := ClosePeriod(rows, ledger, through);
            && (r.Ok? <==> && !IsClosed(Watermark(rows, ledger), through)
                           && forall row :: row in rows && row.ledger == ledger ==> row.year != Year(through))
            && (r.Ok? ==> rows' == rows + [ClosedRow(ledger, Year(through), Some(through))])
            && (r.Err? && r.error.AlreadyClosed? ==>
                  Watermark(rows, ledger) == Some(r.error.through) && through <= r.error.through)
  {
    if row :| row in rows && row.ledger == ledger && row.year == Year(through) {
      var i :| 0 <= i < |rows| && rows[i] == row;
      assert rows[i].ledger == ledger;
    }
  }

  /** The watermark itself: the latest dated close, or else the end of the latest legacy year. */
  lemma WatermarkExactly(rows: seq<ClosedRow>, ledger: nat, x: int)
    ensures IsClosed(Watermark(rows, ledger), x)
            <==> || (exists r :: r in rows && DatedRow(r, ledger) && x <= r.through.value)
                 || (&& (forall r :: r in rows ==> !DatedRow(r, ledger))
                     && exists r :: r in rows && LegacyRow(r, ledger) && x <= Dec31(r.year))
  {
    if MaxThrough(rows, ledger).Some? {
      var last := LatestRow(rows, ledger);
      forall r | r in rows && DatedRow(r, ledger) ensures r.through.value <= last.through.value {
        MaximaBound(rows, ledger, r);
      }
    } else {
      forall r | r in rows ensures !DatedRow(r, ledger) {
        if DatedRow(r, ledger) { MaximaBound(rows, ledger, r); }
      }
      if MaxYear(rows, ledger).Some? {
        var last := LatestYear(rows, ledger);
        assert LegacyRow(last, ledger);
      }
      forall r | r in rows && LegacyRow(r, ledger)
        ensures MaxYear(rows, ledger).Some? && r.year <= MaxYear(rows, ledger).value
      {
        MaximaBound(rows, ledger, r);
      }
    }
  }

  /** A legacy year covers exactly the dates up to its end. */
  lemma LegacyYearCovers(date: int, year: int)
    requires IsDate(date)
    ensures date <= Dec31(year) <==> Year(date) <= year
  {
  }
}

/** The seat allocator as the program runs it: a loop over the manual
    assignments, a filter of the roster, then nested loops over rows and odd
    seats that fill the map and advance an index into the pool. */
module Allocator {
  import opened Layout
  import opened SeatingRules

  /** Builds the seating chart of one auditorium from its roster, its rows and
      its manual assignments (a dictionary, listed in insertion order). The
      result is the chart the rules describe, or the IndexError that the row
      lookup of a pin raises. */
  method CreateSeatingChart(students: seq<string>, rowConfig: seq<Row>, manualAssignments: seq<Pin>)
    returns (outcome: Outcome)
    requires DistinctCoords(manualAssignments)
    ensures outcome == SeatingChart(students, rowConfig, manualAssignments)
  {
    // 1. Manual assignments.
    var failedAt, assignments, usedStudents, errors := ApplyManualAssignments(rowConfig, manualAssignments);
    if failedAt.Some? {
      return RowIndexError(manualAssignments[failedAt.value].0, errors);
    }

    // 2. The pool: the roster without the names already seated.
    var remainingStudents := Remaining(students, usedStudents);

    // 3. Auto-fill.
    var studentIndex;
    studentIndex, assignments := AutoFill(rowConfig, PinMap(manualAssignments).Keys, remainingStudents, assignments);
    outcome := Chart(assignments, studentIndex + |manualAssignments|, errors);
  }

  /** The loop over the rows, in order: each row's odd seats take the next
      pool names. Returns how many names were placed and the extended map. */
  method AutoFill(rowConfig: seq<Row>, pinned: set<Coord>, remainingStudents: seq<string>,
                  accepted: map<Coord, string>)
    returns (studentIndex: nat, assignments: map<Coord, string>)
    ensures studentIndex == Min(|remainingStudents|, |FreeRows(rowConfig, |rowConfig|, pinned)|)
    ensures assignments == accepted + Zip(FreeRows(rowConfig, |rowConfig|, pinned)[..studentIndex],
                                          remainingStudents[..studentIndex])
  {
    studentIndex, assignments := 0, accepted;
    var totalRows := |rowConfig|;
    var row := 0;
    assert FilledUpTo(accepted, [], remainingStudents, studentIndex, assignments) by {
      assert assignments == accepted + Zip([], []);
    }
    while row < totalRows
      invariant 0 <= row <= totalRows
      invariant FilledUpTo(accepted, FreeRows(rowConfig, row, pinned), remainingStudents, studentIndex, assignments)
    {
      studentIndex, assignments := FillRow(row + 1, SeatCount(rowConfig[row]), pinned, remainingStudents,
                                           studentIndex, assignments, accepted, FreeRows(rowConfig, row, pinned));
      row := row + 1;
    }
  }

  /** The loop over the manual assignments: an assignment whose seat exists is
      copied into the map and its name marked used; one whose row or seat is
      past the end is reported and skipped. Stops at the first pin whose row
      lookup raises IndexError, returning its position. */
  method ApplyManualAssignments(rowConfig: seq<Row>, manualAssignments: seq<Pin>)
    returns (failedAt: Option<nat>, assignments: map<Coord, string>, usedStudents: set<string>,
             errors: seq<Diagnostic>)
    requires DistinctCoords(manualAssignments)
    ensures failedAt == FirstLookupFailure(rowConfig, manualAssignments, 0)
    ensures failedAt.Some? ==> failedAt.value < |manualAssignments| &&
                               errors == Diagnostics(rowConfig, manualAssignments[..failedAt.value])
    ensures failedAt.None? ==> assignments == HonouredPins(rowConfig, manualAssignments) &&
                               usedStudents == assignments.Values &&
                               errors == Diagnostics(rowConfig, manualAssignments)
  {
    assignments, usedStudents, errors := map[], {}, [];
    var i := 0;
    assert PinsApplied(rowConfig, manualAssignments, 0, assignments, usedStudents, errors) by {
      assert manualAssignments[..0] == [];
    }
    while i < |manualAssignments|
      invariant 0 <= i <= |manualAssignments|
      invariant FirstLookupFailure(rowConfig, manualAssignments, i) == FirstLookupFailure(rowConfig, manualAssignments, 0)
      invariant PinsApplied(rowConfig, manualAssignments, i, assignments, usedStudents, errors)
    {
      var (seat, student) := manualAssignments[i];
      PinStep(rowConfig, manualAssignments, i, assignments, usedStudents, errors);
      var raised;
      raised, assignments, usedStudents, errors := ApplyPin(rowConfig, seat, student, assignments, usedStudents, errors);
      if raised {
        assert manualAssignments[i].0 == seat;
        failedAt := Some(i);
        return;
      }
      i := i + 1;
    }
    assert manualAssignments[..i] == manualAssignments;
    failedAt := None;
  }

  /** The body of that loop for one pin: `row_config[row - 1]` raises for a row
      at or below minus the row count; otherwise the pin is accepted, or its
      error is reported. */
  method ApplyPin(rowConfig: seq<Row>, seat: Coord, student: string, assignments0: map<Coord, string>,
                  usedStudents0: set<string>, errors0: seq<Diagnostic>)
    returns (raised: bool, assignments: map<Coord, string>, usedStudents: set<string>, errors: seq<Diagnostic>)
    ensures raised <==> PinVerdict(rowConfig, seat) == RowLookupFails
    ensures raised ==> errors == errors0
    ensures !raised && PinVerdict(rowConfig, seat) == Accepted ==>
              assignments == assignments0[seat := student] && usedStudents == usedStudents0 + {student} &&
              errors == errors0
    ensures !raised && PinVerdict(rowConfig, seat) != Accepted ==>
              assignments == assignments0 && usedStudents == usedStudents0 &&
              errors == errors0 + DiagnosticOf(rowConfig, seat)
  {
    raised, assignments, usedStudents, errors := false, assignments0, usedStudents0, errors0;
    var (row, seatNum) := seat;
    if row <= |rowConfig| {
      var index := PythonIndex(|rowConfig|, row - 1);
      if index.None? {
        raised := true;
        return;
      }
      var seatsInRow := SeatCount(rowConfig[index.value]);
      if seatNum <= seatsInRow {
        assignments := assignments[seat := student];
        usedStudents := usedStudents + {student};
      } else {
        errors := errors + [SeatMissing(seat)];
      }
    } else {
      errors := errors + [RowMissing(row)];
    }
  }

  /** The inner loop over the odd seats 1, 3, ... of one row: a pinned seat key
      is skipped, any other seat takes the next pool name while names remain. */
  method FillRow(realRowNumber: int, seatsInRow: nat, pinned: set<Coord>, remainingStudents: seq<string>,
                 studentIndex0: nat, assignments0: map<Coord, string>,
                 ghost accepted: map<Coord, string>, ghost before: seq<Coord>)
    returns (studentIndex: nat, assignments: map<Coord, string>)
    requires seatsInRow % 2 == 0
    requires FilledUpTo(accepted, before, remainingStudents, studentIndex0, assignments0)
    ensures FilledUpTo(accepted, before + FreeInRow(realRowNumber, seatsInRow, pinned), remainingStudents,
                       studentIndex, assignments)
  {
    studentIndex, assignments := studentIndex0, assignments0;
    ghost var desks := seatsInRow / 2;
    assert 2 * desks == seatsInRow;
    ghost var desk := 0;
    ghost var visited := before;
    var seat := 1;
    assert before + FreeInRow(realRowNumber, 0, pinned) == before;
    while seat <= seatsInRow
      invariant seat == 2 * desk + 1 && 0 <= desk <= desks
      invariant visited == before + FreeInRow(realRowNumber, 2 * desk, pinned)
      invariant FilledUpTo(accepted, visited, remainingStudents, studentIndex, assignments)
    {
      var seatKey := (realRowNumber, seat);
      SeatStep(before, realRowNumber, desk, pinned);
      if seatKey !in pinned {
        FillStep(accepted, visited, remainingStudents, studentIndex, assignments, seatKey);
        if studentIndex < |remainingStudents| {
          assignments := assignments[seatKey := remainingStudents[studentIndex]];
          studentIndex := studentIndex + 1;
        }
        visited := visited + [seatKey];
      }
      seat, desk := seat + 2, desk + 1;
    }
    assert 2 * desk == seatsInRow;
    assert visited == before + FreeInRow(realRowNumber, seatsInRow, pinned);
  }

  // Proof steps of the loops above.

  /** The state of the manual-assignment loop after the first `i` pins: the
      accepted ones in the map and their names used, the errors of all reported. */
  ghost predicate PinsApplied(rows: seq<Row>, pins: seq<Pin>, i: nat, assignments: map<Coord, string>,
                              usedStudents: set<string>, errors: seq<Diagnostic>)
    requires i <= |pins|
  {
    assignments == AcceptedSeats(rows, PinMap(pins[..i])) &&
    usedStudents == assignments.Values &&
    errors == Diagnostics(rows, pins[..i])
  }

  /** Handling pin `i`: an accepted pin is added to the map and its name to the
      used names, any other pin adds its error; its key is new. */
  lemma PinStep(rows: seq<Row>, pins: seq<Pin>, i: nat, assignments: map<Coord, string>,
                usedStudents: set<string>, errors: seq<Diagnostic>)
    requires DistinctCoords(pins) && i < |pins|
    requires PinsApplied(rows, pins, i, assignments, usedStudents, errors)
    ensures PinVerdict(rows, pins[i].0) == Accepted ==>
              PinsApplied(rows, pins, i + 1, assignments[pins[i].0 := pins[i].1], usedStudents + {pins[i].1}, errors)
    ensures PinVerdict(rows, pins[i].0) != Accepted ==>
              PinsApplied(rows, pins, i + 1, assignments, usedStudents, errors + DiagnosticOf(rows, pins[i].0))
  {
    var done := pins[..i];
    assert pins[..i + 1] == done + [pins[i]];
    assert (done + [pins[i]])[..i] == done;
    assert DistinctCoords(done);
    PinMapLookup(done);
    assert pins[i].0 !in PinMap(done);
    assert PinMap(pins[..i + 1]) == PinMap(done)[pins[i].0 := pins[i].1];
    AcceptedSeatsInsert(rows, PinMap(done), pins[i].0, pins[i].1);
    MapInsertValues(assignments, pins[i].0, pins[i].1);
  }

  /** A new key in the pin dictionary adds to the accepted seats exactly when it is accepted. */
  lemma AcceptedSeatsInsert(rows: seq<Row>, pm: map<Coord, string>, c: Coord, v: string)
    requires c !in pm
    ensures c !in AcceptedSeats(rows, pm)
    ensures AcceptedSeats(rows, pm[c := v]) ==
            if PinVerdict(rows, c) == Accepted then AcceptedSeats(rows, pm)[c := v] else AcceptedSeats(rows, pm)
  {
    var before := AcceptedSeats(rows, pm);
    var after := AcceptedSeats(rows, pm[c := v]);
    var expected := if PinVerdict(rows, c) == Accepted then before[c := v] else before;
    assert after.Keys == expected.Keys;
    forall k | k in after ensures after[k] == expected[k] {
      if k != c { assert after[k] == pm[k]; }
    }
  }

  /** `FreeInRowDesk` behind the seats visited before the row: the form the
      inner loop's invariant needs. */
  lemma SeatStep(before: seq<Coord>, r: int, d: nat, pinned: set<Coord>)
    ensures before + FreeInRow(r, 2 * d + 2, pinned) ==
            before + FreeInRow(r, 2 * d, pinned) + (if (r, 2 * d + 1) !in pinned then [(r, 2 * d + 1)] else [])
  {
    FreeInRowDesk(r, d, pinned);
  }

  /** The fill state once auto-fill has visited the seats `visited`: the first
      `k` of them hold the first `k` pool names, `k` as large as both allow. */
  ghost predicate FilledUpTo(accepted: map<Coord, string>, visited: seq<Coord>, pool: seq<string>, k: nat,
                             assignments: map<Coord, string>)
  {
    k == Min(|pool|, |visited|) && assignments == accepted + Zip(visited[..k], pool[..k])
  }

  /** Visiting one more free seat: it takes the next pool name if one remains. */
  lemma FillStep(accepted: map<Coord, string>, visited: seq<Coord>, pool: seq<string>, k: nat,
                 assignments: map<Coord, string>, c: Coord)
    requires FilledUpTo(accepted, visited, pool, k, assignments)
    ensures k < |pool| ==> FilledUpTo(accepted, visited + [c], pool, k + 1, assignments[c := pool[k]])
    ensures k >= |pool| ==> FilledUpTo(accepted, visited + [c], pool, k, assignments)
  {
    if k < |pool| {
      assert visited[..k] == visited && (visited + [c])[..k + 1] == visited + [c];
      assert pool[..k + 1] == pool[..k] + [pool[k]];
      ZipSnoc(visited, pool[..k], c, pool[k]);
    } else {
      assert (visited + [c])[..k] == visited[..k];
    }
  }
}

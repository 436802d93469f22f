# Seating allocator

This project models the seat allocator of a small classroom-seating page,
`create_seating_chart` in `seating/main.py`. The allocator takes three inputs:

- a room layout: a list of rows, each a list of items, where `"desk"` seats two and `"gap"` is an aisle;
- an ordered roster of student names;
- a dictionary of manual assignments, each pinning a name to a `(row, seat)` key.

It returns a map from seat keys to names, together with a "placed" count. It works in three phases.

1. **Manual assignments.**
   - A manual assignment is copied into the map when its row is at most the row count and its seat is at most that row's seat count.
   - Its name is then marked as used.
   - Otherwise, an error is reported and the assignment is skipped.
2. **Pool.** The pool is the roster without the used names, in roster order.
3. **Auto-fill.**
   - Rows are walked in order. Within a row, only the odd seats 1, 3, 5, … up to the row's seat count are visited.
   - A visited key that is a key of the manual-assignment dictionary is skipped.
   - Every other visited key takes the next pool name, while names remain.

The model has these files:

- `layout.dfy` (`Layout`): the row items and the per-row seat count.
- `seating_rules.dfy` (`SeatingRules`): the rules as functions of the inputs.
  - The verdict on one manual assignment and the errors reported.
  - The dictionary the assignments stand for and the pins it honours.
  - The pool and the free seats auto-fill visits.
  - The whole result, `SeatingChart`.
  - The lemmas about each of these.
- `allocator.dfy` (`Allocator`): the allocator itself, written as imperative code.
  - It has the source's two loops, with the nested loop over a row's odd seats as its own method.
  - Each method is proved against the functions of `SeatingRules`.
- `chart_properties.dfy` (`ChartProperties`): what every chart returned guarantees.
- `unseated.dfy` (`Unseated`): the page's "students did not fit" figure, as written and as corrected (see Findings).
- `scenarios.dfy` (`Scenarios`): small rooms worked out in full.

Manual assignments are a sequence of `(seat key, name)` pairs with pairwise distinct keys, in the dictionary's iteration order. A row key is checked only against the row count from above. It is then looked up as `row_config[row - 1]` with Python's negative indexing. So:

- row 0 reads the last row;
- row `-k` reads row `len - k`;
- a row key at or below minus the row count raises `IndexError`.

The model keeps all three behaviours. The raise is the `RowIndexError` outcome. A seat key is only checked from above.

## Model

| member | source | states |
|---|---|---|
| Layout.SeatCount | seating/main.py:94 | the seat count of a row is even and at most twice the number of items |
| Layout.SeatCountIsTwiceDesks | seating/main.py:112 | the seat count is exactly twice the number of `"desk"` items, in any order |
| Layout.SeatCountConcat | seating/main.py:112 | seat counts add up over the parts of a row |
| Layout.NonDeskAddsNoSeat | seating/main.py:94 | a gap, or any item that is not a desk, adds no seat wherever it stands |
| Layout.DeskAddsTwoSeats | seating/main.py:94 | a desk adds exactly two seats wherever it stands |
| Layout.FullRowIsAllDesks | seating/main.py:112 | a row seats two per item if and only if every item is a desk |
| Layout.FrontRowOfFirstAuditorium | seating/main.py:16 | the first room's front row of five desks and two gaps seats ten |
| Layout.SlotOf | seating/main.py:94 | reads one item: `"desk"` exactly to `Desk`, `"gap"` exactly to `Gap`, and any other text to `Other` holding that text, never `"desk"` or `"gap"` |
| Layout.ParseRow | seating/main.py:94 | reads a row item by item, keeping its length and the order of its items |
| Layout.ParsedSeatCount | seating/main.py:112 | the seat count of a row read from its items is twice the number of `"desk"` strings among them |
| Layout.TotalSeats | seating/main.py:254 | the page's total of the rows' seat counts, summed row by row; it is even and at most twice the number of items |
| SeatingRules.PythonIndex | seating/main.py:94 | `xs[k]` reads a position exactly when `-len <= k < len`, either `k` or `k + len` |
| SeatingRules.PinVerdict | seating/main.py:92-101 | a row key beyond the row count is rejected; at or below minus the row count the lookup raises; otherwise the assignment is accepted exactly when its seat is at most the seat count of the row read, with row 0 and below counting from the end |
| SeatingRules.FirstLookupFailure | seating/main.py:89-94 | the result is the first assignment whose row lookup raises, and none exists exactly when no assignment's lookup raises |
| SeatingRules.PinMap | seating/main.py:89 | the dictionary the assignment pairs stand for, built pair by pair; the last pair's key maps to its name |
| SeatingRules.DiagnosticOf | seating/main.py:98-101 | the error one assignment causes: none when it is accepted or its lookup raises, else exactly one (`SeatMissing` or `RowMissing`) |
| SeatingRules.AcceptedSeats | seating/main.py:95-97 | the entries of a pin dictionary whose verdict is accepted; each kept key is a dictionary key with its own name |
| SeatingRules.HonouredPins | seating/main.py:89-101 | the `assignments` dictionary once the pin loop is done: the accepted pins, each with the name the dictionary gives its key; its names are `used_students` (see `AcceptedNames`) |
| SeatingRules.Pool | seating/main.py:104 | `remaining_students`: the roster without the names of the accepted pins, in roster order; never longer than the roster |
| SeatingRules.FillCount | seating/main.py:105-126 | the final `student_index`: the smaller of the pool size and the number of free seats, so it exceeds neither |
| SeatingRules.Diagnostics | seating/main.py:89-101 | the errors of the assignments in order, at most one per assignment |
| SeatingRules.FreeInRow | seating/main.py:117-122 | the unpinned odd seats 1, 3, … up to a row's seat count, ascending; at most half the seats rounded up |
| SeatingRules.FreeRows | seating/main.py:109-122 | the free seats of rows 1 to `i` in row order; at most half the seats of those rows |
| SeatingRules.FreeSeats | seating/main.py:109-122 | the free seats of all rows; at most half the room's seats |
| SeatingRules.Zip | seating/main.py:124-125 | the map giving the k-th name the k-th seat; its keys are exactly the seats given |
| SeatingRules.SeatingChart | seating/main.py:78-128 | the allocator's whole result: it raises exactly when some assignment's row lookup fails; otherwise the placed count lies between the number of assignments and that number plus the roster size; never more errors than assignments |
| SeatingRules.Remaining | seating/main.py:104 | a name is in the pool exactly when it is on the roster and not used, and the pool is no longer than the roster |
| SeatingRules.PinMapLookup | seating/main.py:89 | every assignment's key maps to its name in the dictionary, and every dictionary key comes from an assignment |
| SeatingRules.AcceptedNames | seating/main.py:96-97 | a name is among the accepted names exactly when some accepted assignment carries it |
| SeatingRules.DiagnosticsComplete | seating/main.py:98-101 | every error an assignment causes is in the reported list |
| SeatingRules.DiagnosticsSound | seating/main.py:98-101 | every reported error comes from some assignment |
| SeatingRules.RemainingConcat | seating/main.py:104 | filtering splits over a concatenated roster, so the pool keeps roster order |
| SeatingRules.RemainingNoDuplicates | seating/main.py:104 | a roster without repeated names gives a pool without repeated names |
| SeatingRules.FreeInRowDesk | seating/main.py:117-122 | of desk `d + 1`'s seats `2d + 1` and `2d + 2`, only the odd one is visited, and only when it is not pinned |
| SeatingRules.FreeInRowMembers | seating/main.py:117-122 | a key is visited in a row exactly when its seat is odd, in range and not pinned |
| SeatingRules.FreeInRowAscending | seating/main.py:117 | within a row, the visited seats ascend and stay in that row |
| SeatingRules.FreeRowsMembers | seating/main.py:109-122 | a key is visited in rows 1 to `i` exactly when its row is in range and its seat is odd, in range and not pinned |
| SeatingRules.FreeRowsRowMajor | seating/main.py:109-117 | the visited keys are in row-major order, with rows from 1 to `i` |
| SeatingRules.ZipSnoc | seating/main.py:125 | one more seat and name extend the filled map by exactly that entry |
| Allocator.CreateSeatingChart | seating/main.py:78-128 | the allocator's result is `SeatingChart` of its inputs, the raise included |
| Allocator.ApplyManualAssignments | seating/main.py:85-101 | it stops at the first assignment whose lookup raises, with the errors reported so far; otherwise the map holds exactly the accepted assignments, the used set is exactly their names, and the errors are those of all assignments in order |
| Allocator.ApplyPin | seating/main.py:90-101 | one assignment raises exactly when its verdict says so; if accepted, it is added to the map and its name to the used set; if rejected, exactly its error is appended |
| Allocator.AutoFill | seating/main.py:105-126 | the index ends at the smaller of the pool size and the number of free seats, and the map gains exactly the k-th free seat paired with the k-th pool name |
| Allocator.FillRow | seating/main.py:110-126 | after one row, the filled map and the index account for that row's free odd seats too |
| Allocator.PinStep | seating/main.py:95-101 | one more assignment extends the accepted map, the used set and the error list exactly as its verdict says |
| Allocator.AcceptedSeatsInsert | seating/main.py:95-97 | a new dictionary key adds to the accepted map exactly when it is accepted |
| Allocator.FillStep | seating/main.py:124-126 | visiting one more free seat gives it the next pool name if one remains, and otherwise changes nothing |
| ChartProperties.ChartOf | seating/main.py:78-128 | when no row lookup raises, the result is the accepted assignments plus the filled seats, the count and the errors |
| ChartProperties.FreeSeatsFacts | seating/main.py:109-122 | the seats auto-fill may take are distinct, odd, in range and never a dictionary key |
| ChartProperties.AutoFillFacts | seating/main.py:121-126 | every filled seat is free and not pinned, and the k-th free seat holds the k-th pool name |
| ChartProperties.PinsHonoured | seating/main.py:92-97 | every accepted assignment is in the chart with its own name, never overwritten by auto-fill |
| ChartProperties.RejectedPinDropped | seating/main.py:92-104 | a rejected assignment is absent from the chart and its one error is reported; its name stays in the pool exactly when it is on the roster and no accepted assignment carries it |
| ChartProperties.SeatsArePinsOrFreeOddSeats | seating/main.py:92-122 | every chart entry is an accepted assignment with its name, or an unpinned odd seat in range; even seats are only ever pinned |
| ChartProperties.KthFreeSeatGetsKthName | seating/main.py:104-126 | the k-th visited free seat holds the k-th pool name while names last, and stays empty after that |
| ChartProperties.ZipSize | seating/main.py:125 | a map built from distinct seats has one entry per seat |
| ChartProperties.PlacedCount | seating/main.py:128 | the count is the number of filled seats plus every assignment, accepted or not; filling stops when the pool or the free seats run out; the map holds the accepted assignments plus the filled seats |
| ChartProperties.NamesComeFromInputs | seating/main.py:96-125 | every name in the chart is on the roster or pinned at that very seat |
| ChartProperties.AutoFilledNameUnique | seating/main.py:104-125 | with no repeated roster names, a name auto-fill placed appears at no other seat |
| ChartProperties.PinnedNameNotAutoFilled | seating/main.py:97-104 | a filled seat and an accepted assignment's seat carry different names |
| ChartProperties.AutoFilledNamesDiffer | seating/main.py:104-126 | two filled seats carry different names when the roster repeats none |
| ChartProperties.AutoFilledAt | seating/main.py:124-125 | a filled seat is the k-th free seat, for some k below the fill count, and holds the k-th pool name |
| ChartProperties.RaisesOnUnreachableRow | seating/main.py:89-94 | the allocator raises exactly when some row key is at or below minus the row count, at the first such assignment, after the errors of those before it |
| Unseated.RejectedPinHidesUnseatedStudent | seating/main.py:256-257 | in a one-desk room with one of two assignments rejected, a student is seated nowhere, yet the placed count equals the roster size and the page shows no message |
| Unseated.ReportedUnseated | seating/main.py:256-257 | the page's message as written: none exactly when the roster is no longer than the placed count, else the positive difference between them |
| Unseated.SeatedFromRoster | seating/main.py:96-125 | corrected: the filled seats plus the roster names an accepted assignment seats; never more than the roster |
| Unseated.UnseatedCount | seating/main.py:256-257 | corrected: the roster size minus the roster names with a seat; never more than the roster |
| Unseated.RosterSplit | seating/main.py:104 | the pool and the roster names already used together never outnumber the roster |
| Unseated.NoFillChart | seating/main.py:104-128 | when no seat is free or no name is left, the chart is the accepted assignments and the count is the number of assignments |
| Unseated.ChartValues | seating/main.py:96-125 | the names in the chart are those of the accepted assignments and of the filled part of the pool |
| Unseated.SeatedFromRosterCountsSeatedNames | seating/main.py:96-125 | the corrected seated count is the number of roster names that have a seat |
| Unseated.UnseatedCountIsRosterWithoutSeat | seating/main.py:256-257 | the corrected figure is the number of roster names left without a seat |
| Unseated.DistinctCardinality | seating/main.py:104 | a proof step of `UnseatedCountIsRosterWithoutSeat`: a roster without repeated names has as many distinct names as entries |
| Unseated.ZipValues | seating/main.py:125 | the names of the filled map are exactly the names given |
| Unseated.DisjointUnionValues | seating/main.py:96-125 | a proof step of `ChartValues`: the names of two maps with no key in common are the names of each, as for the pinned and the filled seats of one chart |
| Unseated.CountWithFilled | seating/main.py:104-125 | the filled names, distinct and not already used, add exactly their number to the roster names seated |
| Unseated.SplitCount | seating/main.py:256 | a proof step of `UnseatedCountIsRosterWithoutSeat`: the roster names split into those with a seat and those without |
| Scenarios.NoPinsFillsOddSeats | seating/main.py:109-126 | two desks, three students, no assignments: seats 1 and 3 go to the first two students, and the page reports one unseated |
| Scenarios.PinnedSeatIsSkipped | seating/main.py:121-122 | seat 1 pinned to a name off the roster is skipped, and seat 3 goes to the first student; the page shows no message although one student has no seat |
| Scenarios.SeatPastTheRowIsReported | seating/main.py:95-99 | an assignment to seat 5 of a four-seat row is reported and dropped, and its student is auto-filled like the others |
| Scenarios.RowZeroReadsTheLastRow | seating/main.py:92-94 | an assignment on row 0 is checked against the last row and kept under key `(0, 3)`, while seat 3 of that row is auto-filled as well |

## Left out

- `draw_classroom` (seating/main.py:131-220) is left out: it is Streamlit rendering and UI selection state.
- The page script (seating/main.py:227-318) is left out, except for the seat total of line 254 (`Layout.TotalSeats`) and the "did not fit" message of lines 256-257 (`Unseated.ReportedUnseated`), its `len(students) > placed_count` test included. The rest is UI: radio selection, a DataFrame table and CSS.
- The order of the returned `assignments` dictionary is not modelled: the source inserts the accepted assignments in dictionary order and then the filled seats in row-major order, and the page's table (seating/main.py:273) lists them in that order. The model returns an unordered map; the row-major order of the filled seats is stated separately by `SeatingRules.FreeRowsRowMajor`.
- The hard-coded auditorium data (seating/main.py:9-71) is left out. Only the first room's front row appears, as an example in `Layout.FrontRowOfFirstAuditorium`.
- The `st.error` calls (seating/main.py:99, 101) are modelled as a list of `SeatMissing` / `RowMissing` values. The rendering of the messages is foreign I/O.
- The `None` default for the manual assignments (seating/main.py:82-83) is modelled as the empty sequence.
- Row items are read from their strings by `Layout.ParseRow`: items other than `"desk"` and `"gap"` become `Other(text)` and seat nobody. Python's dynamic typing is not modelled: keys that are not integer pairs, and names that are not strings.
- The dictionary of manual assignments is modelled as a sequence with distinct keys, in the dictionary's iteration order. Python's hashing and insertion-order mechanics are not modelled.
- `Allocator.CreateSeatingChart` requires distinct keys. A Python dictionary guarantees them, so this restricts nothing the source accepts.
- Where a description of the program and its code differ, the code is followed:
  - there is no lower-bound check on rows or seats;
  - the second result counts every manual assignment, rejected ones included;
  - there is no notion of skipped rows or of an overflow result.

## Findings

| source | as written | input that shows it | evidently intended | confidence | as-written member | corrected member |
|---|---|---|---|---|---|---|
| seating/main.py:256-257 | when `len(students) > placed_count`, the page reports the difference as the number of students who did not fit, else it shows no message; `placed_count` (returned at line 128) adds every manual assignment, accepted or rejected, and assignments to names off the roster | room `[["desk"]]`, students `["A", "B"]`, assignments `{(1, 1): "A", (2, 1): "B"}`: `(2, 1)` is rejected, so "B" is seated nowhere, yet the placed count is 2 and no message is shown | the number of roster names left without a seat | not executed | Unseated.RejectedPinHidesUnseatedStudent | Unseated.UnseatedCountIsRosterWithoutSeat |

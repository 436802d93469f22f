/** The "students did not fit" figure the page derives from the allocator's
    count: as the program computes it, and as it is evidently meant. */
module Unseated {
  import opened Layout
  import opened SeatingRules
  import opened ChartProperties

  /** As written: when the roster is longer than the placed count, the page
      reports the difference as the number of students who did not fit; else
      it shows no message. The placed count adds every pin, accepted or not. */
  function ReportedUnseated(students: seq<string>, outcome: Outcome): (shown: Option<nat>)
    requires outcome.Chart?
    ensures shown.None? <==> |students| <= outcome.placedCount
    ensures shown.Some? ==> 0 < shown.value && shown.value + outcome.placedCount == |students|
  {
    if |students| > outcome.placedCount then Some(|students| - outcome.placedCount) else None
  }

  /** The pins of `RejectedPinHidesUnseatedStudent`: only the first is honoured. */
  lemma RejectedPinAccepted()
    ensures var pins: seq<Pin> := [((1, 1), "A"), ((2, 1), "B")];
            PinMap(pins).Keys == {(1, 1), (2, 1)} &&
            HonouredPins([[Desk]], pins) == map[(1, 1) := "A"] &&
            Diagnostics([[Desk]], pins) == [RowMissing(2)]
  {
    var pins: seq<Pin> := [((1, 1), "A"), ((2, 1), "B")];
    assert pins[..1] == [((1, 1), "A")] && pins[..1][..0] == pins[..0];
    assert SeatCount([Desk]) == 2;
    assert PinMap(pins) == map[(1, 1) := "A", (2, 1) := "B"];
  }

  /** The pool of `RejectedPinHidesUnseatedStudent`: the second name only. */
  lemma RejectedPinPool()
    ensures Pool(["A", "B"], [[Desk]], [((1, 1), "A"), ((2, 1), "B")]) == ["B"]
  {
    var students: seq<string> := ["A", "B"];
    RejectedPinAccepted();
    assert map[(1, 1) := "A"].Values == {"A"} by {
      assert map[(1, 1) := "A"][(1, 1)] == "A";
    }
    assert students[1..] == ["B"] && students[1..][1..] == [];
  }

  /** The free seats of `RejectedPinHidesUnseatedStudent`: none, the one odd
      seat of the only desk being pinned. */
  lemma RejectedPinFreeSeats()
    ensures FreeSeats([[Desk]], [((1, 1), "A"), ((2, 1), "B")]) == []
  {
    RejectedPinAccepted();
    OneDeskFreeSeats({(1, 1), (2, 1)});
  }

  /** The free seats of a room of one desk: seat 1 unless it is pinned. */
  lemma OneDeskFreeSeats(pinned: set<Coord>)
    ensures FreeRows([[Desk]], 1, pinned) == if (1, 1) in pinned then [] else [(1, 1)]
  {
    assert SeatCount([Desk]) == 2;
    FreeInRowDesk(1, 0, pinned);
    assert FreeInRow(1, 0, pinned) == [];
  }

  /** The chart of `RejectedPinHidesUnseatedStudent`: nothing is auto-filled. */
  lemma RejectedPinChart()
    ensures SeatingChart(["A", "B"], [[Desk]], [((1, 1), "A"), ((2, 1), "B")]) ==
            Chart(map[(1, 1) := "A"], 2, [RowMissing(2)])
  {
    var rows: seq<Row> := [[Desk]];
    var pins: seq<Pin> := [((1, 1), "A"), ((2, 1), "B")];
    RejectedPinAccepted();
    RejectedPinFreeSeats();
    assert pins[0].0.0 > -|rows| && pins[1].0.0 > -|rows|;
    NoFillChart(["A", "B"], rows, pins);
  }

  /** One desk, two students, two pins of which the second names row 2 of a
      one-row room: that pin is rejected, its student is seated nowhere, yet
      the placed count equals the roster size, so the page shows no message. */
  lemma RejectedPinHidesUnseatedStudent()
    ensures var students := ["A", "B"];
            var outcome := SeatingChart(students, [[Desk]], [((1, 1), "A"), ((2, 1), "B")]);
            outcome == Chart(map[(1, 1) := "A"], 2, [RowMissing(2)]) &&
            ReportedUnseated(students, outcome) == None &&
            "B" in students && "B" !in outcome.seats.Values
  {
    RejectedPinChart();
    SingletonValues((1, 1), "A");
  }

  /** When auto-fill takes no seat, the chart is the accepted pins and every pin
      is counted as placed. */
  lemma NoFillChart(students: seq<string>, rows: seq<Row>, pins: seq<Pin>)
    requires RowsReachable(rows, pins)
    requires FreeSeats(rows, pins) == [] || Pool(students, rows, pins) == []
    ensures SeatingChart(students, rows, pins) == Chart(HonouredPins(rows, pins), |pins|, Diagnostics(rows, pins))
  {
    ChartOf(students, rows, pins);
    var none := FreeSeats(rows, pins)[..0];
    assert Zip(none, Pool(students, rows, pins)[..0]) == map[];
    assert HonouredPins(rows, pins) + map[] == HonouredPins(rows, pins);
  }

  /** A chart of one seat holds one name. */
  lemma SingletonValues(c: Coord, x: string)
    ensures map[c := x].Values == {x}
  {
    assert map[c := x][c] == x;
  }

  /** Corrected: the roster names the chart seats, counted as the auto-filled
      seats plus the roster names that accepted pins seat. */
  function SeatedFromRoster(students: seq<string>, rows: seq<Row>, pins: seq<Pin>): (n: nat)
    ensures n <= |students|
  {
    RosterSplit(students, HonouredPins(rows, pins).Values);
    FillCount(students, rows, pins) + |(set x | x in students) * HonouredPins(rows, pins).Values|
  }

  /** Corrected: the roster size minus the roster names the chart seats. */
  function UnseatedCount(students: seq<string>, rows: seq<Row>, pins: seq<Pin>): (u: nat)
    ensures u <= |students|
  {
    |students| - SeatedFromRoster(students, rows, pins)
  }

  /** The pool and the roster names already used never outnumber the roster. */
  lemma {:induction false} RosterSplit(students: seq<string>, used: set<string>)
    ensures |Remaining(students, used)| + |(set x | x in students) * used| <= |students|
  {
    if students != [] {
      var head, tail := students[0], students[1..];
      RosterSplit(tail, used);
      var names, namesTail := set x | x in students, set x | x in tail;
      NamesOfCons(students);
      assert |Remaining(students, used)| == (if head in used then 0 else 1) + |Remaining(tail, used)|;
      if head in used {
        assert names * used == namesTail * used + {head};
      } else {
        assert names * used == namesTail * used;
      }
    }
  }

  /** The names of a non-empty roster: its first name and the names of the rest. */
  lemma NamesOfCons(s: seq<string>)
    requires s != []
    ensures (set x | x in s) == {s[0]} + (set x | x in s[1..])
  {
    assert forall x :: x in s <==> x == s[0] || x in s[1..];
  }

  /** A sequence without repeated elements has as many distinct elements as entries. */
  lemma {:induction false} DistinctCardinality(s: seq<string>)
    requires NoDuplicates(s)
    ensures |set x | x in s| == |s|
  {
    if s != [] {
      var n := |s| - 1;
      assert NoDuplicates(s[..n]);
      DistinctCardinality(s[..n]);
      assert (set x | x in s) == (set x | x in s[..n]) + {s[n]};
      assert s[n] !in s[..n];
    }
  }

  /** With distinct seats, the names of the zipped map are exactly the names given. */
  lemma {:induction false} ZipValues(coords: seq<Coord>, names: seq<string>)
    requires |coords| == |names| && NoDuplicates(coords)
    ensures Zip(coords, names).Values == set x | x in names
  {
    if coords != [] {
      var n := |coords| - 1;
      assert NoDuplicates(coords[..n]);
      ZipValues(coords[..n], names[..n]);
      assert coords[n] !in coords[..n];
      MapInsertValues(Zip(coords[..n], names[..n]), coords[n], names[n]);
      assert (set x | x in names) == (set x | x in names[..n]) + {names[n]};
    }
  }

  /** The names of two maps with no key in common are the names of each. */
  lemma DisjointUnionValues(a: map<Coord, string>, b: map<Coord, string>)
    requires forall c :: c in a ==> c !in b
    ensures (a + b).Values == a.Values + b.Values
  {
    forall x | x in a.Values ensures x in (a + b).Values {
      var c :| c in a && a[c] == x;
      assert (a + b)[c] == x;
    }
    forall x | x in b.Values ensures x in (a + b).Values {
      var c :| c in b && b[c] == x;
      assert (a + b)[c] == x;
    }
  }

  /** Counting the roster names among the pinned names and a list of further
      names, all distinct roster names not pinned: the list adds its length. */
  lemma CountWithFilled(students: seq<string>, used: set<string>, filled: seq<string>)
    requires NoDuplicates(filled)
    requires forall x :: x in filled ==> x in students && x !in used
    ensures |set x | x in students && x in used + (set y | y in filled)| ==
            |(set x | x in students) * used| + |filled|
  {
    var pinned := (set x | x in students) * used;
    var extra := set y | y in filled;
    DistinctCardinality(filled);
    assert (set x | x in students && x in used + extra) == pinned + extra;
    assert pinned * extra == {};
  }

  /** The corrected seated count is the number of roster names that have a seat
      in the chart, when the roster repeats no name. */
  lemma SeatedFromRosterCountsSeatedNames(students: seq<string>, rows: seq<Row>, pins: seq<Pin>)
    requires DistinctCoords(pins) && RowsReachable(rows, pins) && NoDuplicates(students)
    ensures SeatingChart(students, rows, pins).Chart?
    ensures SeatedFromRoster(students, rows, pins) ==
            |set x | x in students && x in SeatingChart(students, rows, pins).seats.Values|
  {
    var n := FillCount(students, rows, pins);
    var pool := Pool(students, rows, pins);
    var acc := HonouredPins(rows, pins);
    ChartValues(students, rows, pins);
    RemainingNoDuplicates(students, acc.Values);
    assert NoDuplicates(pool[..n]);
    assert forall x :: x in pool[..n] ==> x in pool;
    CountWithFilled(students, acc.Values, pool[..n]);
  }

  /** The names in the chart: those of the accepted pins and the auto-filled
      part of the pool. */
  lemma ChartValues(students: seq<string>, rows: seq<Row>, pins: seq<Pin>)
    requires DistinctCoords(pins) && RowsReachable(rows, pins)
    ensures SeatingChart(students, rows, pins).Chart?
    ensures SeatingChart(students, rows, pins).seats.Values ==
            HonouredPins(rows, pins).Values +
            (set y | y in Pool(students, rows, pins)[..FillCount(students, rows, pins)])
  {
    var n := FillCount(students, rows, pins);
    var free := FreeSeats(rows, pins);
    var pool := Pool(students, rows, pins);
    var acc := HonouredPins(rows, pins);
    var auto := Zip(free[..n], pool[..n]);
    ChartOf(students, rows, pins);
    AutoFillFacts(students, rows, pins);
    FreeSeatsFacts(rows, pins);
    assert NoDuplicates(free[..n]);
    ZipValues(free[..n], pool[..n]);
    DisjointUnionValues(acc, auto);
  }

  /** The roster names split into those with a seat and those without. */
  lemma SplitCount(students: seq<string>, values: set<string>)
    ensures |set x | x in students| ==
            |set x | x in students && x in values| + |set x | x in students && x !in values|
  {
    var seated := set x | x in students && x in values;
    var unseated := set x | x in students && x !in values;
    assert (set x | x in students) == seated + unseated;
    assert seated * unseated == {};
  }

  /** The corrected figure is the number of roster names left without a seat. */
  lemma UnseatedCountIsRosterWithoutSeat(students: seq<string>, rows: seq<Row>, pins: seq<Pin>)
    requires DistinctCoords(pins) && RowsReachable(rows, pins) && NoDuplicates(students)
    ensures SeatingChart(students, rows, pins).Chart?
    ensures UnseatedCount(students, rows, pins) ==
            |set x | x in students && x !in SeatingChart(students, rows, pins).seats.Values|
  {
    SeatedFromRosterCountsSeatedNames(students, rows, pins);
    DistinctCardinality(students);
    SplitCount(students, SeatingChart(students, rows, pins).seats.Values);
  }
}

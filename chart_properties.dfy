/** What every chart the allocator returns guarantees. */
module ChartProperties {
  import opened Layout
  import opened SeatingRules

  /** No pin names a row so far below 1 that `row_config[row - 1]` raises. */
  ghost predicate RowsReachable(rows: seq<Row>, pins: seq<Pin>) {
    forall i :: 0 <= i < |pins| ==> pins[i].0.0 > -|rows|
  }

  /** With every pin's row reachable, no lookup raises and the allocator
      returns the chart of accepted pins and auto-filled seats. */
  lemma ChartOf(students: seq<string>, rows: seq<Row>, pins: seq<Pin>)
    requires RowsReachable(rows, pins)
    ensures FirstLookupFailure(rows, pins, 0).None?
    ensures var n := FillCount(students, rows, pins);
            SeatingChart(students, rows, pins) ==
            Chart(HonouredPins(rows, pins) + Zip(FreeSeats(rows, pins)[..n], Pool(students, rows, pins)[..n]),
                  n + |pins|, Diagnostics(rows, pins))
  {
    forall i | 0 <= i < |pins| ensures PinVerdict(rows, pins[i].0) != RowLookupFails {
      assert pins[i].0.0 > -|rows|;
    }
  }

  /** The seats auto-fill may take: odd, in range, never a key of the pin dictionary,
      listed in row-major order without repetition. */
  lemma FreeSeatsFacts(rows: seq<Row>, pins: seq<Pin>)
    ensures NoDuplicates(FreeSeats(rows, pins))
    ensures forall c :: c in FreeSeats(rows, pins) <==>
              1 <= c.0 <= |rows| && 1 <= c.1 <= SeatCount(rows[c.0 - 1]) && c.1 % 2 == 1 && c !in PinMap(pins)
  {
    FreeRowsRowMajor(rows, |rows|, PinMap(pins).Keys);
    RowMajorDistinct(FreeSeats(rows, pins));
    forall c ensures c in FreeSeats(rows, pins) <==>
        1 <= c.0 <= |rows| && 1 <= c.1 <= SeatCount(rows[c.0 - 1]) && c.1 % 2 == 1 && c !in PinMap(pins)
    {
      FreeRowsMembers(rows, |rows|, PinMap(pins).Keys, c);
    }
  }

  /** The auto-filled part of the chart: the first `n` free seats, the k-th
      holding the k-th pool name. */
  lemma AutoFillFacts(students: seq<string>, rows: seq<Row>, pins: seq<Pin>)
    ensures var n := FillCount(students, rows, pins);
            var free := FreeSeats(rows, pins);
            var auto := Zip(free[..n], Pool(students, rows, pins)[..n]);
            (forall c :: c in auto ==> c in free[..n] && c !in PinMap(pins)) &&
            (forall k :: 0 <= k < n ==> free[k] in auto && auto[free[k]] == Pool(students, rows, pins)[k])
  {
    var n := FillCount(students, rows, pins);
    var free := FreeSeats(rows, pins);
    var pool := Pool(students, rows, pins);
    FreeSeatsFacts(rows, pins);
    assert NoDuplicates(free[..n]);
    ZipLookup(free[..n], pool[..n]);
    forall k | 0 <= k < n ensures free[k] == free[..n][k] && pool[k] == pool[..n][k] { }
  }

  /** Every accepted pin is in the chart, with its own name: auto-fill never
      overwrites it. */
  lemma PinsHonoured(students: seq<string>, rows: seq<Row>, pins: seq<Pin>, i: nat)
    requires DistinctCoords(pins) && RowsReachable(rows, pins)
    requires i < |pins| && PinVerdict(rows, pins[i].0) == Accepted
    ensures SeatingChart(students, rows, pins).Chart?
    ensures pins[i].0 in SeatingChart(students, rows, pins).seats
    ensures SeatingChart(students, rows, pins).seats[pins[i].0] == pins[i].1
  {
    ChartOf(students, rows, pins);
    PinMapLookup(pins);
    AutoFillFacts(students, rows, pins);
    assert pins[i].0 in HonouredPins(rows, pins);
  }

  /** A pin that fails either upper-bound check is reported, is not in the chart,
      and does not take its name out of the pool. */
  lemma RejectedPinDropped(students: seq<string>, rows: seq<Row>, pins: seq<Pin>, i: nat)
    requires DistinctCoords(pins) && RowsReachable(rows, pins)
    requires i < |pins| && PinVerdict(rows, pins[i].0) in {SeatOutOfRange, RowOutOfRange}
    ensures SeatingChart(students, rows, pins).Chart?
    ensures pins[i].0 !in SeatingChart(students, rows, pins).seats
    ensures |DiagnosticOf(rows, pins[i].0)| == 1
    ensures DiagnosticOf(rows, pins[i].0)[0] in SeatingChart(students, rows, pins).diagnostics
    ensures pins[i].1 in Pool(students, rows, pins) <==>
            pins[i].1 in students &&
            forall j :: 0 <= j < |pins| && pins[j].1 == pins[i].1 ==> PinVerdict(rows, pins[j].0) != Accepted
  {
    var c := pins[i].0;
    ChartOf(students, rows, pins);
    PinMapLookup(pins);
    assert c in PinMap(pins) && c !in HonouredPins(rows, pins);
    AutoFillFacts(students, rows, pins);
    DiagnosticsComplete(rows, pins, i, DiagnosticOf(rows, c)[0]);
    AcceptedNames(rows, pins, pins[i].1);
  }

  /** Every seat in the chart is an accepted pin, or an odd seat in range that no
      pin names; even seats are only ever filled by pins. */
  lemma SeatsArePinsOrFreeOddSeats(students: seq<string>, rows: seq<Row>, pins: seq<Pin>, c: Coord)
    requires DistinctCoords(pins) && RowsReachable(rows, pins)
    requires c in SeatingChart(students, rows, pins).seats
    ensures c in PinMap(pins) ==>
              PinVerdict(rows, c) == Accepted && SeatingChart(students, rows, pins).seats[c] == PinMap(pins)[c]
    ensures c !in PinMap(pins) ==>
              1 <= c.0 <= |rows| && 1 <= c.1 <= SeatCount(rows[c.0 - 1]) && c.1 % 2 == 1
  {
    if c in PinMap(pins) {
      PinnedChartSeat(students, rows, pins, c);
    } else {
      FilledChartSeat(students, rows, pins, c);
    }
  }

  /** A chart seat that a pin names holds that pin, accepted. */
  lemma PinnedChartSeat(students: seq<string>, rows: seq<Row>, pins: seq<Pin>, c: Coord)
    requires RowsReachable(rows, pins)
    requires c in SeatingChart(students, rows, pins).seats && c in PinMap(pins)
    ensures PinVerdict(rows, c) == Accepted && SeatingChart(students, rows, pins).seats[c] == PinMap(pins)[c]
  {
    ChartOf(students, rows, pins);
    AutoFillFacts(students, rows, pins);
    var n := FillCount(students, rows, pins);
    var acc := HonouredPins(rows, pins);
    var auto := Zip(FreeSeats(rows, pins)[..n], Pool(students, rows, pins)[..n]);
    assert c !in auto;
    assert c in acc && (acc + auto)[c] == acc[c];
  }

  /** A chart seat that no pin names is a free odd seat in range. */
  lemma FilledChartSeat(students: seq<string>, rows: seq<Row>, pins: seq<Pin>, c: Coord)
    requires RowsReachable(rows, pins)
    requires c in SeatingChart(students, rows, pins).seats && c !in PinMap(pins)
    ensures 1 <= c.0 <= |rows| && 1 <= c.1 <= SeatCount(rows[c.0 - 1]) && c.1 % 2 == 1
  {
    ChartOf(students, rows, pins);
    AutoFillFacts(students, rows, pins);
    var n := FillCount(students, rows, pins);
    var free := FreeSeats(rows, pins);
    var auto := Zip(free[..n], Pool(students, rows, pins)[..n]);
    assert c in auto;
    assert c in free[..n];
    assert c in free;
    FreeRowsMembers(rows, |rows|, PinMap(pins).Keys, c);
  }

  /** The k-th seat auto-fill visits takes the k-th name of the pool while names
      last; the seats it visits after that stay empty. */
  lemma KthFreeSeatGetsKthName(students: seq<string>, rows: seq<Row>, pins: seq<Pin>, k: nat)
    requires DistinctCoords(pins) && RowsReachable(rows, pins)
    requires k < |FreeSeats(rows, pins)|
    ensures k < |Pool(students, rows, pins)| ==>
              FreeSeats(rows, pins)[k] in SeatingChart(students, rows, pins).seats &&
              SeatingChart(students, rows, pins).seats[FreeSeats(rows, pins)[k]] == Pool(students, rows, pins)[k]
    ensures k >= |Pool(students, rows, pins)| ==>
              FreeSeats(rows, pins)[k] !in SeatingChart(students, rows, pins).seats
  {
    ChartOf(students, rows, pins);
    AutoFillFacts(students, rows, pins);
    FreeSeatsFacts(rows, pins);
    var free := FreeSeats(rows, pins);
    var n := FillCount(students, rows, pins);
    if k >= n {
      forall j | 0 <= j < n ensures free[..n][j] != free[k] {
        assert free[..n][j] == free[j];
      }
    }
  }

  /** A map built from distinct seats has one entry per seat. */
  lemma {:induction false} ZipSize(coords: seq<Coord>, names: seq<string>)
    requires |coords| == |names| && NoDuplicates(coords)
    ensures |Zip(coords, names)| == |coords|
  {
    if coords != [] {
      var n := |coords| - 1;
      assert NoDuplicates(coords[..n]);
      ZipSize(coords[..n], names[..n]);
      assert coords[n] !in coords[..n];
      assert Zip(coords, names).Keys == Zip(coords[..n], names[..n]).Keys + {coords[n]};
    }
  }

  /** The count returned is the number of auto-filled seats plus every pin,
      accepted or rejected; auto-fill takes as many seats as the smaller of the
      pool and the free seats allows, and the map holds exactly the accepted pins
      and those seats. */
  lemma PlacedCount(students: seq<string>, rows: seq<Row>, pins: seq<Pin>)
    requires DistinctCoords(pins) && RowsReachable(rows, pins)
    ensures SeatingChart(students, rows, pins).Chart?
    ensures var n := FillCount(students, rows, pins);
            SeatingChart(students, rows, pins).placedCount == n + |pins| &&
            n <= |Pool(students, rows, pins)| && n <= |FreeSeats(rows, pins)| &&
            (n == |Pool(students, rows, pins)| || n == |FreeSeats(rows, pins)|) &&
            |SeatingChart(students, rows, pins).seats| == |HonouredPins(rows, pins)| + n
  {
    ChartOf(students, rows, pins);
    var n := FillCount(students, rows, pins);
    var free := FreeSeats(rows, pins);
    var acc := HonouredPins(rows, pins);
    var auto := Zip(free[..n], Pool(students, rows, pins)[..n]);
    AutoFillFacts(students, rows, pins);
    FreeSeatsFacts(rows, pins);
    assert NoDuplicates(free[..n]);
    ZipSize(free[..n], Pool(students, rows, pins)[..n]);
    assert acc.Keys * auto.Keys == {};
    assert (acc + auto).Keys == acc.Keys + auto.Keys;
  }

  /** Every name in the chart is a roster name or the name of a pin at that seat. */
  lemma NamesComeFromInputs(students: seq<string>, rows: seq<Row>, pins: seq<Pin>, c: Coord)
    requires DistinctCoords(pins) && RowsReachable(rows, pins)
    requires c in SeatingChart(students, rows, pins).seats
    ensures SeatingChart(students, rows, pins).seats[c] in students ||
            exists i :: 0 <= i < |pins| && pins[i] == (c, SeatingChart(students, rows, pins).seats[c])
  {
    ChartOf(students, rows, pins);
    PinMapLookup(pins);
    AutoFillFacts(students, rows, pins);
    var free := FreeSeats(rows, pins);
    var n := FillCount(students, rows, pins);
    if c !in HonouredPins(rows, pins) {
      var k :| 0 <= k < n && free[..n][k] == c;
      assert free[k] == c;
    } else {
      var i :| 0 <= i < |pins| && pins[i].0 == c;
    }
  }

  /** With a roster free of repeated names, a name auto-fill places sits nowhere
      else in the chart: auto-fill places nobody twice and never places a name
      that an accepted pin already seated. Only pins can repeat a name. */
  lemma AutoFilledNameUnique(students: seq<string>, rows: seq<Row>, pins: seq<Pin>, c1: Coord, c2: Coord)
    requires DistinctCoords(pins) && RowsReachable(rows, pins) && NoDuplicates(students)
    requires c1 in SeatingChart(students, rows, pins).seats && c1 !in PinMap(pins)
    requires c2 in SeatingChart(students, rows, pins).seats && c2 != c1
    ensures SeatingChart(students, rows, pins).seats[c1] != SeatingChart(students, rows, pins).seats[c2]
  {
    ChartOf(students, rows, pins);
    var n := FillCount(students, rows, pins);
    var acc := HonouredPins(rows, pins);
    var auto := Zip(FreeSeats(rows, pins)[..n], Pool(students, rows, pins)[..n]);
    assert SeatingChart(students, rows, pins).seats == acc + auto;
    assert c1 !in acc;
    if c2 in acc {
      PinnedNameNotAutoFilled(students, rows, pins, c1, c2);
    } else {
      AutoFilledNamesDiffer(students, rows, pins, c1, c2);
    }
  }

  /** A seat auto-fill took and a seat an accepted pin holds carry different names. */
  lemma PinnedNameNotAutoFilled(students: seq<string>, rows: seq<Row>, pins: seq<Pin>, c1: Coord, c2: Coord)
    requires c1 in Zip(FreeSeats(rows, pins)[..FillCount(students, rows, pins)],
                       Pool(students, rows, pins)[..FillCount(students, rows, pins)])
    requires c2 in HonouredPins(rows, pins)
    ensures var n := FillCount(students, rows, pins);
            var seats := HonouredPins(rows, pins) + Zip(FreeSeats(rows, pins)[..n], Pool(students, rows, pins)[..n]);
            seats[c1] != seats[c2]
  {
    var pool := Pool(students, rows, pins);
    var acc := HonouredPins(rows, pins);
    var n := FillCount(students, rows, pins);
    var auto := Zip(FreeSeats(rows, pins)[..n], pool[..n]);
    var k1 := AutoFilledAt(students, rows, pins, c1);
    AutoFillFacts(students, rows, pins);
    assert c2 in PinMap(pins) && c2 !in auto;
    assert (acc + auto)[c2] == acc[c2];
    assert pool[k1] in pool;
  }

  /** Two seats auto-fill took carry different names, when the roster repeats none. */
  lemma AutoFilledNamesDiffer(students: seq<string>, rows: seq<Row>, pins: seq<Pin>, c1: Coord, c2: Coord)
    requires NoDuplicates(students) && c1 != c2
    requires c1 in Zip(FreeSeats(rows, pins)[..FillCount(students, rows, pins)],
                       Pool(students, rows, pins)[..FillCount(students, rows, pins)])
    requires c2 in Zip(FreeSeats(rows, pins)[..FillCount(students, rows, pins)],
                       Pool(students, rows, pins)[..FillCount(students, rows, pins)])
    ensures var n := FillCount(students, rows, pins);
            var seats := HonouredPins(rows, pins) + Zip(FreeSeats(rows, pins)[..n], Pool(students, rows, pins)[..n]);
            seats[c1] != seats[c2]
  {
    var k1 := AutoFilledAt(students, rows, pins, c1);
    var k2 := AutoFilledAt(students, rows, pins, c2);
    var pool := Pool(students, rows, pins);
    assert k1 != k2;
    RemainingNoDuplicates(students, HonouredPins(rows, pins).Values);
    assert pool[k1] != pool[k2];
  }

  /** The position in the free seats, and in the pool, of a seat auto-fill took. */
  lemma AutoFilledAt(students: seq<string>, rows: seq<Row>, pins: seq<Pin>, c: Coord) returns (k: nat)
    requires c in Zip(FreeSeats(rows, pins)[..FillCount(students, rows, pins)],
                      Pool(students, rows, pins)[..FillCount(students, rows, pins)])
    ensures k < FillCount(students, rows, pins) && FreeSeats(rows, pins)[k] == c
    ensures Zip(FreeSeats(rows, pins)[..FillCount(students, rows, pins)],
                Pool(students, rows, pins)[..FillCount(students, rows, pins)])[c] == Pool(students, rows, pins)[k]
  {
    var n := FillCount(students, rows, pins);
    var free := FreeSeats(rows, pins);
    AutoFillFacts(students, rows, pins);
    k :| 0 <= k < n && free[..n][k] == c;
  }

  /** The allocator raises exactly when some pin's row lies at or below minus
      the row count, and then at the first such pin, after reporting the errors
      of the pins before it. */
  lemma RaisesOnUnreachableRow(students: seq<string>, rows: seq<Row>, pins: seq<Pin>)
    ensures SeatingChart(students, rows, pins).RowIndexError? <==> !RowsReachable(rows, pins)
    ensures SeatingChart(students, rows, pins).RowIndexError? ==>
              exists j :: 0 <= j < |pins| && pins[j].0.0 <= -|rows| &&
                          (forall i :: 0 <= i < j ==> pins[i].0.0 > -|rows|) &&
                          SeatingChart(students, rows, pins) == RowIndexError(pins[j].0, Diagnostics(rows, pins[..j]))
  {
    var first := FirstLookupFailure(rows, pins, 0);
    if first.Some? {
      var j := first.value;
      assert SeatingChart(students, rows, pins) == RowIndexError(pins[j].0, Diagnostics(rows, pins[..j]));
      assert pins[j].0.0 <= -|rows|;
      forall i | 0 <= i < j ensures pins[i].0.0 > -|rows| {
        assert PinVerdict(rows, pins[i].0) != RowLookupFails;
      }
    } else {
      forall i | 0 <= i < |pins| ensures pins[i].0.0 > -|rows| {
        assert PinVerdict(rows, pins[i].0) != RowLookupFails;
      }
      ChartOf(students, rows, pins);
    }
  }
}

/** What a seating chart is: the rules the allocator follows, stated as
    functions of its inputs, and the properties those rules guarantee. */
module SeatingRules {
  import opened Layout

  datatype Option<T> = None | Some(value: T)

  /** A seat key `(row, seat)`; rows and seats are numbered from 1. */
  type Coord = (int, int)

  /** A manual assignment: a seat key and the name pinned there. */
  type Pin = (Coord, string)

  /** The two configuration errors the allocator reports and then ignores. */
  datatype Diagnostic = SeatMissing(seat: Coord) | RowMissing(row: int)

  /** What the allocator returns: the seat map, the placed count and the
      reported errors; or the IndexError raised while looking up a pin's row. */
  datatype Outcome =
    | Chart(seats: map<Coord, string>, placedCount: int, diagnostics: seq<Diagnostic>)
    | RowIndexError(at: Coord, diagnostics: seq<Diagnostic>)

  function Min(a: int, b: int): (m: int)
    ensures m <= a && m <= b && (m == a || m == b)
  {
    if a <= b then a else b
  }

  ghost predicate NoDuplicates<T>(s: seq<T>) {
    forall i, j :: 0 <= i < j < |s| ==> s[i] != s[j]
  }

  /** The manual assignments come from a dictionary: no seat key twice. */
  ghost predicate DistinctCoords(pins: seq<Pin>) {
    forall i, j :: 0 <= i < j < |pins| ==> pins[i].0 != pins[j].0
  }

  /** Row-major order: earlier row first, then lower seat. */
  predicate Before(a: Coord, b: Coord) {
    a.0 < b.0 || (a.0 == b.0 && a.1 < b.1)
  }

  // ---------------------------------------------------------------------------
  // Phase 1: manual assignments
  // ---------------------------------------------------------------------------

  /** The position Python's `xs[k]` reads in a list of length `n`, negative `k`
      counting from the end; None where Python raises IndexError. */
  function PythonIndex(n: nat, k: int): (i: Option<nat>)
    ensures i.Some? <==> -(n as int) <= k < n
    ensures i.Some? ==> i.value < n && (i.value == k || i.value == k + n)
  {
    if 0 <= k < n then Some(k) else if -(n as int) <= k < 0 then Some(k + n) else None
  }

  /** How the allocator treats one pin's seat key. */
  datatype Verdict = Accepted | SeatOutOfRange | RowOutOfRange | RowLookupFails

  /** The row is checked only against the row count from above, then looked up
      as `row_config[row - 1]`; the seat is checked only from above. */
  function PinVerdict(rows: seq<Row>, c: Coord): (v: Verdict)
    ensures v == RowOutOfRange <==> c.0 > |rows|
    ensures v == RowLookupFails <==> c.0 <= -|rows|
    ensures 1 <= c.0 <= |rows| ==> (v == Accepted <==> c.1 <= SeatCount(rows[c.0 - 1]))
    ensures -|rows| < c.0 <= 0 ==> (v == Accepted <==> c.1 <= SeatCount(rows[c.0 - 1 + |rows|]))
  {
    if c.0 > |rows| then RowOutOfRange
    else match PythonIndex(|rows|, c.0 - 1)
      case None => RowLookupFails
      case Some(i) => if c.1 <= SeatCount(rows[i]) then Accepted else SeatOutOfRange
  }

  /** The first pin, from `from` on, whose row lookup raises IndexError. */
  function FirstLookupFailure(rows: seq<Row>, pins: seq<Pin>, from: nat): (r: Option<nat>)
    requires from <= |pins|
    decreases |pins| - from
    ensures r.None? <==> forall i :: from <= i < |pins| ==> PinVerdict(rows, pins[i].0) != RowLookupFails
    ensures r.Some? ==> from <= r.value < |pins| && PinVerdict(rows, pins[r.value].0) == RowLookupFails
    ensures r.Some? ==> forall i :: from <= i < r.value ==> PinVerdict(rows, pins[i].0) != RowLookupFails
  {
    if from == |pins| then None
    else if PinVerdict(rows, pins[from].0) == RowLookupFails then Some(from)
    else FirstLookupFailure(rows, pins, from + 1)
  }

  /** The dictionary that the list of pins stands for. */
  function PinMap(pins: seq<Pin>): (m: map<Coord, string>)
    ensures pins != [] ==> pins[|pins| - 1].0 in m && m[pins[|pins| - 1].0] == pins[|pins| - 1].1
  {
    if pins == [] then map[]
    else PinMap(pins[..|pins| - 1])[pins[|pins| - 1].0 := pins[|pins| - 1].1]
  }

  /** The pins the allocator honours. */
  function AcceptedSeats(rows: seq<Row>, pm: map<Coord, string>): (m: map<Coord, string>)
    ensures forall c :: c in m ==> c in pm && m[c] == pm[c]
  {
    map c | c in pm && PinVerdict(rows, c) == Accepted :: pm[c]
  }

  /** The error reported for one pin, if any. */
  function DiagnosticOf(rows: seq<Row>, c: Coord): (d: seq<Diagnostic>)
    ensures |d| <= 1
    ensures d == [] <==> PinVerdict(rows, c) == Accepted || PinVerdict(rows, c) == RowLookupFails
  {
    match PinVerdict(rows, c)
    case SeatOutOfRange => [SeatMissing(c)]
    case RowOutOfRange => [RowMissing(c.0)]
    case _ => []
  }

  /** The errors reported for a list of pins, in order. */
  function Diagnostics(rows: seq<Row>, pins: seq<Pin>): (ds: seq<Diagnostic>)
    ensures |ds| <= |pins|
  {
    if pins == [] then []
    else Diagnostics(rows, pins[..|pins| - 1]) + DiagnosticOf(rows, pins[|pins| - 1].0)
  }

  // ---------------------------------------------------------------------------
  // Phase 2: the auto-fill pool
  // ---------------------------------------------------------------------------

  /** The roster without the names already used, in roster order. */
  function Remaining(students: seq<string>, used: set<string>): (pool: seq<string>)
    ensures |pool| <= |students|
    ensures forall x :: x in pool <==> x in students && x !in used
  {
    if students == [] then []
    else (if students[0] in used then [] else [students[0]]) + Remaining(students[1..], used)
  }

  // ---------------------------------------------------------------------------
  // Phase 3: the seats auto-fill visits
  // ---------------------------------------------------------------------------

  /** The odd seats 1, 3, ... up to `hi` of row `r` whose key is not pinned, ascending. */
  function FreeInRow(r: int, hi: int, pinned: set<Coord>): (s: seq<Coord>)
    decreases hi
    ensures |s| <= if hi < 1 then 0 else (hi + 1) / 2
  {
    if hi < 1 then []
    else FreeInRow(r, hi - 1, pinned) + (if hi % 2 == 1 && (r, hi) !in pinned then [(r, hi)] else [])
  }

  /** The free odd seats of rows 1 to `i`, row by row. */
  function FreeRows(rows: seq<Row>, i: nat, pinned: set<Coord>): (s: seq<Coord>)
    requires i <= |rows|
    ensures 2 * |s| <= TotalSeats(rows[..i])
  {
    if i == 0 then []
    else
      assert rows[..i][..i - 1] == rows[..i - 1];
      FreeRows(rows, i - 1, pinned) + FreeInRow(i, SeatCount(rows[i - 1]), pinned)
  }

  /** The seats auto-fill may take, in the order it visits them. */
  function FreeSeats(rows: seq<Row>, pins: seq<Pin>): (s: seq<Coord>)
    ensures 2 * |s| <= TotalSeats(rows)
  {
    assert rows[..|rows|] == rows;
    FreeRows(rows, |rows|, PinMap(pins).Keys)
  }

  /** The map that gives `names[k]` the seat `coords[k]`. */
  function Zip(coords: seq<Coord>, names: seq<string>): (m: map<Coord, string>)
    requires |coords| == |names|
    ensures forall c :: c in m <==> c in coords
  {
    if coords == [] then map[]
    else Zip(coords[..|coords| - 1], names[..|names| - 1])[coords[|coords| - 1] := names[|names| - 1]]
  }

  // ---------------------------------------------------------------------------
  // The chart
  // ---------------------------------------------------------------------------

  /** The `assignments` dictionary once every pin is handled: the accepted pins. */
  function HonouredPins(rows: seq<Row>, pins: seq<Pin>): (m: map<Coord, string>)
    ensures forall c :: c in m ==> c in PinMap(pins) && m[c] == PinMap(pins)[c]
  {
    AcceptedSeats(rows, PinMap(pins))
  }

  /** The roster without the names of the accepted pins. */
  function Pool(students: seq<string>, rows: seq<Row>, pins: seq<Pin>): (pool: seq<string>)
    ensures |pool| <= |students|
  {
    Remaining(students, HonouredPins(rows, pins).Values)
  }

  /** How many seats auto-fill takes: it stops when the pool or the free seats run out. */
  function FillCount(students: seq<string>, rows: seq<Row>, pins: seq<Pin>): (n: nat)
    ensures n <= |Pool(students, rows, pins)| && n <= |FreeSeats(rows, pins)|
    ensures n == |Pool(students, rows, pins)| || n == |FreeSeats(rows, pins)|
  {
    Min(|Pool(students, rows, pins)|, |FreeSeats(rows, pins)|)
  }

  /** The chart the allocator produces: the accepted pins, plus the k-th free
      odd seat for the k-th name of the pool while both last. */
  function SeatingChart(students: seq<string>, rows: seq<Row>, pins: seq<Pin>): (r: Outcome)
    ensures r.RowIndexError? <==> FirstLookupFailure(rows, pins, 0).Some?
    ensures r.Chart? ==> |pins| <= r.placedCount <= |pins| + |students|
    ensures |r.diagnostics| <= |pins|
  {
    match FirstLookupFailure(rows, pins, 0)
    case Some(j) => RowIndexError(pins[j].0, Diagnostics(rows, pins[..j]))
    case None =>
      var n := FillCount(students, rows, pins);
      Chart(HonouredPins(rows, pins) + Zip(FreeSeats(rows, pins)[..n], Pool(students, rows, pins)[..n]),
            n + |pins|, Diagnostics(rows, pins))
  }

  // ---------------------------------------------------------------------------
  // Lemmas about the pieces
  // ---------------------------------------------------------------------------

  /** The pin list and its dictionary agree: each pin's key maps to its name,
      and every key is some pin's. */
  lemma {:induction false} PinMapLookup(pins: seq<Pin>)
    requires DistinctCoords(pins)
    ensures forall i :: 0 <= i < |pins| ==> pins[i].0 in PinMap(pins) && PinMap(pins)[pins[i].0] == pins[i].1
    ensures forall c :: c in PinMap(pins) ==> exists i :: 0 <= i < |pins| && pins[i].0 == c
  {
    if pins != [] {
      var init := pins[..|pins| - 1];
      PinMapLookup(init);
      forall i | 0 <= i < |pins|
        ensures pins[i].0 in PinMap(pins) && PinMap(pins)[pins[i].0] == pins[i].1
      {
        if i < |pins| - 1 {
          assert init[i] == pins[i];
        }
      }
      forall c | c in PinMap(pins)
        ensures exists i :: 0 <= i < |pins| && pins[i].0 == c
      {
        if c != pins[|pins| - 1].0 {
          assert c in PinMap(init);
          var i :| 0 <= i < |init| && init[i].0 == c;
          assert pins[i] == init[i];
        }
      }
    }
  }

  /** The names used by the accepted pins are exactly the names of the pins
      whose verdict is Accepted. */
  lemma AcceptedNames(rows: seq<Row>, pins: seq<Pin>, x: string)
    requires DistinctCoords(pins)
    ensures x in HonouredPins(rows, pins).Values <==>
            exists i :: 0 <= i < |pins| && pins[i].1 == x && PinVerdict(rows, pins[i].0) == Accepted
  {
    PinMapLookup(pins);
    var acc := HonouredPins(rows, pins);
    if x in acc.Values {
      var c :| c in acc && acc[c] == x;
      var i :| 0 <= i < |pins| && pins[i].0 == c;
    }
    if exists i :: 0 <= i < |pins| && pins[i].1 == x && PinVerdict(rows, pins[i].0) == Accepted {
      var i :| 0 <= i < |pins| && pins[i].1 == x && PinVerdict(rows, pins[i].0) == Accepted;
      assert pins[i].0 in acc;
    }
  }

  /** Every error a pin raises is in the reported list. */
  lemma {:induction false} DiagnosticsComplete(rows: seq<Row>, pins: seq<Pin>, i: nat, d: Diagnostic)
    requires i < |pins| && d in DiagnosticOf(rows, pins[i].0)
    ensures d in Diagnostics(rows, pins)
  {
    var init := pins[..|pins| - 1];
    if i < |pins| - 1 {
      assert init[i] == pins[i];
      DiagnosticsComplete(rows, init, i, d);
    }
  }

  /** Every reported error comes from some pin. */
  lemma {:induction false} DiagnosticsSound(rows: seq<Row>, pins: seq<Pin>, d: Diagnostic)
    requires d in Diagnostics(rows, pins)
    ensures exists i :: 0 <= i < |pins| && d in DiagnosticOf(rows, pins[i].0)
  {
    var init := pins[..|pins| - 1];
    if d in Diagnostics(rows, init) {
      DiagnosticsSound(rows, init, d);
      var i :| 0 <= i < |init| && d in DiagnosticOf(rows, init[i].0);
      assert init[i] == pins[i];
    }
  }

  /** Filtering splits over a concatenated roster, so the pool keeps roster order. */
  lemma {:induction false} RemainingConcat(a: seq<string>, b: seq<string>, used: set<string>)
    ensures Remaining(a + b, used) == Remaining(a, used) + Remaining(b, used)
  {
    if a != [] {
      assert (a + b)[0] == a[0] && (a + b)[1..] == a[1..] + b;
      RemainingConcat(a[1..], b, used);
    } else {
      assert a + b == b;
    }
  }

  /** A roster without repeated names gives a pool without repeated names. */
  lemma {:induction false} RemainingNoDuplicates(students: seq<string>, used: set<string>)
    requires NoDuplicates(students)
    ensures NoDuplicates(Remaining(students, used))
  {
    if students != [] {
      var tail := students[1..];
      assert NoDuplicates(tail) by {
        forall i, j | 0 <= i < j < |tail| ensures tail[i] != tail[j] {
          assert tail[i] == students[i + 1] && tail[j] == students[j + 1];
        }
      }
      RemainingNoDuplicates(tail, used);
      assert students[0] !in tail by {
        forall j | 0 <= j < |tail| ensures tail[j] != students[0] {
          assert tail[j] == students[j + 1];
        }
      }
    }
  }

  /** Desk `d + 1` of row `r` holds seats `2d + 1` and `2d + 2`: only the odd
      one can be visited, and only when it is not pinned. */
  lemma FreeInRowDesk(r: int, d: nat, pinned: set<Coord>)
    ensures FreeInRow(r, 2 * d + 2, pinned) ==
            FreeInRow(r, 2 * d, pinned) + (if (r, 2 * d + 1) !in pinned then [(r, 2 * d + 1)] else [])
  {
    assert (2 * d + 1) % 2 == 1 && (2 * d + 2) % 2 == 0;
    assert FreeInRow(r, 2 * d + 2, pinned) == FreeInRow(r, 2 * d + 1, pinned);
  }

  /** The seats of one row that auto-fill visits and may take: odd, in range, not pinned. */
  lemma {:induction false} FreeInRowMembers(r: int, hi: int, pinned: set<Coord>, c: Coord)
    ensures c in FreeInRow(r, hi, pinned) <==>
            c.0 == r && 1 <= c.1 <= hi && c.1 % 2 == 1 && c !in pinned
    decreases hi
  {
    if hi >= 1 {
      FreeInRowMembers(r, hi - 1, pinned, c);
    }
  }

  /** Within a row the visited seats ascend. */
  lemma {:induction false} FreeInRowAscending(r: int, hi: int, pinned: set<Coord>)
    ensures forall a, b :: 0 <= a < b < |FreeInRow(r, hi, pinned)| ==>
              FreeInRow(r, hi, pinned)[a].0 == r && FreeInRow(r, hi, pinned)[a].1 < FreeInRow(r, hi, pinned)[b].1
    ensures forall a :: 0 <= a < |FreeInRow(r, hi, pinned)| ==>
              FreeInRow(r, hi, pinned)[a].0 == r && FreeInRow(r, hi, pinned)[a].1 <= hi
    decreases hi
  {
    if hi >= 1 {
      FreeInRowAscending(r, hi - 1, pinned);
      var prev := FreeInRow(r, hi - 1, pinned);
      var all := FreeInRow(r, hi, pinned);
      var tail := if hi % 2 == 1 && (r, hi) !in pinned then [(r, hi)] else [];
      assert all == prev + tail;
      forall a, b | 0 <= a < b < |all| ensures all[a].0 == r && all[a].1 < all[b].1 {
        assert all[a] == prev[a];
        if b < |prev| { assert all[b] == prev[b]; } else { assert all[b] == (r, hi); }
      }
      forall a | 0 <= a < |all| ensures all[a].0 == r && all[a].1 <= hi {
        if a < |prev| { assert all[a] == prev[a]; }
      }
      assert forall a, b :: 0 <= a < b < |all| ==> all[a].0 == r && all[a].1 < all[b].1;
    } else {
      assert FreeInRow(r, hi, pinned) == [];
    }
  }

  /** The seats auto-fill may take in rows 1 to `i`. */
  lemma {:induction false} FreeRowsMembers(rows: seq<Row>, i: nat, pinned: set<Coord>, c: Coord)
    requires i <= |rows|
    ensures c in FreeRows(rows, i, pinned) <==>
            1 <= c.0 <= i && 1 <= c.1 <= SeatCount(rows[c.0 - 1]) && c.1 % 2 == 1 && c !in pinned
  {
    if i > 0 {
      FreeRowsMembers(rows, i - 1, pinned, c);
      FreeInRowMembers(i, SeatCount(rows[i - 1]), pinned, c);
    }
  }

  /** Auto-fill visits seats in row-major order, each once. */
  lemma {:induction false} FreeRowsRowMajor(rows: seq<Row>, i: nat, pinned: set<Coord>)
    requires i <= |rows|
    ensures forall a, b :: 0 <= a < b < |FreeRows(rows, i, pinned)| ==>
              Before(FreeRows(rows, i, pinned)[a], FreeRows(rows, i, pinned)[b])
    ensures forall a :: 0 <= a < |FreeRows(rows, i, pinned)| ==> 1 <= FreeRows(rows, i, pinned)[a].0 <= i
  {
    if i > 0 {
      var prev := FreeRows(rows, i - 1, pinned);
      var last := FreeInRow(i, SeatCount(rows[i - 1]), pinned);
      FreeRowsRowMajor(rows, i - 1, pinned);
      FreeInRowAscending(i, SeatCount(rows[i - 1]), pinned);
      var all := prev + last;
      forall a, b | 0 <= a < b < |all| ensures Before(all[a], all[b]) {
        if b < |prev| {
          assert all[a] == prev[a] && all[b] == prev[b];
        } else if a < |prev| {
          assert all[a] == prev[a] && all[b] == last[b - |prev|];
        } else {
          assert all[a] == last[a - |prev|] && all[b] == last[b - |prev|];
        }
      }
      forall a | 0 <= a < |all| ensures 1 <= all[a].0 <= i {
        if a < |prev| { assert all[a] == prev[a]; } else { assert all[a] == last[a - |prev|]; }
      }
    }
  }

  /** Seats listed in row-major order are pairwise distinct. */
  lemma RowMajorDistinct(s: seq<Coord>)
    requires forall a, b :: 0 <= a < b < |s| ==> Before(s[a], s[b])
    ensures NoDuplicates(s)
  {
  }

  /** One more seat and name extend the zipped map by that entry. */
  lemma ZipSnoc(coords: seq<Coord>, names: seq<string>, c: Coord, x: string)
    requires |coords| == |names|
    ensures Zip(coords + [c], names + [x]) == Zip(coords, names)[c := x]
  {
    assert (coords + [c])[..|coords|] == coords && (names + [x])[..|names|] == names;
  }

  /** With distinct seats, the zipped map gives the k-th seat the k-th name. */
  lemma {:induction false} ZipLookup(coords: seq<Coord>, names: seq<string>)
    requires |coords| == |names| && NoDuplicates(coords)
    ensures forall k :: 0 <= k < |coords| ==> Zip(coords, names)[coords[k]] == names[k]
  {
    if coords != [] {
      var n := |coords| - 1;
      assert NoDuplicates(coords[..n]);
      ZipLookup(coords[..n], names[..n]);
      forall k | 0 <= k < n ensures Zip(coords, names)[coords[k]] == names[k] {
        assert coords[..n][k] == coords[k] && names[..n][k] == names[k];
      }
    }
  }

  /** Adding a new key adds its value to the values. */
  lemma MapInsertValues(m: map<Coord, string>, c: Coord, v: string)
    requires c !in m
    ensures m[c := v].Values == m.Values + {v}
  {
    forall x | x in m.Values ensures x in m[c := v].Values {
      var d :| d in m && m[d] == x;
      assert m[c := v][d] == x;
    }
    assert m[c := v][c] == v;
  }
}

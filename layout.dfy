/** Room layouts: a room is a list of rows, a row a list of items, and only
    desks carry seats (two each, numbered left to right from 1). */
module Layout {

  /** One item of a row. The program stores items as strings: "desk" seats two,
      "gap" is an aisle; any other string is kept as `Other` and seats nobody.
      Rows read from strings by `ParseRow` never hold `Other("desk")` or `Other("gap")`. */
  datatype Slot = Desk | Gap | Other(text: string)

  type Row = seq<Slot>

  /** The item a string stands for: only the exact string "desk" is a desk. */
  function SlotOf(item: string): (s: Slot)
    ensures s == Desk <==> item == "desk"
    ensures s == Gap <==> item == "gap"
    ensures s.Other? ==> s.text == item && item != "desk" && item != "gap"
  {
    if item == "desk" then Desk else if item == "gap" then Gap else Other(item)
  }

  /** A row as the program stores it, a list of strings, read item by item. */
  function ParseRow(items: seq<string>): (row: Row)
    ensures |row| == |items|
    ensures forall i :: 0 <= i < |row| ==> row[i] == SlotOf(items[i])
  {
    if items == [] then [] else [SlotOf(items[0])] + ParseRow(items[1..])
  }

  /** On the strings themselves: a row seats two for every item equal to "desk". */
  lemma {:induction false} ParsedSeatCount(items: seq<string>)
    ensures SeatCount(ParseRow(items)) == 2 * multiset(items)["desk"]
  {
    if items != [] {
      var row := ParseRow(items);
      ParsedSeatCount(items[1..]);
      assert row[1..] == ParseRow(items[1..]);
      assert items == [items[0]] + items[1..];
      assert multiset(items) == multiset([items[0]]) + multiset(items[1..]);
    }
  }

  /** Number of seats in a row: two for every desk, none for anything else. */
  function SeatCount(row: Row): (n: nat)
    ensures n % 2 == 0
    ensures n <= 2 * |row|
  {
    if row == [] then 0 else (if row[0] == Desk then 2 else 0) + SeatCount(row[1..])
  }

  /** Number of seats in a room: the seat counts of its rows added up. */
  function TotalSeats(rows: seq<Row>): (n: nat)
    ensures n % 2 == 0
    ensures n <= 2 * Items(rows)
  {
    if rows == [] then 0 else TotalSeats(rows[..|rows| - 1]) + SeatCount(rows[|rows| - 1])
  }

  /** Number of items in a room, desks and gaps alike. */
  function Items(rows: seq<Row>): (n: nat)
  {
    if rows == [] then 0 else Items(rows[..|rows| - 1]) + |rows[|rows| - 1]|
  }

  /** The seat count is twice the number of desks in the row, whatever their order. */
  lemma {:induction false} SeatCountIsTwiceDesks(row: Row)
    ensures SeatCount(row) == 2 * multiset(row)[Desk]
  {
    if row != [] {
      assert row == [row[0]] + row[1..];
      assert multiset(row) == multiset([row[0]]) + multiset(row[1..]);
      SeatCountIsTwiceDesks(row[1..]);
    }
  }

  /** Seat counts add up over the parts of a row. */
  lemma {:induction false} SeatCountConcat(a: Row, b: Row)
    ensures SeatCount(a + b) == SeatCount(a) + SeatCount(b)
  {
    SeatCountIsTwiceDesks(a);
    SeatCountIsTwiceDesks(b);
    SeatCountIsTwiceDesks(a + b);
    assert multiset(a + b) == multiset(a) + multiset(b);
  }

  /** A gap, or any item that is not a desk, adds no seat wherever it stands. */
  lemma {:induction false} NonDeskAddsNoSeat(a: Row, s: Slot, b: Row)
    requires s != Desk
    ensures SeatCount(a + [s] + b) == SeatCount(a + b)
  {
    SeatCountConcat(a + [s], b);
    SeatCountConcat(a, [s]);
    SeatCountConcat(a, b);
    assert [s][1..] == [];
  }

  /** A desk adds exactly two seats wherever it stands. */
  lemma {:induction false} DeskAddsTwoSeats(a: Row, b: Row)
    ensures SeatCount(a + [Desk] + b) == SeatCount(a + b) + 2
  {
    SeatCountConcat(a + [Desk], b);
    SeatCountConcat(a, [Desk]);
    SeatCountConcat(a, b);
    assert [Desk][1..] == [];
  }

  /** A row seats two per item exactly when every item in it is a desk. */
  lemma {:induction false} FullRowIsAllDesks(row: Row)
    ensures SeatCount(row) == 2 * |row| <==> forall i :: 0 <= i < |row| ==> row[i] == Desk
  {
    if row != [] {
      FullRowIsAllDesks(row[1..]);
      if forall i :: 0 <= i < |row| - 1 ==> row[1..][i] == Desk {
        assert forall i :: 1 <= i < |row| ==> row[i] == row[1..][i - 1];
      }
    }
  }

  /** A front row of the first auditorium: five desks and two gaps, ten seats. */
  lemma FrontRowOfFirstAuditorium()
    ensures SeatCount([Desk, Desk, Gap, Desk, Desk, Gap, Desk]) == 10
  {
    var row := [Desk, Desk, Gap, Desk, Desk, Gap, Desk];
    assert row[1..] == [Desk, Gap, Desk, Desk, Gap, Desk];
    assert row[2..] == [Gap, Desk, Desk, Gap, Desk];
    assert row[3..] == [Desk, Desk, Gap, Desk];
    assert row[4..] == [Desk, Gap, Desk];
    assert row[5..] == [Gap, Desk];
    assert row[6..] == [Desk];
  }
}

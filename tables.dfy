/** The rows of the two tables of car_rental.db, as created by init_db, and the
    two whole-table edits the program issues against Cars: an UPDATE of the
    availability column and a DELETE, both selected by `WHERE id = ?`. */
module Tables {

  datatype Option<T> = None | Some(value: T)

  /** A calendar month: the value strftime('%m', rental_date) extracts. */
  type Month = m: int | 1 <= m <= 12 witness 1

  /** A day of the month; which days a month really has is not modelled. */
  type Day = d: int | 1 <= d <= 31 witness 1

  /** A DATE value as the date picker hands it to the INSERT. */
  datatype Date = Date(year: int, month: Month, day: Day)

  /** The two choices of the "Availability" and "New Status" select boxes. */
  datatype Status = Available | NotAvailable

  /** A row of Cars(id, brand, model, year, availability); availability is an INTEGER column. */
  datatype Car = Car(id: int, brand: string, model: string, year: int, availability: int)

  /** A row of Rentals(id, car_id, rental_date). car_id is not checked against Cars:
      the schema declares a FOREIGN KEY, but sqlite3 enforces foreign keys only after
      `PRAGMA foreign_keys = ON`, which the program never issues, so a DELETE of a
      rented car goes through and leaves this row's car_id naming no car. */
  datatype Rental = Rental(id: int, carId: int, rentalDate: Date)

  /** The INTEGER written for a status: 1 for "Available", 0 for anything else. */
  function AvailabilityOf(s: Status): (v: int)
    ensures v == 0 || v == 1
    ensures v == 1 <==> s == Available
  {
    if s == Available then 1 else 0
  }

  /** Rows in table order have strictly ascending ids, as an AUTOINCREMENT key gives them. */
  ghost predicate CarIdsAscending(cars: seq<Car>) {
    forall i, j :: 0 <= i < j < |cars| ==> cars[i].id < cars[j].id
  }

  /** No two rows share an id: what the PRIMARY KEY guarantees. */
  ghost predicate UniqueIds(cars: seq<Car>) {
    forall i, j :: 0 <= i < j < |cars| ==> cars[i].id != cars[j].id
  }

  /** Every stored availability is 0 or 1. */
  ghost predicate FlagsAreBits(cars: seq<Car>) {
    forall c :: c in cars ==> c.availability == 0 || c.availability == 1
  }

  /** Cars after `UPDATE Cars SET availability = v WHERE id = carId`. */
  function SetAvailability(cars: seq<Car>, carId: int, v: int): (r: seq<Car>)
    ensures |r| == |cars|
    // the rows matching the WHERE clause now hold v, the others keep their flag
    ensures forall i :: 0 <= i < |r| ==>
      r[i].availability == (if cars[i].id == carId then v else cars[i].availability)
    // no other column of any row changes
    ensures forall i :: 0 <= i < |r| ==>
      r[i] == cars[i].(availability := r[i].availability)
  {
    if cars == [] then []
    else
      var head := if cars[0].id == carId then cars[0].(availability := v) else cars[0];
      [head] + SetAvailability(cars[1..], carId, v)
  }

  /** When ids are unique, the UPDATE touches exactly the one row that has the id. */
  lemma SetAvailabilityAt(cars: seq<Car>, i: nat, v: int)
    requires UniqueIds(cars) && i < |cars|
    ensures SetAvailability(cars, cars[i].id, v) == cars[i := cars[i].(availability := v)]
  {
  }

  /** Overwriting one row's availability keeps every id in place and adds no other row. */
  lemma UpdateOneRow(cars: seq<Car>, i: nat, v: int)
    requires i < |cars|
    ensures forall j :: 0 <= j < |cars| ==> cars[i := cars[i].(availability := v)][j].id == cars[j].id
    ensures forall c :: c in cars[i := cars[i].(availability := v)] ==>
      c in cars || c == cars[i].(availability := v)
  {
    var r := cars[i := cars[i].(availability := v)];
    forall c | c in r ensures c in cars || c == cars[i].(availability := v) {
      var j :| 0 <= j < |r| && r[j] == c;
      if j != i { assert r[j] == cars[j]; }
    }
  }

  /** An UPDATE whose WHERE clause matches no row leaves the table as it was. */
  lemma SetAvailabilityMissing(cars: seq<Car>, carId: int, v: int)
    requires forall c :: c in cars ==> c.id != carId
    ensures SetAvailability(cars, carId, v) == cars
  {
  }

  /** Cars after `DELETE FROM Cars WHERE id = carId`, in table order. */
  function Without(cars: seq<Car>, carId: int): (r: seq<Car>)
    // exactly the rows with another id survive
    ensures forall c :: c in r <==> c in cars && c.id != carId
    ensures |r| <= |cars|
    ensures CarIdsAscending(cars) ==> CarIdsAscending(r)
  {
    if cars == [] then []
    else
      var rest := Without(cars[1..], carId);
      AscendingTail(cars);
      if cars[0].id == carId then rest
      else
        AscendingInFront(cars[0], rest);
        [cars[0]] + rest
  }

  /** The rows after the first of an ascending table are ascending and all above the first. */
  lemma AscendingTail(cars: seq<Car>)
    requires cars != []
    ensures CarIdsAscending(cars) ==> CarIdsAscending(cars[1..])
    ensures CarIdsAscending(cars) ==> forall c :: c in cars[1..] ==> cars[0].id < c.id
  {
    if CarIdsAscending(cars) {
      forall c | c in cars[1..] ensures cars[0].id < c.id {
        var j :| 0 <= j < |cars[1..]| && cars[1..][j] == c;
        assert cars[j + 1] == c;
      }
    }
  }

  /** A row below every row of an ascending table can go in front of it. */
  lemma AscendingInFront(c: Car, cars: seq<Car>)
    ensures CarIdsAscending(cars) && (forall x :: x in cars ==> c.id < x.id) ==> CarIdsAscending([c] + cars)
  {
    if CarIdsAscending(cars) && forall x :: x in cars ==> c.id < x.id {
      var s := [c] + cars;
      forall i, j | 0 <= i < j < |s| ensures s[i].id < s[j].id {
        if i == 0 { assert s[j] in cars; } else { assert s[i] == cars[i - 1] && s[j] == cars[j - 1]; }
      }
    }
  }

  /** With unique ids, the DELETE removes exactly the one row that has the id. */
  lemma {:induction false} WithoutAt(cars: seq<Car>, i: nat)
    requires UniqueIds(cars) && i < |cars|
    ensures Without(cars, cars[i].id) == cars[..i] + cars[i + 1..]
  {
    var tail := cars[1..];
    UniqueTail(cars);
    if i == 0 {
      WithoutMissing(tail, cars[0].id);
    } else {
      assert cars[0].id != cars[i].id;
      assert tail[i - 1] == cars[i];
      WithoutAt(tail, i - 1);
      assert [cars[0]] + tail[..i - 1] == cars[..i];
      assert tail[i..] == cars[i + 1..];
    }
  }

  /** The rows after the first of a table with unique ids have unique ids, none of them the first's. */
  lemma UniqueTail(cars: seq<Car>)
    requires cars != []
    ensures UniqueIds(cars) ==> UniqueIds(cars[1..])
    ensures UniqueIds(cars) ==> forall c :: c in cars[1..] ==> c.id != cars[0].id
  {
  }

  /** A DELETE whose WHERE clause matches no row leaves the table as it was. */
  lemma {:induction false} WithoutMissing(cars: seq<Car>, carId: int)
    requires forall c :: c in cars ==> c.id != carId
    ensures Without(cars, carId) == cars
  {
    if cars != [] {
      assert cars[0] in cars;
      WithoutMissing(cars[1..], carId);
      assert [cars[0]] + cars[1..] == cars;
    }
  }
}

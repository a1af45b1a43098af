/** The car_rental.db database and the four statements the "Manage Cars" and
    "Manage Rentals" pages run against it: Add Car, Update Car, Delete Car and
    Rent Car. */
module CarRental {
  import opened Tables

  /** The Cars and Rentals tables, with the next id each AUTOINCREMENT key will
      hand out (SQLite keeps these in sqlite_sequence). */
  class Database {
    var cars: seq<Car>
    var rentals: seq<Rental>
    var nextCarId: int
    var nextRentalId: int
    /** Every car id ever handed out, including those of deleted cars. */
    ghost var issuedCarIds: set<int>

    /** The schema's invariants: ascending unique ids below the counters, no id
        issued twice, and availability only ever 0 or 1. */
    ghost predicate Valid()
      reads this
    {
      && 1 <= nextCarId
      && 1 <= nextRentalId
      && CarIdsAscending(cars)
      && (forall c :: c in cars ==> c.id in issuedCarIds)
      && (forall k :: k in issuedCarIds ==> 1 <= k < nextCarId)
      && FlagsAreBits(cars)
      && (forall i, j :: 0 <= i < j < |rentals| ==> rentals[i].id < rentals[j].id)
      && (forall r :: r in rentals ==> 1 <= r.id < nextRentalId)
    }

    /** init_db on a fresh file: both tables created empty. */
    constructor ()
      ensures Valid()
      ensures cars == [] && rentals == []
      ensures nextCarId == 1 && nextRentalId == 1 && issuedCarIds == {}
    {
      cars, rentals := [], [];
      nextCarId, nextRentalId := 1, 1;
      issuedCarIds := {};
    }

    /** Locates the Cars row that `WHERE id = carId` selects. */
    method FindCar(carId: int) returns (index: Option<nat>)
      ensures index.Some? ==> index.value < |cars| && cars[index.value].id == carId
      ensures index.None? ==> forall c :: c in cars ==> c.id != carId
    {
      var i := 0;
      while i < |cars|
        invariant i <= |cars|
        invariant forall k :: 0 <= k < i ==> cars[k].id != carId
      {
        if cars[i].id == carId {
          return Some(i);
        }
        i := i + 1;
      }
      return None;
    }

    /** `SELECT availability FROM Cars WHERE id = carId`, first row if any. */
    method Availability(carId: int) returns (a: Option<int>)
      requires Valid()
      ensures a.None? <==> forall c :: c in cars ==> c.id != carId
      ensures a.Some? ==> a.value == 0 || a.value == 1
      ensures a.Some? ==> forall c :: c in cars && c.id == carId ==> c.availability == a.value
    {
      var index := FindCar(carId);
      if index.Some? {
        var i := index.value;
        forall c | c in cars && c.id == carId ensures c.availability == cars[i].availability {
          var j :| 0 <= j < |cars| && cars[j] == c;
          assert j == i;
        }
        a := Some(cars[i].availability);
      } else {
        a := None;
      }
    }

    /** `UPDATE Cars SET availability = v WHERE id = carId`: no row changes when the
        id is absent. */
    method WriteAvailability(carId: int, v: int)
      requires Valid()
      requires v == 0 || v == 1
      modifies this
      ensures Valid()
      ensures cars == SetAvailability(old(cars), carId, v)
      ensures rentals == old(rentals)
      ensures nextCarId == old(nextCarId) && nextRentalId == old(nextRentalId)
      ensures issuedCarIds == old(issuedCarIds)
    {
      var index := FindCar(carId);
      if index.Some? {
        var i := index.value;
        SetAvailabilityAt(cars, i, v);
        UpdateOneRow(cars, i, v);
        cars := cars[i := cars[i].(availability := v)];
      } else {
        SetAvailabilityMissing(cars, carId, v);
      }
    }

    /** Add Car: inserts (brand, model, year, 1 or 0) only when brand and model are
        both non-empty; otherwise nothing is written. Returns the new id. */
    method AddCar(brand: string, model: string, year: int, status: Status) returns (id: Option<int>)
      requires Valid()
      modifies this
      ensures Valid()
      ensures id.Some? <==> brand != "" && model != ""
      ensures id.Some? ==>
        && id.value == old(nextCarId)
        && id.value !in old(issuedCarIds)
        && (forall c :: c in old(cars) ==> c.id < id.value)
        && cars == old(cars) + [Car(id.value, brand, model, year, AvailabilityOf(status))]
        && nextCarId == old(nextCarId) + 1
        && issuedCarIds == old(issuedCarIds) + {id.value}
        && rentals == old(rentals) && nextRentalId == old(nextRentalId)
      ensures id.None? ==> unchanged(this)
    {
      if brand != "" && model != "" {
        id := Some(nextCarId);
        cars := cars + [Car(nextCarId, brand, model, year, AvailabilityOf(status))];
        issuedCarIds := issuedCarIds + {nextCarId};
        nextCarId := nextCarId + 1;
      } else {
        id := None;
      }
    }

    /** Update Car: overwrites the availability of the car with the given id; a
        missing id changes nothing, and Rentals is never touched. */
    method UpdateCar(carId: int, status: Status)
      requires Valid()
      modifies this
      ensures Valid()
      ensures cars == SetAvailability(old(cars), carId, AvailabilityOf(status))
      ensures rentals == old(rentals)
      ensures nextCarId == old(nextCarId) && nextRentalId == old(nextRentalId)
      ensures issuedCarIds == old(issuedCarIds)
    {
      WriteAvailability(carId, AvailabilityOf(status));
    }

    /** Delete Car: removes the car with the given id; a missing id changes nothing.
        Rentals rows that name the car stay, so their car_id no longer resolves. */
    method DeleteCar(carId: int)
      requires Valid()
      modifies this
      ensures Valid()
      ensures cars == Without(old(cars), carId)
      ensures rentals == old(rentals)
      ensures nextCarId == old(nextCarId) && nextRentalId == old(nextRentalId)
      ensures issuedCarIds == old(issuedCarIds)
    {
      var index := FindCar(carId);
      if index.Some? {
        var i := index.value;
        WithoutAt(cars, i);
        cars := cars[..i] + cars[i + 1..];
      } else {
        WithoutMissing(cars, carId);
      }
    }

    /** Rent Car: reads the car's availability; only when the car exists and the
        value is 1 does it insert a Rentals row (fresh id, carId, date) and then set
        the availability to 0. Otherwise neither table changes. */
    method RentCar(carId: int, date: Date) returns (rentalId: Option<int>)
      requires Valid()
      modifies this
      ensures Valid()
      ensures rentalId.Some? <==> exists c :: c in old(cars) && c.id == carId && c.availability == 1
      ensures rentalId.Some? ==>
        && rentalId.value == old(nextRentalId)
        && rentals == old(rentals) + [Rental(rentalId.value, carId, date)]
        && nextRentalId == old(nextRentalId) + 1
        && cars == SetAvailability(old(cars), carId, 0)
        && nextCarId == old(nextCarId) && issuedCarIds == old(issuedCarIds)
      ensures rentalId.None? ==> unchanged(this)
    {
      var available := Availability(carId);
      if available == Some(1) {
        rentalId := Some(nextRentalId);
        rentals := rentals + [Rental(nextRentalId, carId, date)];
        nextRentalId := nextRentalId + 1;
        WriteAvailability(carId, 0);
      } else {
        rentalId := None;
      }
    }
  }

  /** Renting the same car twice in a row: the first attempt succeeds exactly when
      the car exists and is available, the second attempt always fails, and both
      tables end as the first attempt left them. */
  method RentTwice(db: Database, carId: int, first: Date, second: Date)
    returns (r1: Option<int>, r2: Option<int>)
    requires db.Valid()
    modifies db
    ensures db.Valid()
    ensures r1.Some? <==> exists c :: c in old(db.cars) && c.id == carId && c.availability == 1
    ensures r2.None?
    ensures db.rentals == old(db.rentals) + (if r1.Some? then [Rental(r1.value, carId, first)] else [])
    ensures db.cars == (if r1.Some? then SetAvailability(old(db.cars), carId, 0) else old(db.cars))
    ensures |db.rentals| <= |old(db.rentals)| + 1
  {
    r1 := db.RentCar(carId, first);
    if r1.Some? {
      forall c | c in db.cars && c.id == carId ensures c.availability == 0 {
        var j :| 0 <= j < |db.cars| && db.cars[j] == c;
      }
    }
    r2 := db.RentCar(carId, second);
  }

  /** The administrator's override: marking a rented car "Available" lets it be
      rented again, and the earlier Rentals rows are kept as they were. */
  method OverrideThenRent(db: Database, carId: int, date: Date) returns (r: Option<int>)
    requires db.Valid()
    requires exists c :: c in db.cars && c.id == carId
    modifies db
    ensures db.Valid()
    ensures r.Some?
    ensures |db.rentals| == |old(db.rentals)| + 1
    ensures db.rentals[..|old(db.rentals)|] == old(db.rentals)
  {
    db.UpdateCar(carId, Available);
    ghost var c :| c in old(db.cars) && c.id == carId;
    ghost var j :| 0 <= j < |old(db.cars)| && old(db.cars)[j] == c;
    assert db.cars[j].id == carId && db.cars[j].availability == 1;
    assert db.cars[j] in db.cars;
    r := db.RentCar(carId, date);
  }

  /** Deleting a rented car leaves its Rentals row behind: a car_id that no longer
      names any car. */
  method RentThenDelete(db: Database, carId: int, date: Date) returns (r: Option<int>)
    requires db.Valid()
    modifies db
    ensures db.Valid()
    ensures r.Some? ==> exists x :: x in db.rentals && x.carId == carId
    ensures forall c :: c in db.cars ==> c.id != carId
  {
    r := db.RentCar(carId, date);
    db.DeleteCar(carId);
    if r.Some? {
      assert db.rentals[|db.rentals| - 1].carId == carId;
    }
  }
}

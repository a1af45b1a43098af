/** The two read-only reports of the "View Insights" page: rentals per brand
    (Rentals JOIN Cars, GROUP BY brand) and rentals per calendar month
    (GROUP BY strftime('%m', rental_date), ORDER BY month). */
module Insights {
  import opened Tables

  /** One row of a `GROUP BY key` query selecting `key, COUNT(*)`. */
  datatype Group<K> = Group(key: K, count: nat)

  /** Rows have pairwise different keys: one row per group. */
  ghost predicate DistinctKeys<K>(rows: seq<Group<K>>) {
    forall i, j :: 0 <= i < j < |rows| ==> rows[i].key != rows[j].key
  }

  /** No group is empty: COUNT(*) of a group that exists is at least 1. */
  ghost predicate PositiveCounts<K>(rows: seq<Group<K>>) {
    forall g :: g in rows ==> g.count > 0
  }

  /** Keys strictly ascending, as ORDER BY on distinct keys leaves them. */
  ghost predicate StrictlyAscending(rows: seq<Group<int>>) {
    forall i, j :: 0 <= i < j < |rows| ==> rows[i].key < rows[j].key
  }

  /** The sum of the COUNT(*) column. */
  function SumCounts<K>(rows: seq<Group<K>>): nat {
    if rows == [] then 0 else rows[0].count + SumCounts(rows[1..])
  }

  /** The count the result reports for key k, 0 when no row has that key:
      the result read as a map from key to count. */
  function CountFor<K(==)>(rows: seq<Group<K>>, k: K): nat {
    if rows == [] then 0
    else if rows[0].key == k then rows[0].count
    else CountFor(rows[1..], k)
  }

  /** The keys that have a row. */
  ghost function KeySet<K>(rows: seq<Group<K>>): set<K> {
    set g | g in rows :: g.key
  }

  /** Adds one occurrence of k: increments its row, or appends a row (k, 1). */
  function Bump<K(==, !new)>(rows: seq<Group<K>>, k: K): (r: seq<Group<K>>)
    ensures forall k' :: CountFor(r, k') == CountFor(rows, k') + (if k' == k then 1 else 0)
    ensures SumCounts(r) == SumCounts(rows) + 1
    ensures KeySet(r) == KeySet(rows) + {k}
    ensures DistinctKeys(rows) ==> DistinctKeys(r)
    ensures PositiveCounts(rows) ==> PositiveCounts(r)
  {
    if rows == [] then [Group(k, 1)]
    else
      var head, tail := rows[0], rows[1..];
      assert rows == [head] + tail;
      ConsFacts(head, tail);
      if head.key == k then
        var bumped := head.(count := head.count + 1);
        ConsFacts(bumped, tail);
        [bumped] + tail
      else
        var rest := Bump(tail, k);
        ConsFacts(head, rest);
        [head] + rest
  }

  /** How the row-set notions decompose over a first row. */
  lemma ConsFacts<K>(g: Group<K>, rows: seq<Group<K>>)
    ensures KeySet([g] + rows) == {g.key} + KeySet(rows)
    ensures DistinctKeys([g] + rows) <==> g.key !in KeySet(rows) && DistinctKeys(rows)
    ensures PositiveCounts([g] + rows) <==> g.count > 0 && PositiveCounts(rows)
  {
    var s := [g] + rows;
    assert s[1..] == rows;
    if g.key !in KeySet(rows) && DistinctKeys(rows) {
      forall i, j | 0 <= i < j < |s| ensures s[i].key != s[j].key {
        if i == 0 {
          assert s[j] in rows;
        } else {
          assert rows[i - 1].key != rows[j - 1].key;
        }
      }
    }
    if DistinctKeys(s) {
      forall i, j | 0 <= i < j < |rows| ensures rows[i].key != rows[j].key {
        assert s[i + 1].key != s[j + 1].key;
      }
    }
  }

  /** GROUP BY key with COUNT(*), rows in order of first appearance (the query has
      no ORDER BY, so no order is promised). */
  function GroupCount<K(==, !new)>(keys: seq<K>): (r: seq<Group<K>>)
    ensures DistinctKeys(r) && PositiveCounts(r)
    ensures forall k :: CountFor(r, k) == multiset(keys)[k]
    ensures SumCounts(r) == |keys|
  {
    if keys == [] then []
    else
      var prefix := keys[..|keys| - 1];
      assert keys == prefix + [keys[|keys| - 1]];
      Bump(GroupCount(prefix), keys[|keys| - 1])
  }

  /** A row that is present is the one CountFor reads, when keys are distinct. */
  lemma {:induction false} CountForMember<K>(rows: seq<Group<K>>, g: Group<K>)
    requires DistinctKeys(rows) && g in rows
    ensures CountFor(rows, g.key) == g.count
  {
    ConsFacts(rows[0], rows[1..]);
    assert rows == [rows[0]] + rows[1..];
    if rows[0] != g {
      assert g.key in KeySet(rows[1..]);
      CountForMember(rows[1..], g);
    }
  }

  /** A nonzero CountFor is read from a row that is present. */
  lemma {:induction false} CountForPresent<K>(rows: seq<Group<K>>, k: K)
    requires CountFor(rows, k) > 0
    ensures Group(k, CountFor(rows, k)) in rows
  {
    if rows[0].key != k {
      CountForPresent(rows[1..], k);
    }
  }

  /** Places g in front of the first row whose key is larger. */
  function Insert(sorted: seq<Group<int>>, g: Group<int>): (r: seq<Group<int>>)
    ensures multiset(r) == multiset(sorted) + multiset{g}
    ensures SumCounts(r) == SumCounts(sorted) + g.count
  {
    if sorted == [] || g.key < sorted[0].key then [g] + sorted
    else
      assert sorted == [sorted[0]] + sorted[1..];
      [sorted[0]] + Insert(sorted[1..], g)
  }

  /** Inserting a row with a new key into a strictly ascending result keeps it
      strictly ascending. */
  lemma {:induction false} InsertAscending(sorted: seq<Group<int>>, g: Group<int>)
    requires StrictlyAscending(sorted)
    requires forall h :: h in sorted ==> h.key != g.key
    ensures StrictlyAscending(Insert(sorted, g))
  {
    if sorted == [] || g.key < sorted[0].key {
      AscendingCons(g, sorted);
    } else {
      var head, tail := sorted[0], sorted[1..];
      assert sorted == [head] + tail;
      AscendingCons(head, tail);
      InsertAscending(tail, g);
      var rest := Insert(tail, g);
      forall h | h in rest ensures head.key < h.key {
        assert h in multiset(rest);
      }
      AscendingCons(head, rest);
    }
  }

  /** How StrictlyAscending decomposes over a first row. */
  lemma AscendingCons(g: Group<int>, rows: seq<Group<int>>)
    ensures StrictlyAscending([g] + rows) <==>
      (forall h :: h in rows ==> g.key < h.key) && StrictlyAscending(rows)
    ensures StrictlyAscending(rows) && rows != [] ==>
      (g.key < rows[0].key <==> forall h :: h in rows ==> g.key < h.key)
  {
    var s := [g] + rows;
    if StrictlyAscending(s) {
      forall h | h in rows ensures g.key < h.key {
        var j :| 0 <= j < |rows| && rows[j] == h;
        assert s[0] == g && s[j + 1] == h;
        assert s[0].key < s[j + 1].key;
      }
      forall i, j | 0 <= i < j < |rows| ensures rows[i].key < rows[j].key {
        assert s[i + 1].key < s[j + 1].key;
      }
    }
    if (forall h :: h in rows ==> g.key < h.key) && StrictlyAscending(rows) {
      forall i, j | 0 <= i < j < |s| ensures s[i].key < s[j].key {
        if i == 0 { assert s[j] in rows; } else { assert s[i] == rows[i - 1] && s[j] == rows[j - 1]; }
      }
    }
    if StrictlyAscending(rows) && rows != [] && g.key < rows[0].key {
      forall h | h in rows ensures g.key < h.key {
        var j :| 0 <= j < |rows| && rows[j] == h;
        if j > 0 { assert rows[0].key < rows[j].key; }
        assert h.key == rows[j].key;
      }
    }
  }

  /** Insertion sort on the key: the ORDER BY of a grouped result. */
  function SortByKey(rows: seq<Group<int>>): (r: seq<Group<int>>)
    ensures multiset(r) == multiset(rows)
    ensures SumCounts(r) == SumCounts(rows)
  {
    if rows == [] then []
    else
      assert rows == [rows[0]] + rows[1..];
      Insert(SortByKey(rows[1..]), rows[0])
  }

  /** Sorting rows with distinct keys leaves the keys strictly ascending. */
  lemma {:induction false} SortAscending(rows: seq<Group<int>>)
    requires DistinctKeys(rows)
    ensures StrictlyAscending(SortByKey(rows))
  {
    if rows != [] {
      var tail := rows[1..];
      assert rows == [rows[0]] + tail;
      ConsFacts(rows[0], tail);
      SortAscending(tail);
      var sorted := SortByKey(tail);
      forall h | h in sorted ensures h.key != rows[0].key {
        assert h in multiset(sorted);
        assert h.key in KeySet(tail);
      }
      InsertAscending(sorted, rows[0]);
    }
  }

  // ---------------------------------------------------------------------------
  // Rentals per brand: SELECT brand, COUNT(*) FROM Rentals JOIN Cars
  //                    ON Rentals.car_id = Cars.id GROUP BY brand
  // ---------------------------------------------------------------------------

  /** The brands of the cars whose id is carId, in table order: the Cars rows one
      Rentals row joins with. */
  function BrandsWithId(cars: seq<Car>, carId: int): (r: seq<string>)
    ensures forall b :: b in r <==> exists c :: c in cars && c.id == carId && c.brand == b
    ensures (forall c :: c in cars ==> c.id != carId) ==> r == []
    ensures UniqueIds(cars) ==> |r| <= 1
  {
    if cars == [] then []
    else
      var rest := BrandsWithId(cars[1..], carId);
      assert cars == [cars[0]] + cars[1..];
      UniqueTail(cars);
      (if cars[0].id == carId then [cars[0].brand] else []) + rest
  }

  /** The brand column of the inner join, one entry per joined row, in Rentals order. */
  function JoinedBrands(cars: seq<Car>, rentals: seq<Rental>): (r: seq<string>)
    ensures forall b :: b in r <==> exists x :: x in rentals && RentedAs(cars, x, b)
    ensures UniqueIds(cars) ==> |r| <= |rentals|
  {
    if rentals == [] then []
    else
      var prefix, last := rentals[..|rentals| - 1], rentals[|rentals| - 1];
      assert rentals == prefix + [last];
      RentedAsStep(cars, prefix, last);
      var front, back := JoinedBrands(cars, prefix), BrandsWithId(cars, last.carId);
      assert forall b :: b in back <==> RentedAs(cars, last, b);
      assert forall b :: b in front <==> exists x :: x in prefix && RentedAs(cars, x, b);
      front + back
  }

  /** A brand is rented in a Rentals table with a last row iff it is rented in the
      rows before it or by that last row. */
  lemma RentedAsStep(cars: seq<Car>, prefix: seq<Rental>, last: Rental)
    ensures forall b :: (exists x :: x in prefix + [last] && RentedAs(cars, x, b)) <==>
      (exists x :: x in prefix && RentedAs(cars, x, b)) || RentedAs(cars, last, b)
  {
    forall b | exists x :: x in prefix + [last] && RentedAs(cars, x, b)
      ensures (exists x :: x in prefix && RentedAs(cars, x, b)) || RentedAs(cars, last, b)
    {
      var x :| x in prefix + [last] && RentedAs(cars, x, b);
      if x != last { assert x in prefix; }
    }
    forall b, x | x in prefix && RentedAs(cars, x, b)
      ensures exists y :: y in prefix + [last] && RentedAs(cars, y, b)
    {
      assert x in prefix + [last];
    }
    forall b | RentedAs(cars, last, b)
      ensures exists x :: x in prefix + [last] && RentedAs(cars, x, b)
    {
      assert last in prefix + [last];
    }
  }

  /** The report: one (brand, count) row per brand that occurs in the join. */
  function RentalsByBrand(cars: seq<Car>, rentals: seq<Rental>): (r: seq<Group<string>>)
    ensures DistinctKeys(r) && PositiveCounts(r)
    ensures forall g :: g in r ==> exists x :: x in rentals && RentedAs(cars, x, g.key)
  {
    var brands := JoinedBrands(cars, rentals);
    KeysOccur(GroupCount(brands), brands);
    GroupCount(brands)
  }

  /** Every key of a grouped result occurs in the grouped column. */
  lemma KeysOccur<K>(rows: seq<Group<K>>, keys: seq<K>)
    requires DistinctKeys(rows) && PositiveCounts(rows)
    requires forall k :: CountFor(rows, k) == multiset(keys)[k]
    ensures forall g :: g in rows ==> g.key in keys
  {
    forall g | g in rows ensures g.key in keys {
      CountForMember(rows, g);
      assert g.key in multiset(keys);
    }
  }

  /** A rental's car_id still names a car of brand b. */
  predicate RentedAs(cars: seq<Car>, r: Rental, b: string) {
    exists c :: c in cars && c.id == r.carId && c.brand == b
  }

  /** A rental's car_id still names some car. */
  predicate Resolves(cars: seq<Car>, r: Rental) {
    exists c :: c in cars && c.id == r.carId
  }

  /** The rentals of cars of brand b, in Rentals order. */
  function RentalsOfBrand(cars: seq<Car>, rentals: seq<Rental>, b: string): seq<Rental> {
    if rentals == [] then []
    else
      var last := rentals[|rentals| - 1];
      RentalsOfBrand(cars, rentals[..|rentals| - 1], b) + (if RentedAs(cars, last, b) then [last] else [])
  }

  /** The rentals whose car still exists: those the inner join keeps. */
  function ResolvedRentals(cars: seq<Car>, rentals: seq<Rental>): seq<Rental> {
    if rentals == [] then []
    else
      var last := rentals[|rentals| - 1];
      ResolvedRentals(cars, rentals[..|rentals| - 1]) + (if Resolves(cars, last) then [last] else [])
  }

  /** With unique car ids, the join yields one row per resolving rental, carrying
      that car's brand. */
  lemma {:induction false} JoinCounts(cars: seq<Car>, rentals: seq<Rental>)
    requires UniqueIds(cars)
    ensures forall b :: multiset(JoinedBrands(cars, rentals))[b] == |RentalsOfBrand(cars, rentals, b)|
    ensures |JoinedBrands(cars, rentals)| == |ResolvedRentals(cars, rentals)|
  {
    if rentals != [] {
      var prefix, last := rentals[..|rentals| - 1], rentals[|rentals| - 1];
      JoinCounts(cars, prefix);
      var joined := BrandsWithId(cars, last.carId);
      assert |joined| == 1 <==> Resolves(cars, last) by {
        if |joined| == 1 { assert joined[0] in joined; }
        if Resolves(cars, last) {
          var c :| c in cars && c.id == last.carId;
          assert c.brand in joined;
        }
      }
      forall b ensures multiset(joined)[b] == (if RentedAs(cars, last, b) then 1 else 0) {
        if |joined| == 1 { assert joined == [joined[0]]; }
      }
    }
  }

  /** The brand report: one row per brand with at least one rental whose car still
      exists, counting exactly those rentals; the counts add up to the rentals that
      the join keeps. */
  lemma RentalsByBrandSpec(cars: seq<Car>, rentals: seq<Rental>)
    requires UniqueIds(cars)
    ensures DistinctKeys(RentalsByBrand(cars, rentals))
    ensures forall g :: g in RentalsByBrand(cars, rentals) ==>
      0 < g.count == |RentalsOfBrand(cars, rentals, g.key)|
    ensures forall b :: RentalsOfBrand(cars, rentals, b) != [] ==>
      Group(b, |RentalsOfBrand(cars, rentals, b)|) in RentalsByBrand(cars, rentals)
    ensures SumCounts(RentalsByBrand(cars, rentals)) == |ResolvedRentals(cars, rentals)|
  {
    var report := RentalsByBrand(cars, rentals);
    JoinCounts(cars, rentals);
    forall g | g in report ensures 0 < g.count == |RentalsOfBrand(cars, rentals, g.key)| {
      CountForMember(report, g);
    }
    forall b | RentalsOfBrand(cars, rentals, b) != []
      ensures Group(b, |RentalsOfBrand(cars, rentals, b)|) in report
    {
      CountForPresent(report, b);
    }
  }

  // ---------------------------------------------------------------------------
  // Rentals per month: SELECT strftime('%m', rental_date) AS month, COUNT(*)
  //                    FROM Rentals GROUP BY month ORDER BY month
  // ---------------------------------------------------------------------------

  /** The month column, one entry per Rentals row; years are not kept apart. */
  function MonthsOf(rentals: seq<Rental>): (ms: seq<int>)
    ensures |ms| == |rentals|
    ensures forall i :: 0 <= i < |ms| ==> ms[i] == rentals[i].rentalDate.month
    ensures forall m :: m in ms ==> 1 <= m <= 12
  {
    if rentals == [] then []
    else MonthsOf(rentals[..|rentals| - 1]) + [rentals[|rentals| - 1].rentalDate.month]
  }

  /** The report: months ascending, empty months absent. */
  function RentalsByMonth(rentals: seq<Rental>): (r: seq<Group<int>>)
    ensures StrictlyAscending(r)
    ensures SumCounts(r) == |rentals|
  {
    var grouped := GroupCount(MonthsOf(rentals));
    SortAscending(grouped);
    SortByKey(grouped)
  }

  /** The rentals dated in calendar month m of any year, in Rentals order. */
  function RentalsInMonth(rentals: seq<Rental>, m: int): seq<Rental> {
    if rentals == [] then []
    else
      var last := rentals[|rentals| - 1];
      RentalsInMonth(rentals[..|rentals| - 1], m) + (if last.rentalDate.month == m then [last] else [])
  }

  /** How often a month occurs in the month column is how many rentals fall in it. */
  lemma {:induction false} MonthCounts(rentals: seq<Rental>)
    ensures forall m :: multiset(MonthsOf(rentals))[m] == |RentalsInMonth(rentals, m)|
  {
    if rentals != [] {
      MonthCounts(rentals[..|rentals| - 1]);
    }
  }

  /** The month report: strictly ascending months in 1..12, one row per month with
      at least one rental, counting exactly those rentals; the counts add up to the
      whole Rentals table. */
  lemma RentalsByMonthSpec(rentals: seq<Rental>)
    ensures StrictlyAscending(RentalsByMonth(rentals))
    ensures forall g :: g in RentalsByMonth(rentals) ==>
      1 <= g.key <= 12 && 0 < g.count == |RentalsInMonth(rentals, g.key)|
    ensures forall m :: RentalsInMonth(rentals, m) != [] ==>
      Group(m, |RentalsInMonth(rentals, m)|) in RentalsByMonth(rentals)
    ensures SumCounts(RentalsByMonth(rentals)) == |rentals|
  {
    var grouped := GroupCount(MonthsOf(rentals));
    SortAscending(grouped);
    forall g | g in RentalsByMonth(rentals)
      ensures 1 <= g.key <= 12 && 0 < g.count == |RentalsInMonth(rentals, g.key)|
    {
      assert g in multiset(RentalsByMonth(rentals));
      MonthRow(rentals, g);
    }
    forall m | RentalsInMonth(rentals, m) != []
      ensures Group(m, |RentalsInMonth(rentals, m)|) in RentalsByMonth(rentals)
    {
      MonthPresent(rentals, m);
      assert Group(m, |RentalsInMonth(rentals, m)|) in multiset(grouped);
    }
  }

  /** A row of the grouped months counts the rentals of its month. */
  lemma MonthRow(rentals: seq<Rental>, g: Group<int>)
    requires g in GroupCount(MonthsOf(rentals))
    ensures 1 <= g.key <= 12 && 0 < g.count == |RentalsInMonth(rentals, g.key)|
  {
    var months := MonthsOf(rentals);
    CountForMember(GroupCount(months), g);
    MonthCounts(rentals);
    assert g.key in multiset(months);
    assert g.key in months;
  }

  /** A month with rentals has its row among the grouped months. */
  lemma MonthPresent(rentals: seq<Rental>, m: int)
    requires RentalsInMonth(rentals, m) != []
    ensures Group(m, |RentalsInMonth(rentals, m)|) in GroupCount(MonthsOf(rentals))
  {
    MonthCounts(rentals);
    CountForPresent(GroupCount(MonthsOf(rentals)), m);
  }

  // ---------------------------------------------------------------------------
  // How the writes of the other pages show in the reports
  // ---------------------------------------------------------------------------

  /** Changing availability never changes which brand a car_id joins with. */
  lemma {:induction false} BrandsIgnoreAvailability(cars: seq<Car>, carId: int, v: int, id: int)
    ensures BrandsWithId(SetAvailability(cars, carId, v), id) == BrandsWithId(cars, id)
  {
    if cars != [] {
      var updated := SetAvailability(cars, carId, v);
      assert updated[1..] == SetAvailability(cars[1..], carId, v);
      BrandsIgnoreAvailability(cars[1..], carId, v, id);
    }
  }

  /** An Update Car (or the availability write of Rent Car) leaves the brand report
      exactly as it was. */
  lemma {:induction false} BrandReportIgnoresAvailability(cars: seq<Car>, rentals: seq<Rental>, carId: int, v: int)
    ensures RentalsByBrand(SetAvailability(cars, carId, v), rentals) == RentalsByBrand(cars, rentals)
  {
    JoinIgnoresAvailability(cars, rentals, carId, v);
  }

  /** The join's brand column does not depend on the availability column. */
  lemma {:induction false} JoinIgnoresAvailability(cars: seq<Car>, rentals: seq<Rental>, carId: int, v: int)
    ensures JoinedBrands(SetAvailability(cars, carId, v), rentals) == JoinedBrands(cars, rentals)
  {
    if rentals != [] {
      JoinIgnoresAvailability(cars, rentals[..|rentals| - 1], carId, v);
      BrandsIgnoreAvailability(cars, carId, v, rentals[|rentals| - 1].carId);
    }
  }

  /** Appending one Rentals row, as a successful Rent Car does, adds one to the
      count of its month and leaves every other month's count as it was. */
  lemma MonthReportAfterRent(rentals: seq<Rental>, r: Rental)
    ensures forall m ::
      |RentalsInMonth(rentals + [r], m)| == |RentalsInMonth(rentals, m)| + (if m == r.rentalDate.month then 1 else 0)
    ensures Group(r.rentalDate.month, |RentalsInMonth(rentals, r.rentalDate.month)| + 1)
      in RentalsByMonth(rentals + [r])
  {
    var after := rentals + [r];
    assert after[..|after| - 1] == rentals;
    RentalsByMonthSpec(after);
  }
}

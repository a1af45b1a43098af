# AutoEasy car rental: the bookkeeping core in Dafny

AutoEasy is a Streamlit page backed by one SQLite file, `car_rental.db`. The file has two
tables. `Cars(id, brand, model, year, availability)` holds the fleet, and
`Rentals(id, car_id, rental_date)` logs rentals. Both ids are `INTEGER PRIMARY KEY AUTOINCREMENT`.
The page runs four writes against these tables: Add Car, Update Car, Delete Car and Rent Car.
It also runs two read-only reports: rentals per brand and rentals per calendar month.
This project models the tables as state and the writes as methods of one class. It models the
reports as pure functions over the table contents, and it proves what each of them does.

- `tables.dfy`, module `Tables`, holds the row types (`Car`, `Rental`, `Date` with a month in
  1..12, `Status`). It also holds the two whole-table edits selected by `WHERE id = ?`:
  `SetAvailability` for the UPDATE and `Without` for the DELETE. Lemmas show that each edit
  touches exactly the one row with that id, or nothing when no row has it.
- `database.dfy`, module `CarRental`, holds the class `Database`. Its fields are the two tables,
  the next id of each AUTOINCREMENT key, and a ghost set of every car id ever issued. `Valid()`
  is the schema invariant: ids ascend in table order, ids are never reused, and availability is
  only ever 0 or 1. Each page action is a method whose contract gives the whole new state. Three
  client methods (`RentTwice`, `OverrideThenRent`, `RentThenDelete`) derive the rental
  rules from those contracts alone.
- `insights.dfy`, module `Insights`, holds the reports. `GroupCount` models `GROUP BY key` with
  `COUNT(*)`. `SortByKey` models `ORDER BY`. `JoinedBrands` models the inner join of Rentals
  with Cars. Lemmas tie each report to independent filters of the Rentals table.

Rent Car runs a SELECT, an INSERT and an UPDATE, each on its own connection
(carlite.py:118-121). The model runs those three steps in order as one call. It
does not model interleavings.

## Model

| member | source | states |
|---|---|---|
| Tables.AvailabilityOf | carlite.py:76 | the stored flag is 0 or 1, and it is 1 exactly when the status chosen is "Available" |
| Tables.SetAvailability | carlite.py:96-97 | UPDATE ... WHERE id: every row with the id gets the new availability, every other row keeps its own, and no other column of any row changes |
| Tables.SetAvailabilityAt | carlite.py:96-97 | with unique ids the UPDATE changes exactly the one row holding the id |
| Tables.SetAvailabilityMissing | carlite.py:96-97 | an UPDATE whose id matches no row leaves Cars as it was |
| Tables.Without | carlite.py:103 | DELETE ... WHERE id: a row survives iff its id differs; ascending id order is kept |
| Tables.WithoutAt | carlite.py:103 | with unique ids the DELETE removes exactly the one row holding the id and keeps the others in order |
| Tables.WithoutMissing | carlite.py:103 | a DELETE whose id matches no row leaves Cars as it was |
| CarRental.Database.constructor | carlite.py:26-43 | init_db on a fresh file: both tables empty, both AUTOINCREMENT counters at 1, the schema invariant holds |
| CarRental.Database.FindCar | carlite.py:118 | finds the row `WHERE id = ?` selects, or reports that no row has the id |
| CarRental.Database.Availability | carlite.py:118-119 | the SELECT returns nothing iff no car has the id; otherwise it returns that car's availability, which is 0 or 1 |
| CarRental.Database.WriteAvailability | carlite.py:121 | the UPDATE statement as a step: Cars becomes SetAvailability of the old Cars; Rentals and the counters are unchanged; the invariant is kept |
| CarRental.Database.AddCar | carlite.py:72-80 | inserts iff brand and model are both non-empty; the new row has a never-issued id above every existing id, the given brand, model and year, and availability 1 iff "Available"; it is appended to Cars and nothing else changes; otherwise no field changes |
| CarRental.Database.UpdateCar | carlite.py:95-97 | Cars becomes SetAvailability(old Cars, id, flag of status); a missing id changes nothing; Rentals and the counters are untouched |
| CarRental.Database.DeleteCar | carlite.py:102-103 | Cars becomes Without(old Cars, id); a missing id changes nothing; Rentals is untouched, so orphaned car_ids can appear |
| CarRental.Database.RentCar | carlite.py:117-124 | succeeds iff a car with the id exists and its availability is 1; on success exactly one row (fresh id, car id, date) is appended to Rentals and that car's availability becomes 0, with no other change; on failure no field changes |
| CarRental.RentTwice | carlite.py:117-124 | renting the same car twice in a row: the first attempt succeeds iff the car exists and is available, the second always fails; Rentals gains exactly the first attempt's row when it succeeded and Cars has that car marked 0, and otherwise both tables are as before |
| CarRental.OverrideThenRent | carlite.py:95-124 | after an Update Car to "Available", renting that car succeeds, and every earlier Rentals row is kept unchanged |
| CarRental.RentThenDelete | carlite.py:36-124 | a rent (117-124) followed by the DELETE (103): the Rentals row remains while no car has that id any more, since the FOREIGN KEY of the schema (41) is not enforced without `PRAGMA foreign_keys = ON` |
| Insights.Bump | carlite.py:134-137 | counting one more occurrence of a key adds one to that key's count and to the total, and keeps one row per key |
| Insights.GroupCount | carlite.py:134-137 | GROUP BY with COUNT(*): one row per distinct key, every count positive, each key's count equal to its number of occurrences, counts summing to the number of input rows |
| Insights.Insert | carlite.py:157 | inserting a row gives exactly the old rows plus the new one, and the total grows by its count |
| Insights.InsertAscending | carlite.py:157 | inserting a row with a new key into a strictly ascending result keeps it strictly ascending |
| Insights.SortByKey | carlite.py:157 | ORDER BY returns the same rows (as a multiset) with the same total |
| Insights.SortAscending | carlite.py:157 | after ORDER BY, rows with distinct keys are in strictly ascending key order |
| Insights.BrandsWithId | carlite.py:136 | a Rentals row joins with exactly the brands of the cars that carry its car_id; with no such car it joins with nothing; with unique ids it joins with at most one |
| Insights.JoinedBrands | carlite.py:135-136 | the inner join's brand column: a brand appears iff some rental's car_id names a car of that brand; with unique car ids there is at most one joined row per rental (exact counts proved in Insights.JoinCounts) |
| Insights.JoinCounts | carlite.py:133-138 | with unique car ids the join yields one row per rental whose car still exists, carrying that car's brand |
| Insights.RentalsByBrand | carlite.py:133-138 | the brand report: one row per brand, every count positive, and every brand listed is the brand of some rental's car (the exact counts are proved in Insights.RentalsByBrandSpec) |
| Insights.RentalsByBrandSpec | carlite.py:133-138 | the brand report has one row per brand that has at least one rental whose car still exists; each count is exactly that brand's rental count; the counts sum to the number of rentals the join keeps |
| Insights.MonthsOf | carlite.py:154 | the extracted month column has one entry per rental, the i-th being the month of the i-th rental's date, each in 1..12 |
| Insights.RentalsByMonth | carlite.py:153-158 | the month report is strictly ascending by month and its counts sum to the size of Rentals (the per-month counts are proved in Insights.RentalsByMonthSpec) |
| Insights.MonthCounts | carlite.py:153-158 | how often a month appears in the month column equals the number of rentals dated in that month |
| Insights.RentalsByMonthSpec | carlite.py:153-158 | the month report is strictly ascending by month and has one row, with the exact count, for each month in 1..12 that has rentals; empty months are absent; the counts sum to the size of Rentals |
| Insights.BrandReportIgnoresAvailability | carlite.py:133-138 | overwriting a car's availability, as Update Car does and as the UPDATE step of Rent Car does, never changes the brand report (the Rentals row Rent Car also appends does change it) |
| Insights.MonthReportAfterRent | carlite.py:120 | the Rentals row a successful Rent Car appends adds one to its month's count and leaves every other month's count unchanged |

## Left out

- Streamlit widgets, menus, messages and the "View Cars" listing are presentation. The listing is the `cars` field itself, and its 1/0-to-label mapping is not modelled.
- The widget limits (year 1990..2030, car id at least 1) are enforced only by the input widgets, not by storage. The methods accept any year and any id.
- Connection handling and commits (`get_db_connection`, `execute_query`) are I/O. The tables are in-memory fields.
- The constructor models init_db on a new file. Reopening an existing file, where `CREATE TABLE IF NOT EXISTS` keeps the old rows, is not modelled.
- pandas DataFrames and matplotlib charts are foreign presentation libraries and are left out.
- Concurrency and crash atomicity are not modelled. The source's three statements in Rent Car run on separate connections and could interleave with another session. The model runs them in sequence as one step.
- Dates are (year, month 1..12, day 1..31). Calendar validity and the text format of the stored DATE are not modelled. Because `strftime('%m')` yields two-digit text, sorting that text matches the numeric month order the model uses.
- Ids are unbounded integers. SQLite's failure when an AUTOINCREMENT key reaches its 64-bit maximum is not modelled.
- SQLite's dynamic typing is not modelled. The availability column could hold other values if something outside this program wrote them.
- Insights.RentalsByBrandSpec: the query has no ORDER BY, so the model promises no row order. It also requires unique car ids, which the PRIMARY KEY guarantees and which `Database.Valid()` keeps.

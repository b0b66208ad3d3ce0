/**
 The persistent state of the rental application: the three tables `user`,
 `cars` and `rentals`, each a map from its integer row id to the row, plus
 the queries the route handlers issue against them and the invariant that
 links car availability to open rentals.
 */
module Database {

  datatype Option<T> = None | Some(value: T)

  /** An sqlite row id (`id` column of every table). */
  type RowId = int

  /** The hex digest produced by `hash_password`. */
  type Digest = string

  /** One day, in seconds: the unit of `timedelta(days=...)`. */
  const SecondsPerDay: int := 86400

  datatype User = User(username: string, password: Digest)

  /** `carId` is the external identifier chosen by whoever adds the car;
      the map key holding the car is its internal id. */
  datatype Car = Car(carId: string, carType: string, isAvailable: bool)

  /** The last second Python's `datetime` can hold (9999-12-31 23:59:59),
      counted from its first (0001-01-01 00:00:00). */
  const MaxDateTime: int := 315537897599

  /** A `datetime`, truncated to whole seconds since 0001-01-01 00:00:00:
      the years 1 to 9999 and nothing outside them. */
  type DateTime = t: int | 0 <= t <= MaxDateTime

  /** `carId` is the INTERNAL id of the rented car. */
  datatype Rental = Rental(userId: RowId, carId: RowId, startDate: DateTime, endDate: DateTime)

  datatype Store = Store(users: map<RowId, User>, cars: map<RowId, Car>, rentals: map<RowId, Rental>)

  // ---------------------------------------------------------------------------
  // Least and greatest elements of a finite set of row ids

  /** Set extensionality, stated so that callers get a member to pick. */
  lemma EmptyOrHasMember(s: set<RowId>)
    ensures s == {} || exists x :: x in s
  {
    if forall x :: x !in s {
      assert s == {};
    }
  }

  predicate IsLeast(m: RowId, s: set<RowId>)
  {
    m in s && forall k :: k in s ==> m <= k
  }

  predicate IsGreatest(m: RowId, s: set<RowId>)
  {
    m in s && forall k :: k in s ==> k <= m
  }

  lemma {:induction false} HasLeast(s: set<RowId>)
    requires s != {}
    ensures exists m :: IsLeast(m, s)
  {
    EmptyOrHasMember(s);
    var x :| x in s;
    var rest := s - {x};
    EmptyOrHasMember(rest);
    if rest == {} {
      assert s == {x};
      assert IsLeast(x, s);
    } else {
      HasLeast(rest);
      var m :| IsLeast(m, rest);
      var least := if x <= m then x else m;
      forall k | k in s
        ensures least <= k
      {
        if k != x {
          assert k in rest;
        }
      }
      assert IsLeast(least, s);
    }
  }

  lemma {:induction false} HasGreatest(s: set<RowId>)
    requires s != {}
    ensures exists m :: IsGreatest(m, s)
  {
    EmptyOrHasMember(s);
    var x :| x in s;
    var rest := s - {x};
    EmptyOrHasMember(rest);
    if rest == {} {
      assert s == {x};
      assert IsGreatest(x, s);
    } else {
      HasGreatest(rest);
      var m :| IsGreatest(m, rest);
      var greatest := if m <= x then x else m;
      forall k | k in s
        ensures k <= greatest
      {
        if k != x {
          assert k in rest;
        }
      }
      assert IsGreatest(greatest, s);
    }
  }

  /** The least element of a non-empty set; the choice is unique. */
  function Least(s: set<RowId>): (m: RowId)
    requires s != {}
    ensures IsLeast(m, s)
  {
    HasLeast(s);
    var m :| IsLeast(m, s);
    m
  }

  /** The greatest element of a non-empty set; the choice is unique. */
  function Greatest(s: set<RowId>): (m: RowId)
    requires s != {}
    ensures IsGreatest(m, s)
  {
    HasGreatest(s);
    var m :| IsGreatest(m, s);
    m
  }

  /** The row id sqlite gives a new row of a table whose ids are `ids`:
      one more than the largest, or 1 for an empty table. */
  function NextRowId(ids: set<RowId>): (n: RowId)
    ensures n !in ids
    ensures forall k :: k in ids ==> k < n
    ensures ids == {} ==> n == 1
    ensures ids != {} ==> n - 1 in ids
  {
    if ids == {} then 1 else Greatest(ids) + 1
  }

  /** `after` is `before` with exactly one row `v` inserted under a new id. */
  ghost predicate InsertsOne<V>(before: map<RowId, V>, after: map<RowId, V>, v: V)
  {
    exists id :: id !in before && after == before[id := v]
  }

  // ---------------------------------------------------------------------------
  // Queries

  /** Would `INSERT INTO user` violate the UNIQUE constraint on `username`? */
  predicate UsernameTaken(users: map<RowId, User>, username: string)
  {
    exists id :: id in users && users[id].username == username
  }

  /** Would `INSERT INTO cars` violate the UNIQUE constraint on `car_id`? */
  predicate CarIdTaken(cars: map<RowId, Car>, carId: string)
  {
    exists id :: id in cars && cars[id].carId == carId
  }

  /** `SELECT * FROM user WHERE username = ? AND password = ?` followed by
      `fetchone()`. `fetchone()` promises no particular row when several
      match; the model picks the least id. Under the UNIQUE constraint on
      `username` at most one row matches. */
  function FindUser(users: map<RowId, User>, username: string, password: Digest): (r: Option<RowId>)
    ensures r.None? <==> !exists id :: id in users && users[id] == User(username, password)
    ensures r.Some? ==> r.value in users && users[r.value] == User(username, password)
    ensures r.Some? ==> forall id :: id in users && users[id] == User(username, password) ==> r.value <= id
  {
    var hits := set id | id in users && users[id] == User(username, password);
    assert forall id :: id in users && users[id] == User(username, password) ==> id in hits;
    EmptyOrHasMember(hits);
    if hits == {} then None else Some(Least(hits))
  }

  /** `SELECT * FROM cars WHERE car_id = ?` followed by `fetchone()`; as in
      `FindUser`, the least matching id is the model's choice. */
  function FindCar(cars: map<RowId, Car>, carId: string): (r: Option<RowId>)
    ensures r.None? <==> !CarIdTaken(cars, carId)
    ensures r.Some? ==> r.value in cars && cars[r.value].carId == carId
    ensures r.Some? ==> forall id :: id in cars && cars[id].carId == carId ==> r.value <= id
  {
    var hits := set id | id in cars && cars[id].carId == carId;
    assert forall id :: id in cars && cars[id].carId == carId ==> id in hits;
    EmptyOrHasMember(hits);
    if hits == {} then None else Some(Least(hits))
  }

  /** The ids of the rentals that reference the car with internal id `car`. */
  function RentalsOf(rentals: map<RowId, Rental>, car: RowId): set<RowId>
  {
    set id | id in rentals && rentals[id].carId == car
  }

  // ---------------------------------------------------------------------------
  // Invariant

  ghost predicate UniqueUsernames(users: map<RowId, User>)
  {
    forall a, b :: a in users && b in users && users[a].username == users[b].username ==> a == b
  }

  ghost predicate UniqueCarIds(cars: map<RowId, Car>)
  {
    forall a, b :: a in cars && b in cars && cars[a].carId == cars[b].carId ==> a == b
  }

  /** Every rental references an existing car. */
  ghost predicate RentalsReferenceCars(st: Store)
  {
    forall id :: id in st.rentals ==> st.rentals[id].carId in st.cars
  }

  /** A car is unavailable exactly when one rental references it, and
      available exactly when none does. */
  ghost predicate AvailabilityMatchesRentals(st: Store)
  {
    forall k :: k in st.cars ==>
      |RentalsOf(st.rentals, k)| == (if st.cars[k].isAvailable then 0 else 1)
  }

  ghost predicate Valid(st: Store)
  {
    && UniqueUsernames(st.users)
    && UniqueCarIds(st.cars)
    && RentalsReferenceCars(st)
    && AvailabilityMatchesRentals(st)
  }

  /** The store before any request: three empty tables. */
  const Empty: Store := Store(map[], map[], map[])

  lemma EmptyIsValid()
    ensures Valid(Empty)
  {
  }

  // ---------------------------------------------------------------------------
  // How RentalsOf changes under an insert or a delete

  lemma RentalsOfInsert(rentals: map<RowId, Rental>, n: RowId, rental: Rental, car: RowId)
    requires n !in rentals
    ensures RentalsOf(rentals[n := rental], car)
         == RentalsOf(rentals, car) + (if rental.carId == car then {n} else {})
  {
  }

  lemma RentalsOfRemove(rentals: map<RowId, Rental>, n: RowId, car: RowId)
    requires n in rentals
    ensures RentalsOf(rentals - {n}, car)
         == RentalsOf(rentals, car) - {n}
  {
  }
}

/**
 The route handlers of the rental application as pure transitions: each
 takes the store, the session and the request input, and returns the new
 store, the new session and an outcome standing for the flash message plus
 the redirect or the page rendered.
 */
module Routes {
  import opened Database

  datatype HttpMethod = Get | Post

  datatype Outcome =
    | FormShown                       // a GET renders the route's form
    | Registered                      // "Registration successful!", redirect to login
    | UsernameExists                  // "Username already exists."
    | LoggedIn                        // "Login successful.", redirect to the car list
    | InvalidCredentials              // "Invalid username or password."
    | LoggedOut                       // "You have been logged out.", redirect home
    | LoginRequired                   // "Please log in to ...", redirect to login
    | CarAdded                        // "Car added successfully."
    | CarIdExists                     // "Car ID already exists."
    | CarList(cars: map<RowId, Car>)  // the car list page with every car
    | CarRented                       // "Car rented successfully!"
    | CarNotAvailable                 // "Car is not available."
    | CarReturned                     // "Car returned successfully!"
    | InvalidRentalId                 // "Invalid rental ID."
    | DateOverflow                    // OverflowError escapes `rent_car`: no flash, server error

  /** The session cookie holds at most one key, `user_id`. */
  datatype Session = Session(userId: Option<RowId>)

  datatype Reply = Reply(store: Store, session: Session, outcome: Outcome)

  /** The protected routes (add, list, rent, return) refuse a session without a user. */
  predicate SignedIn(sess: Session)
  {
    sess.userId.Some?
  }

  /** `register`: on POST, insert the user with the digest of the password,
      unless the username is taken. */
  function Register(st: Store, sess: Session, verb: HttpMethod, username: string, password: string,
                    hash: string -> Digest): (r: Reply)
    ensures r.session == sess
    ensures r.store.cars == st.cars && r.store.rentals == st.rentals
    ensures verb == Get ==> r.store == st && r.outcome == FormShown
    ensures verb == Post && UsernameTaken(st.users, username) ==>
              r.store == st && r.outcome == UsernameExists
    ensures verb == Post && !UsernameTaken(st.users, username) ==>
              && r.outcome == Registered
              && InsertsOne(st.users, r.store.users, User(username, hash(password)))
  {
    if verb == Get then Reply(st, sess, FormShown)
    else if UsernameTaken(st.users, username) then Reply(st, sess, UsernameExists)
    else
      var id := NextRowId(st.users.Keys);
      Reply(st.(users := st.users[id := User(username, hash(password))]), sess, Registered)
  }

  /** `login`: on POST, sign in as the user whose username and digest both match. */
  function Login(st: Store, sess: Session, verb: HttpMethod, username: string, password: string,
                 hash: string -> Digest): (r: Reply)
    ensures r.store == st
    ensures verb == Get ==> r.session == sess && r.outcome == FormShown
    ensures verb == Post ==>
              (r.outcome == LoggedIn <==>
               exists id :: id in st.users && st.users[id] == User(username, hash(password)))
    ensures verb == Post && r.outcome == LoggedIn ==>
              && r.session.userId.Some?
              && r.session.userId.value in st.users
              && st.users[r.session.userId.value] == User(username, hash(password))
    ensures verb == Post && r.outcome != LoggedIn ==>
              r.session == sess && r.outcome == InvalidCredentials
  {
    if verb == Get then Reply(st, sess, FormShown)
    else
      match FindUser(st.users, username, hash(password))
      case Some(id) => Reply(st, Session(Some(id)), LoggedIn)
      case None => Reply(st, sess, InvalidCredentials)
  }

  /** `logout`: drop the user from the session, whether or not there was one. */
  function Logout(st: Store, sess: Session): (r: Reply)
    ensures r.store == st
    ensures !SignedIn(r.session)
    ensures r.outcome == LoggedOut
  {
    Reply(st, Session(None), LoggedOut)
  }

  /** `add_car`: on POST, insert an available car unless its external id is taken. */
  function AddCar(st: Store, sess: Session, verb: HttpMethod, carId: string, carType: string): (r: Reply)
    ensures r.session == sess
    ensures r.store.users == st.users && r.store.rentals == st.rentals
    ensures !SignedIn(sess) ==> r.store == st && r.outcome == LoginRequired
    ensures SignedIn(sess) && verb == Get ==> r.store == st && r.outcome == FormShown
    ensures SignedIn(sess) && verb == Post && CarIdTaken(st.cars, carId) ==>
              r.store == st && r.outcome == CarIdExists
    ensures SignedIn(sess) && verb == Post && !CarIdTaken(st.cars, carId) ==>
              && r.outcome == CarAdded
              && InsertsOne(st.cars, r.store.cars, Car(carId, carType, true))
  {
    if !SignedIn(sess) then Reply(st, sess, LoginRequired)
    else if verb == Get then Reply(st, sess, FormShown)
    else if CarIdTaken(st.cars, carId) then Reply(st, sess, CarIdExists)
    else
      var id := NextRowId(st.cars.Keys);
      // `is_available` is not in the INSERT: the column default (available) applies
      Reply(st.(cars := st.cars[id := Car(carId, carType, true)]), sess, CarAdded)
  }

  /** `list_cars`: every car, available or not. */
  function ListCars(st: Store, sess: Session): (r: Reply)
    ensures r.store == st && r.session == sess
    ensures !SignedIn(sess) ==> r.outcome == LoginRequired
    ensures SignedIn(sess) ==> r.outcome.CarList? && r.outcome.cars == st.cars
  {
    if !SignedIn(sess) then Reply(st, sess, LoginRequired)
    else Reply(st, sess, CarList(st.cars))
  }

  /** The `UPDATE cars SET is_available = 0 WHERE car_id = ?` of `rent_car`:
      it selects by EXTERNAL id, so every car carrying that id is marked. */
  function MarkRented(cars: map<RowId, Car>, carId: string): (r: map<RowId, Car>)
    ensures r.Keys == cars.Keys
    ensures forall k :: k in cars && cars[k].carId == carId ==>
              r[k] == cars[k].(isAvailable := false)
    ensures forall k :: k in cars && cars[k].carId != carId ==> r[k] == cars[k]
  {
    map k | k in cars :: if cars[k].carId == carId then cars[k].(isAvailable := false) else cars[k]
  }

  /** The `UPDATE cars SET is_available = 1 WHERE id = ?` of `return_car`. */
  function MarkReturned(cars: map<RowId, Car>, car: RowId): (r: map<RowId, Car>)
    ensures r.Keys == cars.Keys
    ensures car in cars ==> r[car] == cars[car].(isAvailable := true)
    ensures forall k :: k in cars && k != car ==> r[k] == cars[k]
  {
    if car in cars then cars[car := cars[car].(isAvailable := true)] else cars
  }

  /** The largest day count `timedelta(days=...)` accepts, in either direction. */
  const MaxTimedeltaDays: int := 999999999

  /** Can `rent_car` compute the end date `now + timedelta(days=days)`?
      `timedelta` rejects more than `MaxTimedeltaDays` days, and the sum
      must stay within the years 1 to 9999. */
  predicate EndDateRepresentable(now: DateTime, days: int)
  {
    && -MaxTimedeltaDays <= days <= MaxTimedeltaDays
    && 0 <= now + days * SecondsPerDay <= MaxDateTime
  }

  /** 2026-01-01 00:00:00 as a `DateTime`. */
  const Year2026: DateTime := 63902822400

  /** The edges of `EndDateRepresentable`, as Python's `datetime` draws them:
      from 0001-01-01 00:00:00 one can add 3652058 days (reaching 9999-12-31)
      but not 3652059; from the last second of 9999 not even one day; and
      from 2026-01-01 a rental of 3000000 days, or of -739617 days, overflows
      while -739616 days reaches 0001-01-01; and no clock admits more than
      `MaxTimedeltaDays` days. */
  lemma EndDateEdges()
    ensures EndDateRepresentable(0, 3652058) && !EndDateRepresentable(0, 3652059)
    ensures EndDateRepresentable(MaxDateTime, 0) && !EndDateRepresentable(MaxDateTime, 1)
    ensures !EndDateRepresentable(Year2026, 3000000)
    ensures EndDateRepresentable(Year2026, -739616) && !EndDateRepresentable(Year2026, -739617)
    ensures forall now: DateTime, days :: days > MaxTimedeltaDays ==> !EndDateRepresentable(now, days)
  {
  }

  /** Does `rent_car` find a rentable car? The first car with this external
      id must exist and be available. */
  predicate Rentable(cars: map<RowId, Car>, carId: string)
  {
    var found := FindCar(cars, carId);
    found.Some? && cars[found.value].isAvailable
  }

  /** `rent_car`: on POST, if the first car with this external id is
      available, insert a rental linking the session user to its internal id
      for `rentalDays` days from `now`, and mark the car rented. `now` is
      the clock reading. An end date outside `datetime`'s range raises
      before anything is written. */
  function Rent(st: Store, sess: Session, verb: HttpMethod, carId: string, rentalDays: int, now: DateTime): (r: Reply)
    ensures r.session == sess
    ensures r.store.users == st.users
    ensures !SignedIn(sess) ==> r.store == st && r.outcome == LoginRequired
    ensures SignedIn(sess) && verb == Get ==> r.store == st && r.outcome == FormShown
    ensures SignedIn(sess) && verb == Post ==>
              (r.outcome == CarRented <==> Rentable(st.cars, carId) && EndDateRepresentable(now, rentalDays))
    ensures SignedIn(sess) && verb == Post && !Rentable(st.cars, carId) ==>
              r.store == st && r.outcome == CarNotAvailable
    ensures SignedIn(sess) && verb == Post && Rentable(st.cars, carId) && !EndDateRepresentable(now, rentalDays) ==>
              r.store == st && r.outcome == DateOverflow
    ensures SignedIn(sess) && verb == Post && r.outcome == CarRented ==>
              var car := FindCar(st.cars, carId).value;
              && InsertsOne(st.rentals, r.store.rentals,
                            Rental(sess.userId.value, car, now, now + rentalDays * SecondsPerDay))
              && r.store.cars.Keys == st.cars.Keys
              && r.store.cars[car] == st.cars[car].(isAvailable := false)
              && (forall k :: k in st.cars && st.cars[k].carId == carId ==>
                    r.store.cars[k] == st.cars[k].(isAvailable := false))
              && (forall k :: k in st.cars && st.cars[k].carId != carId ==> r.store.cars[k] == st.cars[k])
  {
    if !SignedIn(sess) then Reply(st, sess, LoginRequired)
    else if verb == Get then Reply(st, sess, FormShown)
    else
      match FindCar(st.cars, carId)
      case Some(car) =>
        if !st.cars[car].isAvailable then Reply(st, sess, CarNotAvailable)
        else if !EndDateRepresentable(now, rentalDays) then Reply(st, sess, DateOverflow)
        else
          var id := NextRowId(st.rentals.Keys);
          var rental := Rental(sess.userId.value, car, now, now + rentalDays * SecondsPerDay);
          Reply(Store(st.users, MarkRented(st.cars, carId), st.rentals[id := rental]), sess, CarRented)
      case None => Reply(st, sess, CarNotAvailable)
  }

  /** Does `return_car` find the rental? It must exist and belong to `user`. */
  predicate OwnsRental(rentals: map<RowId, Rental>, rentalId: RowId, user: RowId)
  {
    rentalId in rentals && rentals[rentalId].userId == user
  }

  /** `return_car`: on POST, if the session user owns the rental, delete it
      and mark its car (by internal id) available again. */
  function Return(st: Store, sess: Session, verb: HttpMethod, rentalId: RowId): (r: Reply)
    ensures r.session == sess
    ensures r.store.users == st.users
    ensures !SignedIn(sess) ==> r.store == st && r.outcome == LoginRequired
    ensures SignedIn(sess) && verb == Get ==> r.store == st && r.outcome == FormShown
    ensures SignedIn(sess) && verb == Post ==>
              (r.outcome == CarReturned <==> OwnsRental(st.rentals, rentalId, sess.userId.value))
    ensures SignedIn(sess) && verb == Post && !OwnsRental(st.rentals, rentalId, sess.userId.value) ==>
              r.store == st && r.outcome == InvalidRentalId
    ensures SignedIn(sess) && verb == Post && OwnsRental(st.rentals, rentalId, sess.userId.value) ==>
              var car := st.rentals[rentalId].carId;
              && r.store.rentals.Keys == st.rentals.Keys - {rentalId}
              && (forall id :: id in r.store.rentals ==> r.store.rentals[id] == st.rentals[id])
              && r.store.cars.Keys == st.cars.Keys
              && (car in st.cars ==> r.store.cars[car] == st.cars[car].(isAvailable := true))
              && (forall k :: k in st.cars && k != car ==> r.store.cars[k] == st.cars[k])
  {
    if !SignedIn(sess) then Reply(st, sess, LoginRequired)
    else if verb == Get then Reply(st, sess, FormShown)
    else if OwnsRental(st.rentals, rentalId, sess.userId.value) then
      var car := st.rentals[rentalId].carId;
      Reply(Store(st.users, MarkReturned(st.cars, car), st.rentals - {rentalId}), sess, CarReturned)
    else
      Reply(st, sess, InvalidRentalId)
  }
}

/**
 The application as a sequential state machine: a request is one of the
 route handlers applied to its input, `Step` dispatches it, and `Run`
 threads the store and session through a sequence of requests. The lemmas
 show that the availability invariant survives every step, and state the
 properties the workflow promises across several requests.
 */
module Workflow {
  import opened Database
  import opened Routes

  /** One request with its form input; `now` is the clock reading a rent uses. */
  datatype Request =
    | RegisterRequest(verb: HttpMethod, username: string, password: string)
    | LoginRequest(verb: HttpMethod, username: string, password: string)
    | LogoutRequest
    | AddCarRequest(verb: HttpMethod, carId: string, carType: string)
    | ListCarsRequest
    | RentRequest(verb: HttpMethod, carId: string, rentalDays: int, now: DateTime)
    | ReturnRequest(verb: HttpMethod, rentalId: RowId)

  /** The routes behind the session gate. */
  predicate Protected(req: Request)
  {
    req.AddCarRequest? || req.ListCarsRequest? || req.RentRequest? || req.ReturnRequest?
  }

  function Step(st: Store, sess: Session, req: Request, hash: string -> Digest): (r: Reply)
    ensures Protected(req) && !SignedIn(sess) ==>
              r.store == st && r.session == sess && r.outcome == LoginRequired
    ensures req.LogoutRequest? ==> r.store == st && !SignedIn(r.session)
  {
    match req
    case RegisterRequest(verb, username, password) => Register(st, sess, verb, username, password, hash)
    case LoginRequest(verb, username, password) => Login(st, sess, verb, username, password, hash)
    case LogoutRequest => Logout(st, sess)
    case AddCarRequest(verb, carId, carType) => AddCar(st, sess, verb, carId, carType)
    case ListCarsRequest => ListCars(st, sess)
    case RentRequest(verb, carId, rentalDays, now) => Rent(st, sess, verb, carId, rentalDays, now)
    case ReturnRequest(verb, rentalId) => Return(st, sess, verb, rentalId)
  }

  /** The store and session after serving `reqs` one after another. */
  function Run(st: Store, sess: Session, reqs: seq<Request>, hash: string -> Digest): (Store, Session)
    decreases |reqs|
  {
    if reqs == [] then (st, sess)
    else
      var r := Step(st, sess, reqs[0], hash);
      Run(r.store, r.session, reqs[1..], hash)
  }

  // ---------------------------------------------------------------------------
  // The invariant is preserved by every route

  lemma RegisterPreservesValid(st: Store, sess: Session, verb: HttpMethod, username: string,
                               password: string, hash: string -> Digest)
    requires Valid(st)
    ensures Valid(Register(st, sess, verb, username, password, hash).store)
  {
  }

  lemma AddCarPreservesValid(st: Store, sess: Session, verb: HttpMethod, carId: string, carType: string)
    requires Valid(st)
    ensures Valid(AddCar(st, sess, verb, carId, carType).store)
  {
    var r := AddCar(st, sess, verb, carId, carType);
    if r.outcome == CarAdded {
      var n := NextRowId(st.cars.Keys);
      assert r.store.cars == st.cars[n := Car(carId, carType, true)];
      forall k | k in r.store.cars
        ensures |RentalsOf(r.store.rentals, k)| == (if r.store.cars[k].isAvailable then 0 else 1)
      {
        if k == n {
          var none := RentalsOf(st.rentals, n);
          forall id | id in st.rentals
            ensures st.rentals[id].carId != n
          {
          }
          assert forall id :: id !in none;
          assert none == {};
        }
      }
    }
  }

  lemma RentPreservesValid(st: Store, sess: Session, verb: HttpMethod, carId: string, rentalDays: int, now: DateTime)
    requires Valid(st)
    ensures Valid(Rent(st, sess, verb, carId, rentalDays, now).store)
  {
    var r := Rent(st, sess, verb, carId, rentalDays, now);
    if r.outcome == CarRented {
      var car := FindCar(st.cars, carId).value;
      var n := NextRowId(st.rentals.Keys);
      var rental := Rental(sess.userId.value, car, now, now + rentalDays * SecondsPerDay);
      assert r.store.rentals == st.rentals[n := rental];
      // the external id is unique, so the UPDATE marks only `car`
      assert forall k :: k in st.cars && k != car ==> r.store.cars[k] == st.cars[k];
      forall k | k in r.store.cars
        ensures |RentalsOf(r.store.rentals, k)| == (if r.store.cars[k].isAvailable then 0 else 1)
      {
        RentalsOfInsert(st.rentals, n, rental, k);
      }
    }
  }

  lemma ReturnPreservesValid(st: Store, sess: Session, verb: HttpMethod, rentalId: RowId)
    requires Valid(st)
    ensures Valid(Return(st, sess, verb, rentalId).store)
  {
    var r := Return(st, sess, verb, rentalId);
    if r.outcome == CarReturned {
      var car := st.rentals[rentalId].carId;
      assert r.store.rentals == st.rentals - {rentalId};
      // the rental being returned is the one rental of its car
      assert rentalId in RentalsOf(st.rentals, car);
      forall k | k in r.store.cars
        ensures |RentalsOf(r.store.rentals, k)| == (if r.store.cars[k].isAvailable then 0 else 1)
      {
        RentalsOfRemove(st.rentals, rentalId, k);
        if k == car {
          var others := RentalsOf(st.rentals, car) - {rentalId};
          assert |RentalsOf(st.rentals, car)| == |others| + 1;
        }
      }
    }
  }

  lemma StepPreservesValid(st: Store, sess: Session, req: Request, hash: string -> Digest)
    requires Valid(st)
    ensures Valid(Step(st, sess, req, hash).store)
  {
    match req
    case RegisterRequest(verb, username, password) =>
      RegisterPreservesValid(st, sess, verb, username, password, hash);
    case LoginRequest(_, _, _) =>
    case LogoutRequest =>
    case AddCarRequest(verb, carId, carType) =>
      AddCarPreservesValid(st, sess, verb, carId, carType);
    case ListCarsRequest =>
    case RentRequest(verb, carId, rentalDays, now) =>
      RentPreservesValid(st, sess, verb, carId, rentalDays, now);
    case ReturnRequest(verb, rentalId) =>
      ReturnPreservesValid(st, sess, verb, rentalId);
  }

  /** In sequential execution, every reachable store satisfies the invariant:
      in particular a car is unavailable iff exactly one rental references it. */
  lemma {:induction false} RunPreservesValid(st: Store, sess: Session, reqs: seq<Request>, hash: string -> Digest)
    requires Valid(st)
    ensures Valid(Run(st, sess, reqs, hash).0)
    decreases |reqs|
  {
    if reqs != [] {
      var r := Step(st, sess, reqs[0], hash);
      StepPreservesValid(st, sess, reqs[0], hash);
      RunPreservesValid(r.store, r.session, reqs[1..], hash);
    }
  }

  lemma ReachableIsValid(sess: Session, reqs: seq<Request>, hash: string -> Digest)
    ensures Valid(Run(Empty, sess, reqs, hash).0)
  {
    EmptyIsValid();
    RunPreservesValid(Empty, sess, reqs, hash);
  }

  // ---------------------------------------------------------------------------
  // Properties across requests

  /** Logging out twice is the same as logging out once. */
  lemma LogoutIdempotent(st: Store, sess: Session)
    ensures var once := Logout(st, sess);
            Logout(once.store, once.session) == once
  {
  }

  /** With unique external ids, a rent succeeds exactly when some car with
      that id is available (and the end date is representable), and only
      that car changes. */
  lemma RentOnValidStore(st: Store, sess: Session, carId: string, rentalDays: int, now: DateTime)
    requires Valid(st) && SignedIn(sess)
    ensures var r := Rent(st, sess, Post, carId, rentalDays, now);
            && (r.outcome == CarRented <==>
                && (exists k :: k in st.cars && st.cars[k].carId == carId && st.cars[k].isAvailable)
                && EndDateRepresentable(now, rentalDays))
            && (r.outcome == CarRented ==>
                forall k :: k in st.cars && k != FindCar(st.cars, carId).value ==> r.store.cars[k] == st.cars[k])
  {
  }

  /** Renting a car that has just been rented is refused and changes nothing. */
  lemma RentTwiceFails(st: Store, sess: Session, carId: string, days1: int, now1: DateTime, days2: int, now2: DateTime)
    requires SignedIn(sess)
    requires Rent(st, sess, Post, carId, days1, now1).outcome == CarRented
    ensures var first := Rent(st, sess, Post, carId, days1, now1);
            Rent(first.store, sess, Post, carId, days2, now2) == Reply(first.store, sess, CarNotAvailable)
  {
  }

  /** Returning a rental right after renting it restores the store exactly:
      the rental row is gone and the car is available again. */
  lemma RentThenReturnRestores(st: Store, sess: Session, carId: string, rentalDays: int, now: DateTime)
    requires Valid(st) && SignedIn(sess)
    requires Rent(st, sess, Post, carId, rentalDays, now).outcome == CarRented
    ensures var rented := Rent(st, sess, Post, carId, rentalDays, now);
            var rentalId := NextRowId(st.rentals.Keys);
            Return(rented.store, sess, Post, rentalId) == Reply(st, sess, CarReturned)
  {

  }

  /** With unique external ids, freeing the car that was just marked rented
      gives back the car table as it was. */
  lemma MarkReturnedUndoesMarkRented(cars: map<RowId, Car>, carId: string, car: RowId)
    requires UniqueCarIds(cars)
    requires car in cars && cars[car].carId == carId && cars[car].isAvailable
    ensures MarkReturned(MarkRented(cars, carId), car) == cars
  {
    var back := MarkReturned(MarkRented(cars, carId), car);
    assert back.Keys == cars.Keys;
    forall k | k in cars
      ensures back[k] == cars[k]
    {
    }
  }

  /** After a user returns a rental they own, the car it held can be rented
      again; only an unrepresentable end date stops it. */
  lemma ReturnThenRentSucceeds(st: Store, sess: Session, rentalId: RowId, rentalDays: int, now: DateTime)
    requires Valid(st) && SignedIn(sess)
    requires OwnsRental(st.rentals, rentalId, sess.userId.value)
    ensures var returned := Return(st, sess, Post, rentalId);
            var carId := st.cars[st.rentals[rentalId].carId].carId;
            Rent(returned.store, sess, Post, carId, rentalDays, now).outcome
              == (if EndDateRepresentable(now, rentalDays) then CarRented else DateOverflow)
  {
  }

  /** A second registration of the same username is refused: the user
      table grows by exactly one row. */
  lemma RegisterTwiceAddsOne(st: Store, sess: Session, username: string, password1: string,
                             password2: string, hash: string -> Digest)
    requires !UsernameTaken(st.users, username)
    ensures var first := Register(st, sess, Post, username, password1, hash);
            var second := Register(first.store, sess, Post, username, password2, hash);
            && second.outcome == UsernameExists
            && |second.store.users| == |st.users| + 1
  {
    var first := Register(st, sess, Post, username, password1, hash);
    var n := NextRowId(st.users.Keys);
    assert first.store.users == st.users[n := User(username, hash(password1))];
    assert n in first.store.users && first.store.users[n].username == username;
  }

  /** After a successful registration, logging in with the same credentials
      signs in as the new user, and only as the new user. */
  lemma RegisterThenLogin(st: Store, sess: Session, username: string, password: string,
                          hash: string -> Digest)
    requires !UsernameTaken(st.users, username)
    ensures var registered := Register(st, sess, Post, username, password, hash);
            var r := Login(registered.store, sess, Post, username, password, hash);
            && r.outcome == LoggedIn
            && r.session.userId == Some(NextRowId(st.users.Keys))
            && r.session.userId.value !in st.users
            && r.session.userId.value in registered.store.users
  {
    var registered := Register(st, sess, Post, username, password, hash);
    var n := NextRowId(st.users.Keys);
    assert registered.store.users[n] == User(username, hash(password));
    var r := Login(registered.store, sess, Post, username, password, hash);
    assert r.session.userId.value !in st.users by {
      var id := r.session.userId.value;
      assert registered.store.users[id].username == username;
    }
  }

  /** Under the invariant, the signed-in user is the only one with that username. */
  lemma LoginIdentifiesUser(st: Store, sess: Session, username: string, password: string,
                            hash: string -> Digest)
    requires Valid(st)
    requires Login(st, sess, Post, username, password, hash).outcome == LoggedIn
    ensures var r := Login(st, sess, Post, username, password, hash);
            forall id :: id in st.users && st.users[id].username == username ==> r.session.userId == Some(id)
  {
  }
}

# Car-rental workflow, modelled in Dafny

This project models the request handlers of a small car-rental web
application (`app.py`, a Flask program over sqlite). The application has
three tables:

- `user`: username and password digest;
- `cars`: an external `car_id`, a type, and an `is_available` flag;
- `rentals`: a user id, a car's internal id, and start and end dates.

A session holds at most one `user_id`.

Each handler is written as a pure transition
`(Store, Session, input) -> Reply(store, session, outcome)`. The outcome
stands for the flash message and the redirect or page that follows.

- `database.dfy` (module `Database`) holds:
  - the rows and the `Store` of three maps keyed by row id;
  - `DateTime`, the range of dates a rental can hold;
  - the `SELECT ... fetchone()` lookups (`FindUser`, `FindCar`);
  - sqlite's row-id rule for inserts (`NextRowId`: one more than the largest id, 1 for an empty table);
  - the invariant `Valid`: usernames are unique, external car ids are unique, every rental references an existing car, and a car is unavailable exactly when one rental references its internal id (available exactly when none does).
- `routes.dfy` (module `Routes`) holds the `Session` and one function per handler: `Register`,
  `Login`, `Logout`, `AddCar`, `ListCars`, `Rent` and `Return`. The three
  protected routes and `ListCars` sit behind the session gate. Both the GET
  branch (show the form) and the POST branch are modelled.
- `workflow.dfy` (module `Workflow`) holds:
  - `Step`, which dispatches one request, and `Run`, which serves a sequence of requests one after another;
  - the proof that every route preserves `Valid`, so every store reachable from the empty one satisfies it;
  - lemmas relating several requests: rent then return, return then rent, renting twice, registering twice, register then login, and logout twice.

Two collaborators are passed in as parameters:

- `hash_password` is a parameter `hash: string -> Digest`. It is any
  deterministic function.
- The clock is a parameter `now` on the rent request. It is a `DateTime`:
  whole seconds since 0001-01-01 00:00:00, up to the last second of the
  year 9999, the range of Python's `datetime`. One day is 86400 seconds.

Details of `rent_car` that the model keeps:

- `rent_car` stores the car's internal `id` in the rental (app.py:120), but
  its `UPDATE` selects by the external `car_id` (app.py:121). `MarkRented`
  therefore marks every car carrying that external id. `RentOnValidStore`
  shows that this is the looked-up car when external ids are unique.
- The end date `datetime.now() + timedelta(days=rental_days)` (app.py:118)
  raises `OverflowError` when the day count exceeds 999999999 in either
  direction, or when the sum leaves the years 1 to 9999. This happens after
  the availability check and before the INSERT, so nothing is written. The
  model returns the outcome `DateOverflow` with the store unchanged.
- `rent_car` reads the clock twice (app.py:117-118). The model uses one
  reading for both dates.

Three behaviours come from the database schema, which is not part of this
model, and are taken as assumptions:

- the UNIQUE constraints on `user.username` and `cars.car_id`, which make
  the inserts fail;
- the `is_available` default of 1, which makes a new car available;
- the row-id rule.

## Model

| member | source | states |
|---|---|---|
| Database.FindUser | app.py:51 | the login query finds a row exactly when some user has both the username and the digest; the row it returns matches both; when several match, the least id is the model's choice, since `fetchone()` promises no order |
| Database.FindCar | app.py:114 | the rent lookup finds a car exactly when the external id is taken; the car it returns carries that id; when several match, the least id is the model's choice |
| Database.NextRowId | app.py:34 | the id a new row receives, here and in the INSERTs at app.py:81 and app.py:119, is absent from the table and larger than every id in it; it is 1 for an empty table and otherwise one more than the largest id (sqlite's row-id rule, an assumption about the schema) |
| Routes.Register | app.py:29-42 | GET changes nothing; a taken username leaves the store unchanged with "username exists"; otherwise exactly one user `(username, hash(password))` is inserted under a new id; cars, rentals and session are never touched |
| Routes.Login | app.py:47-60 | the store never changes; POST succeeds iff some user has this username and `hash(password)`, and then the session user is such a user; on failure the session is unchanged and the outcome is "invalid username or password", whether the username is unknown or the password wrong |
| Routes.Logout | app.py:64-67 | the session ends with no user, the store is unchanged, and the outcome is logged-out |
| Routes.AddCar | app.py:71-89 | without a session user nothing changes and the outcome is redirect-to-login; a taken external id leaves the store unchanged; otherwise exactly one car is inserted, and it is available |
| Routes.ListCars | app.py:93-101 | never changes the store; without a session user it redirects to login, otherwise it lists every car, available or not |
| Routes.MarkRented | app.py:121 | the rent UPDATE selects by external id: every car carrying that `car_id` becomes unavailable with its other fields unchanged, every other car is unchanged, and no car is added or removed |
| Routes.MarkReturned | app.py:145 | the return UPDATE selects by internal id: that car, if present, becomes available with its other fields unchanged; every other car is unchanged, and no car is added or removed |
| Routes.EndDateEdges | app.py:118 | the range `EndDateRepresentable` draws for `now + timedelta(days=...)`: from 0001-01-01 3652058 days fit and 3652059 overflow; from 9999-12-31 23:59:59 one day overflows; from 2026-01-01 3000000 days and -739617 days overflow while -739616 fit; more than 999999999 days never fit |
| Routes.Rent | app.py:105-129 | without a session user nothing changes; POST succeeds iff the car found by external id is available and the end date fits `datetime`; then exactly one rental (session user, that car's internal id, start now, end now + days*86400) is inserted, every car carrying that external id becomes unavailable with its other fields unchanged, and cars with other external ids are unchanged; a missing or rented car leaves the store unchanged with "not available"; an end date out of range leaves the store unchanged with `DateOverflow` |
| Routes.Return | app.py:133-152 | without a session user nothing changes; POST succeeds iff the rental exists and belongs to the session user; then exactly that rental is removed, its car (by internal id) becomes available with its external id and type unchanged, and no other car changes; otherwise, for example for a foreign or unknown id, the store is unchanged and the outcome is "invalid rental ID" |
| Workflow.Step | app.py:65-136 | every protected request without a session user (the gates of add_car at app.py:72-74, list_cars at 94-96, rent_car at 106-108 and return_car at 134-136) leaves store and session unchanged and redirects to login; logout (app.py:65) always leaves no session user |
| Workflow.RegisterPreservesValid | app.py:34-39 | every register request, whatever its outcome, preserves `Valid` |
| Workflow.AddCarPreservesValid | app.py:81-86 | every add-car request, whatever its outcome, preserves `Valid` |
| Workflow.RentPreservesValid | app.py:116-121 | every rent request, whatever its outcome, preserves `Valid` |
| Workflow.ReturnPreservesValid | app.py:143-145 | every return request, whatever its outcome, preserves `Valid` |
| Workflow.StepPreservesValid | app.py:27-152 | every route preserves the invariant |
| Workflow.RunPreservesValid | app.py:104-152 | in sequential execution of any sequence of requests, a car is unavailable iff exactly one rental references its internal id |
| Workflow.ReachableIsValid | app.py:27-152 | every store reachable from empty tables satisfies the invariant |
| Workflow.LogoutIdempotent | app.py:65 | logging out twice equals logging out once |
| Workflow.RentOnValidStore | app.py:114-121 | on a valid store, rent succeeds iff some car with the external id is available and the end date fits `datetime`, and only the car found changes |
| Workflow.RentTwiceFails | app.py:116-127 | renting a car that was just rented yields "not available" and changes nothing |
| Workflow.RentThenReturnRestores | app.py:141-145 | returning the rental that a successful rent just created gives back the original store exactly |
| Workflow.MarkReturnedUndoesMarkRented | app.py:145 | freeing the car that rent just marked restores the car table, when external ids are unique |
| Workflow.ReturnThenRentSucceeds | app.py:143-145 | after a user returns a rental they own, renting that car again succeeds unless the end date leaves `datetime`'s range |
| Workflow.RegisterTwiceAddsOne | app.py:34-39 | registering the same username twice: the second attempt yields "username exists" and the user table grows by exactly one |
| Workflow.RegisterThenLogin | app.py:51-55 | after a successful registration, logging in with the same credentials signs in as the newly inserted user, whose id is the next row id |
| Workflow.LoginIdentifiesUser | app.py:51-55 | on a valid store, a successful login signs in as the only user with that username |

## Left out

- Flask routing, `render_template`, `redirect`, the index page and flash rendering. These are reduced to the `Outcome` constructors. The per-route wording of "please log in" is one `LoginRequired`.
- sqlite connections, `commit` and `close` (app.py:10-13). The tables are Dafny maps.
- SHA-512 in `hash_password` (app.py:16-19) is a foreign library. It is the parameter `hash`.
- `strftime` date formatting. Dates are integer seconds.
- Rent reads the clock twice (app.py:117-118). The model takes one reading, so its end date is exactly start + days*86400 seconds. Near the end of the year 9999 the second reading could overflow where the first did not; the model decides overflow on its one reading.
- Sub-second precision of `datetime.now()` is dropped. `strftime` discards it too.
- `int()` failing on a non-numeric `rental_days` (app.py:112) raises outside the handler's logic. Negative day counts are accepted, as in the code.
- A missing form field raises a `KeyError` in Flask. This is not modelled.
- `rental_id` arrives as text and sqlite compares it to the integer `id`. The model takes an integer. Text that is not a number matches no rental, which behaves like an unknown id.
- The concurrent check-then-act race between two rent requests for the same car. The model is sequential only.
- The schema: the UNIQUE constraints, the `is_available` default and the row-id rule are assumptions. sqlite's fallback when the largest row id reaches 2^63-1 is not modelled.
- The signing of the session cookie is not modelled.

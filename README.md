# zvezda door controller — Dafny model

zvezda is a small Go server that opens the two doors of an airlock (the
inner and the outer door) by driving a Raspberry Pi GPIO pin high for five
seconds. Every HTTP request must carry basic-auth credentials, which are
checked against a `users` table of bcrypt hashes. The table is filled by
the `user add` and `user update` commands. Each door has a ten-second
cooldown: a trigger that comes less than ten seconds after the door was
last opened is answered with 425 Too Early.

The model has four modules:

- `Doors` (doors.dfy) is the per-door state machine. `Step` is the pure
  specification: a trigger inside the cooldown window changes nothing,
  and any other trigger records its time, writes the pin high and then
  low. `Run` folds `Step` over a sequence of trigger times. The class
  `Door` holds `lastOpened`, `pinHigh` and a ghost history of pin writes.
  Its method `Trigger` performs the steps one at a time and is proved
  equal to `Step`. The lemmas go further than one step. Every reachable
  state keeps an invariant (`Reachable`). Any two accepted triggers start
  at least ten seconds apart, with no assumption about the clock.
  `lastOpened` never decreases. At every moment the pin is high exactly
  when some five-second hold window covers that moment (`LevelAt` /
  `LevelAtWindows`), and no two windows overlap.
- `Users` (users.dfy) holds the user table as a `map<string, User>`.
  `Decide` is the authentication middleware's decision: missing
  credentials, an unknown name and a wrong password all give the same
  `Unauthorized(Challenge)`. `Touch` is the `lastUsedAt` update.
  `AddUser` and `UpdateUser` are the two commands, with their checks in
  source order: exactly one argument, a password of at least 8 bytes, a
  successful hash, and for `add` a name not already present. The class
  `UserDb` performs these operations in place, and its methods are proved
  equal to the functions.
- `Zvezda` (server.dfy) is the request path. `Server.Serve` authenticates
  first and then routes the request. An exact `/open/innerdoor` or
  `/open/outerdoor` goes to that door's `Trigger`. Any other path goes to
  the static file server.
- `Wrappers` (wrappers.dfy) defines `Option` and `Result`.

The model's inputs:

- Time is an integer number of nanoseconds, passed as a parameter.
- bcrypt's compare and hash functions are parameters (`Matcher`,
  `Hasher`).
- The source reads the password from the terminal. In the model it is a
  parameter.

Some behaviour of the code is modelled as written.

- The handlers do not check the HTTP method, so a request with any
  method opens the door. `Request` therefore has no method field.
- The cooldown test `lastOpened.Add(10s).After(now)` is strict. A trigger
  at exactly `lastOpened + 10s` is therefore accepted. Because both doors
  start with `lastOpened = start - 10s`, a trigger at start-up opens the
  door (`Initial`).
- `user update` for a non-empty name that has no row matches no row. It
  reports success and changes nothing. With an empty name gorm has no
  primary key to select the row by, so `Updates` fails with its
  missing-WHERE-clause error, and the command reports that error.
- `user update` prints the same "which user do you want to add?" text as
  `user add` when no name is given.

- The code has no per-door lock. Unknown paths fall through to the file
  server. Pin writes cannot fail.

## Model

| member | source | states |
|---|---|---|
| Doors.Step | zvezda/main.go:116-126 | A trigger is TooEarly exactly when `now < lastOpened + 10s`, and then nothing changes. Otherwise `lastOpened` becomes exactly `now` (at least 10 s after the old value), the pin is written high at `now` and low at `now + 5s`, and the pin is low afterwards. |
| Doors.Initial | zvezda/main.go:112-113 | The start-up state (`lastOpened = start - 10s`, pin low) satisfies the door invariant. A trigger at `start` is accepted, and a trigger at time t is accepted exactly when t >= start. |
| Doors.Status | zvezda/main.go:115-119 | An accepted trigger answers 200 (nothing is written, so Go's default applies). A rejected trigger answers 425 Too Early. |
| Doors.StepReachable | zvezda/main.go:116-126 | Every step preserves the door invariant: pin low between requests, pin writes in high/low pulses, pulse starts pairwise at least 10 s apart and none after `lastOpened`. An accepted step adds exactly one pulse, starting at `now`. |
| Doors.LevelAtWindows | zvezda/main.go:122-126 | For a pulse history whose starts are 10 s apart, the pin is high at time t exactly when t lies in some `[start, start + 5s)` hold window. |
| Doors.WindowsDisjoint | zvezda/main.go:116-126 | For starts spaced 10 s apart, no moment lies in two different 5 s hold windows, so two high periods never overlap. |
| Doors.PulseAfterOpened | zvezda/main.go:120-126 | After an accepted trigger at `now`, the pin is high at every t in `[now, now + 5s)` and low at every later t (until the next accepted trigger). |
| Doors.RunReachable | zvezda/main.go:116-126 | Over any sequence of triggers, the invariant holds at the end. The pulses added are exactly the accepted triggers, in order, and `lastOpened` never decreases. |
| Doors.RunSpaced | zvezda/main.go:116-120 | In any sequence of triggers, any two accepted triggers are at least 10 s apart, whatever the clock does. Every accepted time is at most the final `lastOpened`, and `lastOpened` never decreases. |
| Doors.ReferenceScenario | zvezda/main.go:112-127 | From start-up at 0, triggers at 0, 3 s and 11 s give Opened, TooEarly and Opened. |
| Doors.Scenario | zvezda/main.go:112-127 | From start-up at 0, triggers at 0, 3 s, 10 s and 11 s give Opened, TooEarly, Opened (the 10 s boundary is accepted) and TooEarly. |
| Doors.Door.constructor | zvezda/main.go:112-113 | A new door is in the start-up state `Initial(start)`. |
| Doors.Door.WritePin | zvezda/main.go:122-126 | `Pin.High()` / `Pin.Low()` move the door to exactly `WithPin` of its old state: the level is set, one write is appended to the history, and `lastOpened` is untouched. |
| Doors.Door.Trigger | zvezda/main.go:115-141 | The handler's steps in order (check, record `now`, pin high, hold, pin low) give exactly `Step`. TooEarly leaves the object unchanged. An accepted trigger ends with `lastOpened == now` and the pin low. The door invariant is kept. |
| Users.Decide | zvezda/main.go:46-74 | A request is authorized exactly when it carries credentials, the name has a row, and bcrypt accepts the password against that row's hash. The authorized name is the one in the credentials. Every rejection is the same `Unauthorized` with the same `WWW-Authenticate` challenge. |
| Users.FailuresAlike | zvezda/main.go:47-66 | Missing credentials, an unknown username and a wrong password produce identical responses. |
| Users.Touch | zvezda/main.go:68-69 | A successful login sets the matched row's `lastUsedAt` to `now` and changes no other field and no other row. |
| Users.UserNameArg | zvezda/main.go:168-174 | The username is accepted exactly when there is one argument, and it is that argument. No arguments and several arguments give their own two errors. |
| Users.AddUser | zvezda/main.go:168-196 | `user add` succeeds exactly when there is one argument, the password has at least 8 bytes, hashing succeeds and the name is new. The argument-count error comes first, then the length error. On success exactly one row is added, holding the name, the new hash, no last use and `createdAt = now`. |
| Users.UpdateUser | zvezda/main.go:209-239 | `user update` succeeds exactly when there is one non-empty argument, the password has at least 8 bytes and hashing succeeds. Errors come in the same order as for `add`. After hashing, an empty name fails with gorm's missing-WHERE-clause error. Only the named row's hash changes. A non-empty unknown name leaves the table as it was. |
| Users.Message | zvezda/main.go:168-183 | Exactly the argument-count and password-length errors carry a text of the command's own, and it is non-empty. The hashing and storage errors print the library's text. `NoUserName` is one error, so both commands share its text (main.go:210 repeats main.go:169). |
| Users.MessagesDistinct | zvezda/main.go:168-183 | The commands' own error texts are pairwise different, so no arguments, several arguments and a short password can be told apart. |
| Users.AddThenAuthenticate | zvezda/main.go:185-195 | If bcrypt accepts a password against its own hash, a user just added passes authentication with the password they entered. |
| Users.UpdateThenAuthenticate | zvezda/main.go:226-237 | After updating an existing user, the new password authenticates. A password bcrypt rejects against the new hash does not. |
| Users.UserDb.constructor | zvezda/main.go:264-277 | A fresh `zvezda.db`, whose `users` table `AutoMigrate` has just created, is empty. A database that already holds rows reaches the server as the `db` parameter of `Server`'s constructor. |
| Users.UserDb.Authenticate | zvezda/main.go:44-74 | The middleware's early-return branches give exactly `Decide`. A rejection leaves the table unchanged. Success saves the row with its new `lastUsedAt` (`Touch`). |
| Users.UserDb.Add | zvezda/main.go:160-197 | It reports exactly `AddUser`'s error and leaves the table unchanged, or reports none and the table becomes `AddUser`'s result. |
| Users.UserDb.Update | zvezda/main.go:200-240 | It reports exactly `UpdateUser`'s error and leaves the table unchanged, or reports none and the table becomes `UpdateUser`'s result. |
| Zvezda.Route | zvezda/main.go:115-147 | The mux's exact-path routes: `Some(InnerDoor)` exactly for `/open/innerdoor`, `Some(OuterDoor)` exactly for `/open/outerdoor`, and `None` (the `/` file server) for every other path. |
| Zvezda.StatusCode | zvezda/main.go:48-66 | A rejected request gets 401, a door answer gets its door's status, and a static file request gets the file server's status. |
| Zvezda.Server.constructor | zvezda/main.go:101-113 | At start-up both doors are fresh, distinct objects in `Initial(start)`. |
| Zvezda.Server.Serve | zvezda/main.go:111-152 | A rejected request gets `Denied(Challenge)` and changes neither door nor the table. An accepted request updates only the user's `lastUsedAt`. `/open/innerdoor` steps only the inner door and `/open/outerdoor` only the outer door, each exactly as `Step` says. Every other path goes to the file server with both doors unchanged. |

## Left out

- HTTP plumbing is not modelled: the mux internals, `ListenAndServe`, `loggingMiddleware` and every log call. These are I/O with no rule to state. The username the middleware attaches to the request context appears only as the `username` of a response.
- Concurrency is not modelled. The Go handlers read and write each door's `lastOpened` with no lock, so two requests arriving together can both pass the check and both drive the pin. The model is sequential: requests are served one at a time, and it proves nothing about interleaved requests.
- Clock and sleep: `time.Now()` is a parameter `now`. The handler reads the clock twice (for the check and for the stored value), and the middleware reads it once more. The model uses one `now` for the whole request. `time.Sleep(5s)` appears as the low write being stamped `now + 5s`. The time the request itself stays blocked is not modelled.
- Integer width: times are unbounded integers. Go's `time.Time` range limits and the monotonic-clock reading are not modelled.
- GPIO: `rpio.Open`, `Pin.Output()` and the pin numbers read from `PIN_INNERDOOR`/`PIN_OUTERDOOR` are left out. The pin is taken to be low at start-up, although `Output()` sets no level.
- bcrypt: `CompareHashAndPassword` and `GenerateFromPassword` are the parameters `matches` and `hasher`. Their cryptographic properties are not modelled. `hasher` is a deterministic function of the password, whereas `GenerateFromPassword` draws a random salt on each call. No proof depends on that difference.
- Database (gorm/sqlite): the table is a map. A lookup error other than "record not found" is treated as "not found", which gives the same 401 in the source. The ignored result of `db.Save` is modelled as a save that always succeeds. `getDatabase` failures are not modelled.
- Users.UpdateUser: storage errors from `Updates` other than the missing WHERE clause for an empty name are not modelled, for example a locked or unreadable `zvezda.db`. The same holds for Users.AddUser and `Create`: the duplicate primary key is the only failure modelled.
- CLI: terminal password reading, its errors and the coral command wiring (`init`, `main`) are left out. The password read is a parameter.
- Static file serving (`getStaticFS`, `embed`, `http.FileServer`) is not modelled: such a request ends as `StaticFile`.
- zvezda/static/index.js is not part of this model. It is browser UI (DOM, fetch, toasts, timers).

# Bus-ticketing backend: route administration, accounts and request guards

This project models the rule-carrying parts of a bus-ticketing REST backend (Express controllers over a
Sequelize database) and proves properties about them in Dafny:

- **Stop lists** (`stops.dfy`, with `text.dfy` for JavaScript's `trim` and `split`). When a route is created
  or edited, the stop-list normaliser takes the `stops` value of the request body. That value may be an
  array or a comma-separated string. The normaliser trims every entry, drops the empty ones, and returns
  `null` rather than an empty list. It neither removes repeated names nor relates the list to the route's
  origin and destination.
- **Route administration** (`routes.dfy`). The class `RouteAdmin` holds the route table and the trip table
  as maps. Its three methods model the route handlers:
  - **create**: checks the required fields and the category allow-list;
  - **edit**: merges fields with `??` and applies the three category cases (keep, clear or refuse), then
    copies the route's structure onto every trip that references it;
  - **delete**: is refused while any trip references the route.
- **Accounts** (`accounts.dfy`). The class `UserTable` holds the user table as a sequence. Its methods model
  registration with an e-mailed verification token, verification, re-sending the token, and the two-step
  password reset. Login changes nothing, so it is a function.
- **Request guards** (`middleware.dfy`). Bearer-token extraction from the `Authorization` header, the
  401/403 decision of the authentication middleware (which sets `req.user` and calls `next`), and the
  administrator check. The guards are modelled on their own. In the code, `authenticateToken` guards only
  `GET /me` (`src/routes/authRoutes.js:9`), and `requireAdmin` guards no router. The route and admin
  routers attach no guard (`src/routes/routeRoutes.js:12-16`, `src/routes/adminRoutes.js:12-18`), and
  `src/server.js:19-20` mounts only the trip and booking routers. So `Middleware.AdminChain` and
  `Middleware.SessionAdminIff` describe the guards themselves; they do not protect the route or admin
  endpoints.
- **Shared values** (`domain.dfy`). The three ENUM columns (route category, user role, booking status),
  `Option`, token claims, and a `Field` type for request values that may be `undefined`, `null` or a
  string.

Several things that the code reads from its environment are parameters of the model:

- the clock (`now`, in milliseconds);
- freshly generated tokens;
- bcrypt hashes, and the outcome of `bcrypt.compare` as a function parameter;
- `jwt.verify` as a function from a token to claims;
- whether a mail was delivered, as a boolean.

`login` is declared twice in `src/controllers/authController.js`. The later declaration (lines 292–349)
is the one in force, and it does not check `isVerified`. The model follows it: `Accounts.Login` gives a
session to an unverified account with the right password, and `Accounts.LoginIgnoresVerification` proves
that verification plays no part.

The schema's comments speak of sections and section prices: a booking's boarding and drop-off stop and
its price "for this section" (`src/models/booking.js:20,30`), and a route's "stops/sections"
(`src/models/route.js:28`). No file of the code computes a section fare or checks seat availability:
bookings and trips are created straight from the request body. The model follows the code, so neither
appears.

## Model

| member | source | states |
|---|---|---|
| Domain.ParseCategory | src/models/route.js:17 | A name is accepted exactly when it is one of XL, AC, S, N, compared case-sensitively. The accepted category's name is the input, and a rejected string names no category. |
| Domain.ParseRole | src/models/user.js:25 | Exactly "customer" and "admin" are roles. A parsed role's name is the input; any other string names no role. |
| Domain.ParseBookingStatus | src/models/booking.js:17 | Exactly "pending", "confirmed" and "cancelled" are statuses. A parsed status's name is the input; any other string names none. |
| Text.Trim | src/controllers/routeController.js:62 | The result has no whitespace at either end and is no longer than the input. |
| Text.TrimCutsWhitespace | src/controllers/routeController.js:62 | What `trim` keeps is a contiguous slice of the input, and everything cut off before and after it is whitespace. |
| Text.TrimUnique | src/controllers/routeController.js:62 | Whitespace around a core with no whitespace at either end is exactly what `trim` removes, so the result is that core. |
| Text.TrimIdempotent | src/controllers/routeController.js:62 | Trimming twice is trimming once. |
| Text.Split | src/controllers/routeController.js:61 | `split` gives at least one piece, no piece contains the separator, and joining the pieces with the separator rebuilds the input. |
| Text.SplitJoin | src/controllers/routeController.js:61 | Splitting the join of separator-free pieces gives back exactly those pieces. |
| Stops.Clean | src/controllers/routeController.js:60-63 | Trim-and-filter keeps at most as many entries as it is given, and each kept entry is a non-empty trimmed name. |
| Stops.NonEmpty | src/controllers/routeController.js:56 | `cleaned.length ? cleaned : null` is null exactly for an empty list and otherwise the list itself. |
| Stops.NormalizeStops | src/controllers/routeController.js:49-68 | The result is null exactly when the input is falsy, is neither an array nor a string, or leaves no entry after trimming. Otherwise it is the cleaned pieces: non-empty, every name trimmed and non-empty. |
| Stops.CleanAppend | src/controllers/routeController.js:53-55 | Cleaning distributes over concatenation, so surviving entries keep their relative order. |
| Stops.CleanMembers | src/controllers/routeController.js:60-63 | A name survives exactly when it is the non-empty trim of some piece. |
| Stops.CleanStopNames | src/controllers/routeController.js:53-55 | A list of well-formed stop names cleans to itself. |
| Stops.NamesNormalizeToThemselves | src/controllers/routeController.js:52-56 | A non-empty list of well-formed stop names sent as an array normalises to exactly that list. |
| Stops.CleanDropsBlank | src/controllers/routeController.js:55 | An empty piece anywhere contributes nothing to the cleaned list. |
| Stops.NormalizeIdempotent | src/controllers/routeController.js:52-56 | A normalised list sent back as an array normalises to itself. |
| Stops.StringAndArrayAgree | src/controllers/routeController.js:52-64 | Comma-free names sent as one comma-joined string normalise like the same names sent as an array. |
| Stops.CleanAroundElement | src/controllers/routeController.js:53-55 | Cleaning an array whose element at any position has non-blank text gives the cleaned elements before it, that element's trim as one entry, then the cleaned elements after it. |
| Stops.ArrayElementNotSplit | src/controllers/routeController.js:52-56 | An array element at any position whose text is not blank becomes exactly one entry, its trim, even if it contains commas. It sits between the entries of the elements around it, and the result is never null. |
| Stops.DuplicatesKept | src/controllers/routeController.js:52-56 | Names are not made distinct: a name given twice in the array is kept twice. |
| Stops.MissingDropped | src/controllers/routeController.js:54-55 | A `null` or `undefined` array element is dropped without a trace. |
| Stops.BlanksAroundNames | src/controllers/routeController.js:59-64 | For three comma-free names laid out as `a, b ,  , c`, the blanks around each name are trimmed and the all-blank entry between `b` and `c` is dropped, giving `[a, b, c]`. |
| Stops.CommaStringExample | src/controllers/routeController.js:59-64 | "Colombo, Kandy ,  , Galle" normalises to ["Colombo", "Kandy", "Galle"]. |
| Routes.CreateCategory | src/controllers/routeController.js:82-97 | On create, a truthy category outside the allow-list is refused, a falsy one is stored as null, and otherwise the named category is stored. |
| Routes.UpdateCategory | src/controllers/routeController.js:134-147 | On edit, `undefined` keeps the stored category, `null` and "" clear it, and a non-empty name outside the allow-list is refused. Otherwise the named category is stored. |
| Routes.Coalesce | src/controllers/routeController.js:150-152 | Only `null`/`undefined` keep the stored value; any string, even "", replaces it. |
| Routes.MergeRoute | src/controllers/routeController.js:149-155 | The edited route keeps its id and takes the decided category. Each field keeps its stored value when the body's field is null or undefined. The stops change only when the new stops normalise to a list. |
| Routes.SyncTrips | src/controllers/routeController.js:158-168 | After the sync there are the same trips, and every trip that references the route carries its number, origin, destination and stops. No other trip field changes, and trips of other routes are untouched. |
| Routes.SyncIdempotent | src/controllers/routeController.js:158-168 | Syncing a second time changes nothing. |
| Routes.EmptyEditKeepsRoute | src/controllers/routeController.js:132-155 | An edit that sends nothing leaves the route as it was. |
| Routes.EndpointEditKeepsStops | src/controllers/routeController.js:149-155 | An edit that sends only a new origin and destination keeps the stored stops. A stop list that began at the old origin then no longer begins at the route's origin. |
| Routes.MergeIdempotent | src/controllers/routeController.js:149-155 | Applying the same edit twice gives the route that one application gives. |
| Routes.DeleteGuardKeepsReferences | src/controllers/routeController.js:199-207 | If every trip's route exists and no trip references the route being deleted, every trip's route still exists afterwards. |
| Routes.UnguardedDeleteDangles | src/controllers/routeController.js:199-205 | Deleting a route that a trip references leaves that trip pointing at nothing, which is why the guard is needed. |
| Routes.RouteAdmin.CreateRoute | src/controllers/routeController.js:75-105 | A missing required field gives 400, and so does an invalid category; in both cases the tables are unchanged. Otherwise the route is stored under a fresh id with the category decision and the normalised stops, and the reply is 201. |
| Routes.RouteAdmin.UpdateRoute | src/controllers/routeController.js:119-172 | An invalid id gives 400, an unknown id 404, and an invalid category 400, each with the tables unchanged. Otherwise the merged route replaces the stored one, the trips are synced to it, and the reply is 200. |
| Routes.RouteAdmin.DeleteRoute | src/controllers/routeController.js:188-209 | 400 for an invalid id, 404 for an unknown one, and 400 while any trip references the route, each with the route table unchanged. Otherwise only that route is removed (200). |
| Accounts.FindFirst | src/controllers/authController.js:94-98 | A lookup finds the first matching row, or reports that no row matches. |
| Accounts.FindFirstAgrees | src/controllers/authController.js:305 | Two tables that agree row by row on matching give the same lookup answer. |
| Accounts.EmailLookupUnique | src/controllers/authController.js:22-29 | With unique emails, looking up a row's email finds that row. |
| Accounts.RowUpdateKeepsWellFormed | src/controllers/authController.js:124-127 | Rewriting a row that keeps its id and email keeps emails and ids unique. |
| Accounts.Login | src/controllers/authController.js:292-340 | A missing field gives 400. An unknown email gives 401, and a wrong password gives that same 401. Otherwise the reply is 200 with a session for the row found. A session is issued only with 200 and only for an account with that email. |
| Accounts.LoginIgnoresVerification | src/controllers/authController.js:304-320 | Changing `isVerified` on any row changes no login reply. |
| Accounts.LoginFailuresAlike | src/controllers/authController.js:305-320 | An unknown email and a known email with a wrong password get identical replies. |
| Accounts.VerificationTokenSingleUse | src/controllers/authController.js:94-127 | After a successful verification, no row holds the token, so a second call with it finds nobody. |
| Accounts.ResetTokenSingleUse | src/controllers/authController.js:439-454 | After a successful reset, no row holds the reset token, so it cannot be replayed. |
| Accounts.RowUpdatesKeepTokensConsistent | src/controllers/authController.js:40-48 | Every row rewrite of the handlers keeps the rule that a verified account holds no verification token. The rule is also part of `UserTable.Valid`, which every handler method preserves. |
| Accounts.RegisteredRole | src/controllers/authController.js:44 | The role given to `User.create`, defaulting to `customer`, checked against the ENUM's names by exact match: a falsy role is customer, one of the two names is that role, and any other string is refused. |
| Accounts.AlreadyVerifiedUnreachable | src/controllers/authController.js:115-121 | Under that rule, any account a verification token finds is unverified, so the "already verified" answer is never given. |
| Accounts.UserTable.Register | src/controllers/authController.js:15-70 | Missing fields give 400 and a taken email gives 409, each with the table unchanged. A role outside the ENUM makes the insert fail: 500 with the table unchanged. Otherwise the new row is unverified, has the given role or `customer`, and has a token expiring 24 h from now (201). When the mail fails the table is back as it was (500), though the id counter has moved on. Emails stay unique, and a verified account holds no verification token. |
| Accounts.UserTable.VerifyEmail | src/controllers/authController.js:86-158 | The checks run in order and the first failure wins: no token, unknown token, expired token (a null expiry compares as 0, as in JavaScript), already verified. Each failure leaves the table unchanged. On success the account becomes verified with its token and expiry cleared, and the reply carries a session. |
| Accounts.UserTable.ResendVerification | src/controllers/authController.js:172-219 | A missing email gives 400, an unknown one 404, and a verified account 400, each with the table unchanged. Otherwise the token is replaced with expiry now + 24 h. That change stays even when the mail fails (500). |
| Accounts.UserTable.RequestPasswordReset | src/controllers/authController.js:381-416 | With an email given, the reply is the same generic 200 whatever the table holds. Only an existing verified account gets a reset token, expiring in one hour. |
| Accounts.UserTable.ResetPassword | src/controllers/authController.js:430-459 | Missing fields give 400. An unknown token, or a missing or past expiry, gives 400. Otherwise the password hash is replaced and the reset token and its expiry are cleared (200). |
| Middleware.ExtractToken | src/middleware/auth.js:7-10 | A token exists exactly when there is a header whose split on spaces has a non-empty second field. It is that field, non-empty and without spaces. |
| Middleware.BearerHeader | src/middleware/auth.js:8 | A header of the form `<scheme> <token>`, optionally followed by more space-led text, yields exactly the token. |
| Middleware.ExtractedHeaderShape | src/middleware/auth.js:8 | Every extracted token sits in the header as a space-free first field, a space, the token, and then nothing or text starting with a space. |
| Middleware.NoSpaceNoToken | src/middleware/auth.js:8-15 | A header with no space yields no token. |
| Middleware.BearerExample | src/middleware/auth.js:8 | "Bearer abc" yields "abc". |
| Middleware.Authenticate | src/middleware/auth.js:7-26 | 401 exactly when no token is extracted, and 403 exactly when the token fails verification. Otherwise the request proceeds with the decoded claims. |
| Middleware.Request.AuthenticateToken | src/middleware/auth.js:6-27 | On success `req.user` is the decoded claims and `next` runs exactly once. On refusal the reply is sent, `req.user` is untouched and `next` does not run. |
| Middleware.RequireAdmin | src/middleware/auth.js:30-38 | `next` runs exactly when the claims' role is "admin", and any other role gets 403. Without `req.user` the handler throws. |
| Middleware.AdminChain | src/middleware/auth.js:17-38 | Behind the authentication guard, the admin check never throws and admits exactly the admin claims. |
| Middleware.SessionAdminIff | src/controllers/authController.js:323-327 | A session issued at login passes the admin check exactly when the account's role is admin. |

## Left out

- Sending mail is left out. Mail delivery is a boolean parameter of `Register` and `ResendVerification`. The welcome mail sent after verification cannot change any outcome. `sendPasswordResetEmail` is never exported from `src/services/emailService.js`, so calling it always fails. That failure is swallowed and the generic reply still goes out, which is the behaviour the model gives.
- bcrypt and JWT are parameters, because they are foreign library calls:
  - `passwordHash` is an input;
  - `bcrypt.compare` is the function parameter `passwordMatches`;
  - `jwt.verify` (signature and expiry) is the function parameter `verify`;
  - `jwt.sign` is represented by the claims it would sign.
- Database failures and the `catch` branches are left out, because they are persistence errors, not rules: 400 "Failed to create route"/"Failed to update route", and the various 500 replies.
- Schema validation by the ORM is left out as persistence: the `isEmail` check and `allowNull`.
  - The one schema rule that is modelled is the role ENUM. With the MySQL dialect (`src/config/db.js:11`) in its default strict mode, a role outside the ENUM makes the insert fail, and `register` answers that with 500 "Registration failed". `Accounts.UserTable.Register` models this.
  - Accounts.RegisteredRole: the ENUM match is modelled as exact and case-sensitive. `src/config/db.js:3-16` sets no collation, so MySQL's default, a case-insensitive one, applies. That also accepts re-cased names such as "Admin" and stores the listed name ('admin'). The model refuses them.
  - Accounts.UserTable.Register: through `RegisteredRole`, a re-cased role such as "Admin" is answered 500 with the table unchanged, where the database would store an admin row and answer 201. A refused insert keeps the id counter where it was; the auto-increment value MySQL may consume for it is not modelled.
  - Emails (`src/controllers/authController.js:23, 181, 305, 390`) and the verification and reset tokens (`src/controllers/authController.js:94-98, 439`) are looked up by exact equality. Under the default case-insensitive collation, a lookup that differs only in lettercase (or, for hex tokens, in the case of a hex digit) would also match; database collation is not modelled.
- The schema differs from what the controllers use, and the model follows the controllers.
  - `src/models/trip.js` declares no `routeId`, `routeNumber` or `stops`.
  - `src/models/user.js` declares no `resetPasswordToken` or `resetPasswordExpiry`.
  - `src/server.js:25` runs `sync({ alter: true })`, which shapes the tables after those declarations. Against them, the trip sync in `updateRoute`, the trip count in `deleteRoute`, and the reset-token lookup and writes would not reach columns that exist. The model describes what the controllers intend, against a schema that has those columns.
- The schema comment at `src/models/route.js:28` describes the stop list as running along the route, including origin and destination. No handler enforces that, and neither does the model:
  - `createRoute` (`src/controllers/routeController.js:91-98`) stores the normalised stops without comparing them with `origin` or `destination`;
  - `updateRoute` (`src/controllers/routeController.js:149-155`) merges `origin`, `destination` and `stops` independently, so an edit of the origin or destination alone keeps the old stops (`Routes.EndpointEditKeepsStops`);
  - `normalizeStops` keeps repeated names (`Stops.DuplicatesKept`).
- Route ids from the URL are modelled as either a natural number or invalid (`None`). The `isNaN` string coercion is left out.
- `String(s)` of a non-string array element is taken as given (`StopElem.Given`). Likewise, a non-array, non-string `stops` value is represented only by its truthiness (`StopsInput.Scalar`).
- Request values that are neither strings nor absent/null (numbers, objects in a JSON body or query) are left out: `Field` has only `Undefined`, `Null` and `Text`.
- The first, shadowed declaration of `login` (lines 223–289), with its 403 for unverified accounts, is left out: it is dead code.
- Between counting trips and destroying a route, `deleteRoute` races with concurrent requests. Concurrency is left out; each handler runs atomically.
- Section fares and seat availability are left out because no file of the code computes them. For the same reason there is nothing for bookings or trips beyond the booking status enumeration.
- The admin dashboard queries, the pass-through bus/trip/booking handlers, seeding, database reset, server wiring and routers are left out: they carry no rules of their own.
- Accounts.VerificationTokenSingleUse and Accounts.ResetTokenSingleUse assume that no other account holds the same token. The code relies on 32 random bytes for this and never checks it.
- The time-to-live of tokens is modelled as plain integer addition on a millisecond clock; `Date` objects are left out.

# Synthesis orders: a verified model of the repository, the auth gates and the handler decisions

This project models the core of a Go web backend for ordering chemical syntheses.
- The catalog holds **reactions**.
- A user collects reactions into a **synthesis order** (status `черновик`, draft).
- The user sets the order's purity and submits it (`сформирован`, formed).
- A moderator completes it (`завершён`) or rejects it (`отклонён`).
- Any order can be marked deleted (`удалён`).

The model has six modules:

- `Basics`: `Option`, Go's 64-bit `int` (`Int64`), and the `int` to `uint` conversion (`ToUint`, wrap-around modulo 2^64).
- `Strings`: the parts of Go's `strings` and `strconv` the core uses: `HasPrefix`, `Contains`, `Split`, `Join` and decimal formatting. Lemmas cover split and join, and formatting followed by reading back.
- `ObjectName`: how an uploaded image's object name and address are built, and `extractObjectName`, which reads the name back from the address.
- `Tables`: the rows of the four tables, modelled as sequences, where the row with id `n` sits at index `n - 1`. It also holds the queries over them as functions, and lemmas about:
  - quantities per (order, reaction) pair;
  - the one-draft-per-creator invariant;
  - the projection that hides soft-deleted reactions;
  - the order list's visibility rule;
  - the cleanup filter;
  - authentication.
- `Store`: the class `Repository` with one `seq` field per table. Each mutating repository function is a method with `modifies this` that states its entire new state. Each method also keeps `Valid()`:
  - at most one draft per creator;
  - purity 0 or within (0, 100], and never 0 after forming;
  - at most one line per pair, with count at least 1, belonging to an existing order;
  - no two users share a non-empty login.
- `Middleware`: the two authentication gates as pure functions. Each takes:
  - the header;
  - the blacklist as seen at one instant;
  - a parse oracle.

  Each returns `Abort(code)` or `Proceed(context)`.
- `Handler`: the decision logic of the API handlers:
  - the blacklist as a class `RevocationStore`, written by the logout;
  - the login claims;
  - the profile update set;
  - the endpoints that act on the caller's own draft;
  - the moderation endpoint;
  - the two add paths.

  These methods call the `Repository` methods.

Assumptions the model makes throughout:
- Every database call succeeds.
- Time is an abstract integer clock passed as `now`.
- Purity and volumes are `real`.
- Token parsing, token signing and password hashing are function parameters (`parse`, `sign`, `hash`).

## Model

| member | source | states |
|---|---|---|
| `ObjectName.ExtractObjectName` | lab1/internal/app/repository/reaction.go:309-329 | definition of `extractObjectName`; its behaviour is stated by `StripQuery`, `LocateAfterImagePrefix`, `ExtractFromImageSrc`, `ImageRoundTrip` and `BareNameGetsFolder` |
| `ObjectName.StripQuery` | lab1/internal/app/repository/reaction.go:311-313 | the result is the text before the first `?`: a proper prefix of the address followed there by `?`, holding no `?` itself; an address without `?` is kept whole |
| `ObjectName.FindBucket` | lab1/internal/app/repository/reaction.go:316-322 | the loop's early return: the first part equal to the bucket that is not the last part, or none when no part qualifies |
| `ObjectName.LocateAfterImagePrefix` | lab1/internal/app/repository/reaction.go:314-323 | any text after `http://localhost:9000/aspirinimages/` is returned as the object name, whatever slashes it holds |
| `ObjectName.ExtractFromImageSrc` | lab1/internal/app/repository/reaction.go:309-329 | extraction from an uploaded image's address gives the object name up to its first `?` |
| `ObjectName.ImageRoundTrip` | lab1/internal/app/repository/reaction.go:362-384 | extraction gives back exactly the object name `img/reaction_<id>_<name>` used by the upload if and only if the client's file name holds no `?` |
| `ObjectName.BareNameGetsFolder` | lab1/internal/app/repository/reaction.go:324-326 | an address with no `/` becomes `img/` + the address without its query string |
| `Tables.LiveAfterWrite` | lab1/internal/app/repository/reaction.go:29-36 | after row `id` is rewritten, `GetReaction(id)` finds the new row unless it carries the soft-delete flag, and the lookup of every other id is unchanged |
| `Tables.LiveAfterAppend` | lab1/internal/app/repository/reaction.go:29-36 | an appended row is found under the next id unless it carries the soft-delete flag, and every other lookup is unchanged |
| `Tables.ChangeMerges` | lab1/internal/app/repository/reaction.go:221-247 | writing the column map after dropping empty strings gives, field by field, the request's text only when it is non-empty, and the flag and numbers always (zero and `false` included) |
| `Store.DropEmptyValues` | lab1/internal/app/repository/reaction.go:237-241 | the deleting loop leaves exactly the entries whose value is not the empty string |
| `Tables.DraftID` | lab1/internal/app/repository/reaction.go:445-452 | the result is 0 exactly when the creator has no draft; otherwise it is the id of a draft of the creator, and no row before it is a draft of the creator |
| `Tables.DraftCountZero` | lab1/internal/app/repository/reaction.go:102-105 | the count of the creator's drafts is 0 if and only if the creator has no draft |
| `Tables.DraftCountAtMostOne` | lab1/internal/app/repository/reaction.go:96-124 | under the invariant, no creator ever has more than one draft to count |
| `Tables.AppendDraft` | lab1/internal/app/repository/reaction.go:107-119 | the new draft (creator, moderator 2, purity 0) keeps the invariant and becomes the creator's draft, with the next id |
| `Tables.ListFrom` | lab1/internal/app/repository/reaction.go:460-468 | every listed order exists under its id, is neither a draft nor deleted, is the caller's own unless the caller is a moderator, and matches a non-empty status text; ids are strictly increasing |
| `Tables.ListFromComplete` | lab1/internal/app/repository/reaction.go:454-492 | every order that passes the filter is listed |
| `Tables.LineIndexOfUnique` | lab1/internal/app/repository/reaction.go:126-127 | with unique pairs, the `First` query on a pair finds that pair's one line |
| `Tables.QuantityAfterUpdate` | lab1/internal/app/repository/reaction.go:129-131 | rewriting a line in place keeps pairs unique; only that pair's quantity can change, and it becomes the new count |
| `Tables.QuantityAfterAppend` | lab1/internal/app/repository/reaction.go:132-140 | inserting a line for a pair with none keeps pairs unique; the pair gets the line's count and every other quantity is unchanged |
| `Tables.QuantityAfterRemove` | lab1/internal/app/repository/reaction.go:701-706 | deleting a line keeps pairs unique; its pair's quantity drops to 0 and every other is unchanged |
| `Tables.RowsOfPositive` | lab1/internal/app/repository/reaction.go:556-561 | the row count of an order is positive if and only if some line belongs to it |
| `Tables.FilterValid` | lab1/internal/app/repository/reaction.go:339-340 | deleting lines by any test keeps pairs unique, counts at least 1, and owners existing |
| `Tables.PurgeStep` | lab1/internal/app/repository/reaction.go:338-345 | one loop step: deleting the lines of reaction `i + 1` extends the purge by that reaction when it is soft-deleted; otherwise the purge already covers it |
| `Tables.PurgedExactly` | lab1/internal/app/repository/reaction.go:331-347 | after the purge, a line remains if and only if it was there and its reaction is not soft-deleted |
| `Tables.Project` | lab1/internal/app/repository/reaction.go:402-426 | definition of the line projection behind `GetSynthesisWithCounts`; see `ProjectShows`, `ProjectOrder`, `ProjectOnlyShown`, `ProjectionsAgree` and `ProjectWithinRows` |
| `Tables.ProjectShows` | lab1/internal/app/repository/reaction.go:402-426 | every line of the order whose reaction passes `GetReaction` appears at its rank, carrying the reaction, the count and both volumes |
| `Tables.ProjectOrder` | lab1/internal/app/repository/reaction.go:411-423 | shown lines keep their stored relative order |
| `Tables.ProjectOnlyShown` | lab1/internal/app/repository/reaction.go:412-416 | every element of the result is the view of a shown line of the order; nothing else appears |
| `Tables.ProjectionsAgree` | lab1/internal/app/repository/reaction.go:64-85 | `GetSynthesis` lists, in the same order, the reactions of the lines `GetSynthesisWithCounts` shows |
| `Tables.ProjectWithinRows` | lab1/internal/app/repository/reaction.go:428-443 | the number of shown lines never exceeds the row count that `GetSynthesisCount` reports |
| `Tables.FindLogin` | lab1/internal/app/repository/reaction.go:799-801 | the `First` query on a login: the smallest id holding it, or none when no user holds it |
| `Tables.Authenticate` | lab1/internal/app/repository/reaction.go:797-808 | success returns the first user with that login (no earlier row holds it), whose stored password matches, with the password blanked; every failure is the "wrong login or password" error |
| `Tables.AuthenticateAfterRegister` | lab1/internal/app/repository/reaction.go:760-769 | after a fresh login is registered with a password, authenticating with that login and password returns the new row |
| `Store.Repository.AddReactionInSynthesis` | lab1/internal/app/repository/reaction.go:96-146 | creates a draft (moderator 2) only when the caller has none; returns the caller's draft; increments an existing line, or inserts one with count 1 and zero volumes; the pair's quantity goes up by exactly 1 and every other is unchanged; the invariant holds |
| `Store.Repository.RemoveReactionFromSynthesis` | lab1/internal/app/repository/reaction.go:681-713 | fails with nothing changed unless the order is a draft, the reaction is live and the line exists; on success the line table is the old one with that line's count lowered by 1, or without that line when its count was 1 (order of the other lines kept); so the pair's quantity drops by exactly 1 and every other quantity is unchanged |
| `Store.Repository.UpdateReactionInSynthesis` | lab1/internal/app/repository/reaction.go:715-743 | same guards as removal; on success only that line's `volumeSM` changes, and no quantity changes |
| `Store.Repository.UpdateSynthesisPurity` | lab1/internal/app/repository/reaction.go:521-541 | only on a draft, and only for 0 < purity <= 100; sets purity and update time, or fails with nothing changed |
| `Store.Repository.FormSynthesis` | lab1/internal/app/repository/reaction.go:543-572 | a draft with purity in (0, 100] and at least one row becomes `сформирован`; any failed guard changes nothing |
| `Store.Repository.CompleteOrRejectSynthesis` | lab1/internal/app/repository/reaction.go:629-660 | only a formed order changes: `завершён` when `newStatus`, `отклонён` otherwise, with update time, finish time and the moderator; lines are untouched |
| `Store.Repository.DeleteSynthesis` | lab1/internal/app/repository/reaction.go:662-679 | any existing order, whatever its status, becomes `удалён` with a new update time; a missing id fails with nothing changed |
| `Store.Repository.RemoveSynthesis` | lab1/internal/app/repository/reaction.go:148-152 | marks an existing order `удалён` with finish and update time, never reports failure, and changes nothing for a missing id |
| `Store.Repository.AddReaction` | lab1/internal/app/repository/reaction.go:193-213 | an empty title is refused; otherwise the reaction is appended with empty image references, `GetReaction` finds it under the next id unless the request set the delete flag, and every other lookup is unchanged |
| `Store.Repository.ChangeReaction` | lab1/internal/app/repository/reaction.go:215-249 | only a live reaction changes, and it becomes the field-by-field merge of the request; `GetReaction` then returns the merged row, or nothing when the request set the delete flag; every other lookup is unchanged |
| `Store.Repository.UploadReactionImage` | lab1/internal/app/repository/reaction.go:349-392 | only a live reaction whose object was stored changes, and only its `src`, which becomes the upload address; extracting the object name from that address gives the stored name if and only if the file name has no `?`; `GetReaction` then returns the updated row, and every other lookup is unchanged |
| `Store.Repository.DeleteReaction` | lab1/internal/app/repository/reaction.go:251-278 | any existing reaction (deleted or not) gets the soft-delete flag, after which `GetReaction` no longer finds it while every other lookup is unchanged; then no remaining line references a soft-deleted reaction, and every other line stays |
| `Store.Repository.CleanupDeletedReactionsFromSyntheses` | lab1/internal/app/repository/reaction.go:331-347 | the loop deletes exactly the lines of soft-deleted reactions, keeps the invariant, and touches no other table |
| `Store.Repository.RegisterUser` | lab1/internal/app/repository/reaction.go:745-771 | refuses an empty login, an empty password, or a login already held; otherwise appends a non-moderator, after which `AuthUser` with that login and password succeeds |
| `Store.Repository.UpdateUser` | lab1/internal/app/repository/reaction.go:810-829 | fails with nothing changed exactly when a non-empty new login belongs to another user; otherwise it writes the set to the caller's row and answers the re-read row without its password (an empty user for a missing id) |
| `Middleware.WithAuthCheck` | lab1/internal/app/handler/middlewares.go:14-79 | definition of the strict gate; see `MissingPrefix`, `BlacklistFirst`, `UnparseableToken`, `StrictGatePasses` and `ModeratorRouteAdmitsAdmins` |
| `Middleware.WithAuthCheckLab5` | lab1/internal/app/handler/middlewares.go:81-146 | definition of the lenient gate; see `MissingPrefix`, `BlacklistFirst`, `UnparseableToken` and `GatesAgree` |
| `Middleware.MissingPrefix` | lab1/internal/app/handler/middlewares.go:17-21 | without `Bearer `, `WithAuthCheck` aborts with 403, while `WithAuthCheckLab5` proceeds as user 0 with no role set |
| `Middleware.BlacklistFirst` | lab1/internal/app/handler/middlewares.go:26-40 | a listed token gets 401 whatever the parser says, and a failing lookup gets 500, in both gates |
| `Middleware.UnparseableToken` | lab1/internal/app/handler/middlewares.go:42-50 | an unlisted token that does not parse gets 403 |
| `Middleware.RoleRule` | lab1/internal/app/handler/middlewares.go:54-73 | the role codes reject exactly a non-admin on a moderator route |
| `Middleware.StrictGatePasses` | lab1/internal/app/handler/middlewares.go:14-79 | the gate proceeds if and only if: the prefix is present, the blacklist answered without the token, the token parsed, and the role rule passed. The context is then exactly the claims' user id and admin flag |
| `Middleware.ModeratorRouteAdmitsAdmins` | lab1/internal/app/handler/middlewares.go:69-75 | a moderator route lets through only contexts with admin set |
| `Middleware.GatesAgree` | lab1/internal/app/handler/middlewares.go:81-146 | with the prefix present, the lenient gate reaches the same outcome as the strict one |
| `Middleware.BearerHeader` | lab1/internal/app/handler/middlewares.go:23-24 | `Bearer ` + token has the prefix, and cutting the prefix gives the token back |
| `Handler.CallerIdentity` | lab1/internal/app/handler/middlewares.go:74-77 | the id `GetUserID` reads from the context is, behind the strict gate, the token's user; behind the lenient gate without a prefix, it is user 0 |
| `Handler.RevocationStore.Write` | lab1/internal/app/handler/reaction.go:1115-1119 | a reachable blacklist keeps the token until `now + ttl`; an unreachable one keeps nothing |
| `Handler.LogoutUserAPI` | lab1/internal/app/handler/reaction.go:1077-1126 | always answers 200, with the longer message exactly when the token parsed. It writes the blacklist only with the prefix, a parsed token, a configured and reachable blacklist, and time left; the entry then expires exactly at the token's expiry |
| `Handler.RevokedUntilExpiry` | lab1/internal/app/handler/middlewares.go:24-39 | the key written at logout is the key the gates look up: until expiry, the same header gets 401 from both gates on any route |
| `Handler.LogoutThenRetry` | lab1/internal/app/handler/reaction.go:1094-1115 | after a logout that lists the token, the gate refuses the same header with 401 until the token expires |
| `Handler.LoginClaims` | lab1/internal/app/handler/reaction.go:1036-1047 | user id and admin flag come from the user row; the subject's decimal digits read back as the user id; the token is issued at `now` and expires at `now` + the configured lifetime; the issuer is `bitop-admin` |
| `Handler.LoginUserAPI` | lab1/internal/app/handler/reaction.go:1016-1066 | failed authentication answers 403; after a successful authentication the login succeeds if and only if signing succeeds, and a signing failure answers 500; a login returns the signature of exactly those claims, the authenticated user, and the configured lifetime |
| `Handler.LoginTokenPassesGate` | lab1/internal/app/handler/reaction.go:1036-1047 | a login token, unrevoked and accepted by the parser, passes a route if and only if the route is a user route or the user is a moderator, and then carries that user's id and role |
| `Handler.BuildUserUpdates` | lab1/internal/app/handler/reaction.go:1157-1168 | the set holds `login` if and only if a login was sent, and `name` if and only if a name was sent, with the sent values; it never holds a password, and it is empty only when neither was sent |
| `Handler.UpdateUserAPI` | lab1/internal/app/handler/reaction.go:1145-1183 | the update succeeds if and only if the body binds, a login or a name is sent, and a non-empty new login is not held by another user; every failure answers 400 with no change. On success the caller's row gets the sent login and name, no other user row changes, and the answer is the re-read row without its password |
| `Handler.DeleteSynthesisAPI` | lab1/internal/app/handler/reaction.go:812-826 | deletes exactly the caller's own draft; without a draft it answers 500 and changes nothing |
| `Handler.RemoveReactionFromSynthesisAPI` | lab1/internal/app/handler/reaction.go:839-859 | acts on the caller's own draft only. It succeeds if and only if that draft exists, the reaction is live, and the line exists; the line table then loses one unit of that line, or the line itself at count 1, and only that pair's quantity drops by 1 |
| `Handler.UpdateReactionInSynthesisAPI` | lab1/internal/app/handler/reaction.go:877-901 | a zero reaction id or zero volume is refused by the required-field binding; it succeeds if and only if both fields are set, the caller has a draft, the reaction is live and the draft has its line; success changes only that line's volume, and every failure answers 400 with no change |
| `Handler.ModerationMessage` | lab1/internal/app/handler/reaction.go:789-792 | "Заявка завершена" if and only if the decision is to complete, "Заявка отклонена" if and only if it is to reject |
| `Handler.CompleteOrRejectSynthesisAPI` | lab1/internal/app/handler/reaction.go:758-800 | always passes moderator id 2; succeeds exactly on a formed order, with the decision's message; every failure answers 400 with nothing changed |
| `Handler.AddReactionInSynthesisPage` | lab1/internal/app/handler/reaction.go:72-96 | a reaction `GetReaction` rejects leaves orders and lines alone. A live one creates a draft for the context's user only when the user has none, and leaves the orders table otherwise unchanged. It then raises that line's count by 1, or appends a new line with count 1 and zero volumes |
| `Handler.AddReactionInSynthesisAPI` | lab1/internal/app/handler/reaction.go:411-424 | any numeric id answers 200, whether or not the reaction exists. It creates a draft for the caller (moderator 2, purity 0) only when the caller has none, and leaves the orders table otherwise unchanged. The line table either gets that line's count raised by 1 or a new line `uint(id)` appended with count 1 and zero volumes |
| `Handler.AddPathsDiffer` | lab1/internal/app/handler/reaction.go:82-87 | for a reaction `GetReaction` rejects, the page path leaves the lines unchanged while the API path adds a unit to the caller's draft |

## Left out

- SQL row order: `Find` is taken to return rows in id order.
- Failed SQL statements: every database call succeeds, including:
  - the unchecked update in `RemoveSynthesis`;
  - the count read in `RemoveReactionFromSynthesis`.

  The page add path's tolerance of a duplicate-key error is therefore not modelled.
- Object storage I/O: putting, stat-ing and removing objects.
  - Only the object name and address built by `UploadReactionImage` are modelled, with the put's answer as the `stored` parameter, and `extractObjectName`.
  - The image removal in `DeleteReaction`, and the old-image removal in `UploadReactionImage`, have no effect on the tables and are not modelled.
- Token signing, parsing and expiry checking, and the password hash: these are the parameters `sign`, `parse` and `hash`. The claims' random UUID and empty scopes are not modelled.
- The Redis client is not part of this model. The blacklist is a map from token to expiry instant: a lookup reports a token as listed while `now` is before its expiry, and a lookup error is the `Unreachable` view.
- Date bounds in `GetSyntheses` (date parsing and comparison) and the preloading of creator and moderator rows. `GetSyntheses` is modelled by its visibility and status filter.
- Floating point: purity and volumes are `real`, so the float64-to-float32 rounding of the stored purity and NaN inputs are not modelled.
- The result-volume formula: it exists only in commented-out code. `UpdateReactionVolumeRM` and `GetSynthesisDataForCalculation`, which feed an outside calculation, are not part of this model.
- Time: an abstract integer clock in seconds. The logout's time-to-live has nanosecond resolution in the source.
- Concurrency: the model is sequential. The window between counting drafts and creating one in `AddReactionInSynthesis` is not modelled.
- The `ds` package (row and claim structs) is not part of this model. `UpdateUser` takes the `name` key to write the display name (`fio`), and the claims' `UserID` to be an unsigned integer.
- Reads that no modelled property depends on, and dead or stub code:
  - `GetReactions`, `GetReactionsByTitle`, `GetReactionsInSynthesis`, `GetUserNameByID`, `GetDateUpdate`, `GetPurity`, `GetReactionCount`, `SynthesisStatusById`;
  - `GetSynthesisByID`, `GetUserProfile`, `AuthenticateUser` (a duplicate of `AuthUser`), `GetUserByLogin`, and the repository's `GetUserID` stub.
- Handlers that only decode, call one repository function and render:
  - `RegisterUserAPI`, `FormSynthesisAPI`, `UpdateSynthesisPurityAPI`;
  - `CreateReactionAPI`, `ChangeReactionAPI`, `DeleteReactionAPI`, `UploadReactionImageAPI`;
  - `GetSynthesesAPI` (response formatting), and the HTML pages.

  The route table is used only to know which routes need a moderator.
- Store.Repository.UploadReactionImage: the round trip is stated for the bucket `aspirinimages`, the bucket the upload writes into the address. Extraction searches the address for the configured bucket name, which comes from the server configuration. With any other configured bucket, extraction returns the whole address and the old-image removal misses.
- ObjectName.ImageRoundTrip: proved for the bucket `aspirinimages` only, the same assumption about the configured bucket.
- Handler.UpdateUserAPI: when the body sends a login that another user holds, the answer is modelled as a 400 with no change. The error text is not modelled.

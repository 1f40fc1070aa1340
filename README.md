# Games catalogue record manager, in Dafny

This project models the core of a small Flask + SQLite service that keeps a
catalogue of video games. Each game has a name, a price and a rating from 1
to 5, plus creation and update timestamps. The model covers two parts:

- the **record manager** (`game_controller.py`): field validation, insert,
  update, delete, lookup by id, listing and name search over the `games`
  table, with their error taxonomy (`GameError` with code 400 for invalid
  input, code 404 and message "Game not found" for an unknown id);
- the **REST handlers** (`api.py`, prefix `/api/v1`): how each handler turns
  the controller's outcome into an HTTP status and a JSON body.

Modules, one per file:

- `Validation` (`validation.dfy`): Python's `str.strip()` and `", ".join()`,
  the three field checks, the message list `validate_game` returns
  (`Violations`, and the method `ValidateGame` that builds it by appending),
  and the error text (`ValidationMessage`).
- `SqlLike` (`sql_like.dfy`): SQLite's default `LIKE`, meaning `%`, `_` and
  ASCII case folding, with no ESCAPE clause. It is proved equal to
  case-insensitive substring search when the term has no wildcard.
- `Records` (`records.dfy`): the table as a value. `Table(rows, lastId)` maps
  ids to rows; `lastId` is the AUTOINCREMENT sequence. It also holds the
  queries and the pure step functions `Insert`, `Update` and `Delete`, each
  mapping a table to the new table and a `Result`. Every property of the
  record manager is proved about these functions. Timestamps are readings of
  an abstract `nat` clock, passed in as `now`.
- `GameController` (`controller.dfy`): the class `GameStore`, whose fields
  `rows` and `lastId` are changed in place by `InsertGame`, `UpdateGame` and
  `DeleteGame`. Each method performs the controller's steps in order and is
  proved to produce exactly what the matching `Records` function describes.
  The read-only queries are the `Records` functions applied to
  `GameStore.Snapshot()`.
- `Api` (`api.dfy`): one pure function per handler, from the controller's
  outcome to `Response(body, status)`. It also has end-to-end lemmas that
  follow a request through the controller model and then its handler.

Inputs are `Option` values, because the controller tests for `None`.
Validation comes first, exactly as in the code: invalid input is refused
with 400 before the existence check, even for an unknown id.

`search_games` matches names with `LIKE`. So `%` and `_` in the term are
wildcards, and only ASCII letters are compared case-insensitively. The model
follows that.

## Model

| member | source | states |
|---|---|---|
| Validation.Violations | game_controller.py:12-20 | the list is empty exactly when all the fields are valid, meaning the name holds a non-whitespace character, 0 <= price and 1 <= rate <= 5; each message is present exactly when its check fails; messages come in the order name, price, rate, each at most once |
| Validation.ViolationsDetermined | game_controller.py:13-20 | any list holding exactly the messages of the failing checks, in check order, is the list validate_game returns |
| Validation.ValidateGame | game_controller.py:12-20 | building the list check by check, by appending, yields Violations |
| Validation.NameCheckIsNameOk | game_controller.py:14 | `not name or len(name.strip()) == 0` holds exactly when the name is missing or all whitespace |
| Validation.StripEmptyIffBlank | game_controller.py:14 | str.strip() leaves nothing exactly when every character is whitespace |
| Validation.NameOk | game_controller.py:14 | the name is present and holds at least one non-whitespace character |
| Validation.PriceOk | game_controller.py:16 | the price is present and not below 0 |
| Validation.RateOk | game_controller.py:18 | the rate is present and between 1 and 5 inclusive |
| Validation.ValidInput | game_controller.py:14-18 | all three checks pass, so every field is present, the name is non-empty, 0 <= price and 1 <= rate <= 5 |
| Validation.Strip | game_controller.py:14 | the result is a contiguous piece of the string that neither starts nor ends with whitespace, and everything removed on either side is whitespace |
| Validation.TrimStart | game_controller.py:14 | the result is the longest suffix that does not start with whitespace; the characters dropped are all whitespace |
| Validation.TrimEnd | game_controller.py:14 | the result is the longest prefix that does not end with whitespace; the characters dropped are all whitespace |
| Validation.Join | game_controller.py:26 | joining no messages gives "", joining one message gives that message |
| Validation.ValidationMessage | game_controller.py:24-26 | the joined error text is empty exactly when the input is valid |
| Validation.AllThreeViolations | game_controller.py:13-20 | ("", -1, 6) fails all three checks, and the message is the three texts in order, joined by ", " |
| Validation.ZeroPriceAccepted | game_controller.py:16 | a price of 0 passes validation, despite the "positive" wording |
| Records.ValidationError | game_controller.py:25-26 | the error raised for invalid input has code 400 and a message that is non-empty exactly when the input is invalid |
| Records.Table.Valid | db.py:22-29 | every row is stored under its own id, every id lies between 1 and the last id handed out, and every stored row passes validation |
| Records.GetById | game_controller.py:85-99 | returns the stored row when the id exists, otherwise GameError("Game not found", 404) |
| Records.ByRecency | game_controller.py:108-115 | lists every row of the map exactly once, as stored, newest created first |
| Records.GetGames | game_controller.py:104-115 | returns exactly the table's rows, each once and as stored, ordered by created_at non-increasing |
| Records.OrderedSubsequence | game_controller.py:132 | the entries of the first list occur in the second list in the same order |
| Records.Matching | game_controller.py:128-132 | keeps exactly the entries whose name is LIKE the pattern, as an order-preserving subsequence of the input, so newest-first order and distinct ids carry over |
| Records.SearchPattern | game_controller.py:131 | the pattern is the term with one "%" in front and one "%" behind |
| Records.SearchGames | game_controller.py:120-132 | returns exactly the stored rows whose name is LIKE "%term%", each once, ordered by created_at non-increasing, in the order get_games lists them |
| Records.SearchIsSubstringMatch | game_controller.py:128-131 | for a term without wildcards, search returns exactly the rows whose name contains the term, ignoring ASCII case |
| Records.SearchEmptyTermIsGetGames | game_controller.py:128-131 | searching for the empty term returns the same list as get_games |
| Records.Insert | game_controller.py:23-38 | invalid input gives a 400 error and leaves the table unchanged; valid input adds exactly one row with id lastId+1, above every existing id, holding the given fields with created_at == updated_at == now; other rows are untouched; the result is the stored row |
| Records.Update | game_controller.py:43-63 | invalid input gives a 400 error even for an unknown id; valid input for an unknown id gives 404 "Game not found"; in both cases the table is unchanged; on success only name, price, rate and updated_at := now change, id and created_at are kept, other rows and the id sequence are untouched, and the result is the refreshed row |
| Records.Delete | game_controller.py:68-80 | an unknown id gives 404 and changes nothing; otherwise exactly that row is removed, the rest stay as stored, and the id sequence is kept; afterwards get_by_id of that id gives "Game not found" |
| Records.Apply | game_controller.py:23-82 | every mutating call keeps the table well formed and never lowers the id sequence |
| Records.Run | game_controller.py:23-82 | any sequence of calls keeps the table well formed and never lowers the id sequence |
| Records.IssuedIds | db.py:23 | the ids returned by the successful inserts of a run increase strictly and all lie above every id issued before the run (AUTOINCREMENT, never reused) |
| Records.IssuedIdsAreFresh | db.py:23 | no insert of a run returns an id that is in the table, and no two inserts return the same id |
| Records.ApplyKeepsChronology | game_controller.py:34 | one call with a clock that does not go backwards keeps updated_at >= created_at on every row |
| Records.MonotoneClockKeepsChronology | game_controller.py:58 | updated_at >= created_at holds for every row after any run whose clock never goes backwards |
| Records.InsertedGameListedFirst | game_controller.py:112 | a game inserted later than every existing row is listed first |
| SqlLike.Like | game_controller.py:128 | SQLite's LIKE: "%" matches any run of characters, "_" any one character, any other character matches itself up to ASCII case, and the whole string must be consumed |
| SqlLike.FoldAscii | game_controller.py:128 | folds exactly the 26 ASCII upper-case letters to lower case |
| SqlLike.LikeIsSubstring | game_controller.py:128-131 | "%" + term + "%" of a wildcard-free term matches exactly the strings that contain the term, ignoring ASCII case |
| SqlLike.PrefixLike | game_controller.py:131 | a wildcard-free term followed by "%" matches exactly the strings that start with the term |
| SqlLike.LeadingPercent | game_controller.py:131 | a leading "%" lets the rest of the pattern match any suffix |
| SqlLike.PercentMatchesAll | game_controller.py:131 | "%" matches every string |
| SqlLike.EmptyTermMatchesAll | game_controller.py:131 | the pattern of the empty term matches every name |
| SqlLike.CaseInsensitiveExample | game_controller.py:128 | "ZELDA" is LIKE "%zel%" |
| GameController.GameStore.Valid | db.py:22-29 | the store's rows and id counter form a valid table |
| GameController.GameStore.constructor | db.py:18-35 | the new store is the empty table with the id sequence reset |
| GameController.GameStore.InsertGame | game_controller.py:23-38 | the new state and result are those of Records.Insert; a failure leaves the fields unchanged, a success adds exactly the returned row under the next id |
| GameController.GameStore.UpdateGame | game_controller.py:43-63 | the new state and result are those of Records.Update; a failure leaves the fields unchanged, a success replaces exactly the target row with the returned row |
| GameController.GameStore.DeleteGame | game_controller.py:68-80 | the new state and result are those of Records.Delete; a success removes exactly that id and keeps the id sequence |
| GameController.CreateDeleteLookUp | test_api.py:138-157 | creating a game gives id 1; deleting it succeeds; a lookup and a second delete then give "Game not found"; the next insert gets id 2 |
| Api.FromResult | api.py:57-67 | a returned value stays a returned value; a raised GameError stays that error |
| Api.ErrorText | api.py:37 | the text str() gives for the exception: a GameError's message, or the text of any other exception |
| Api.HandleGameError | api.py:35-37 | an uncaught GameError is answered with its own code and body {"error": message} |
| Api.HandleGeneralError | api.py:39-41 | any other uncaught exception is answered with 500 and body {"error": message} |
| Api.GameListGet | api.py:47-49 | the list get_games returned goes out unchanged with status 200; failures reach the registered error handlers |
| Api.GameListPost | api.py:55-67 | status 201 exactly on success, with the created record; every failure, a GameError of any code or another exception, gives 400 with the error's text |
| Api.GameGet | api.py:75-81 | status 200 exactly on success, with the record; every GameError gives 404 whatever its code; another exception gives 500 |
| Api.GamePut | api.py:88-101 | success gives 200 with the record; a GameError keeps its own code; another exception gives 400 |
| Api.GameDelete | api.py:106-112 | status 204 exactly on success, with an empty body; every GameError gives 404; another exception gives 500 |
| Api.ErrorBodiesCarryMessage | api.py:37-112 | every handler answers a failure with the body {"error": message}, the exception's text unchanged |
| Api.StatusByVerb | api.py:64-112 | for the same GameError, POST gives 400, GET and DELETE give 404, and PUT gives the error's own code |
| Api.PostValidGame | test_api.py:28-42 | a POST of valid fields answers 201 with the stored row, carrying the given fields and equal timestamps |
| Api.PostInvalidGame | test_api.py:44-52 | a POST of invalid fields answers 400 with the non-empty validation message and leaves the table unchanged |
| Api.PostAllFieldsInvalid | test_api.py:44-52 | a POST of ("", -1, 6) answers 400 with all three messages joined by ", " |
| Api.ListAfterFirstInsert | test_api.py:54-69 | after one insert into the empty table, GET /games answers 200 with exactly that game |
| Api.OnlyRowListed | game_controller.py:104-115 | a table holding one row lists exactly that row |
| Api.PutInvalidGame | test_api.py:118-125 | a PUT of invalid fields answers 400 whether or not the id exists, and the table is unchanged |
| Api.PutMissingGame | test_api.py:127-136 | a PUT of valid fields for an unknown id answers 404 with "Game not found", and the table is unchanged |
| Api.PutExistingGame | test_api.py:96-115 | a PUT of valid fields for a stored game answers 200 with the refreshed row, keeping created_at |
| Api.GetMissingGame | test_api.py:89-94 | a GET of an unknown id answers 404 with "Game not found" |
| Api.DeleteThenGet | test_api.py:138-164 | deleting a stored game answers 204 with no body; a GET and a second DELETE of that id then answer 404 with "Game not found" |

## Left out

- Database errors: every `sqlite3.Error` that the controller turns into
  `GameError("Database error: ...", 500)` comes from the environment. The
  step functions never fail that way. The handlers do model a GameError of
  any code, and `Outcome.Failed` covers any other exception.
- Connections and configuration: the `get_db` connection, its database-name
  lookup, the row-to-dict mapping and the commits are I/O. The table is a
  value, or the fields of `GameStore`.
- `create_tables` drops and recreates the table. It is modelled only as the
  `GameStore` constructor, which yields the empty table with the id sequence
  reset.
- Timestamps: `datetime('now')` becomes an abstract `nat` clock reading
  passed in as `now`. Its text format and the unused `strftime` value are
  not modelled. Nothing in the code makes the clock non-decreasing, so
  `updated_at >= created_at` is proved only under that hypothesis.
- Order of ties: SQLite leaves open the relative order of rows with equal
  `created_at`. The model lists ties by descending id, and its contracts
  promise only the `created_at` order.
- Id exhaustion: SQLite's 64-bit limit on AUTOINCREMENT is not modelled.
  Ids are unbounded.
- Field types: a name of a non-string type, a float rate and a non-numeric
  price are not modelled. Each field is either missing or of its declared
  type.
- The Flask-RESTX machinery is not modelled: request and response models,
  Swagger docs, `marshal`, and the key lookup and coercion of `api.payload`.
  A response body carries the Game value itself, and a missing payload key
  appears only as `Outcome.Failed` with its text.
- main.py is not part of this model. That covers HTML pages, form parsing,
  flash messages, redirects, content negotiation and the CORS hook.
- Floating point: price is only compared with 0 and stored, so it is a
  `real`.
- Concurrency: each call is one atomic step. Concurrent requests and
  transaction interleaving are not modelled.

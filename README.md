# Art appraisal submissions: a Dafny model

This project models the part of the Informal Art Consultants web application that has real invariants to protect. That part is the `submissions` table with its six prepared statements (`database.js`), and the request handlers that guard it (`server.js`). Those handlers cover the upload policy, the stored file name, the secret retrieval code, the `/submit` flow, the admin session flag, the admin guard, the dashboard's search-or-list choice and the appraisal update.

Modules:

- `Common` (common.dfy): `Option` (SQL NULL, or a request field that is absent) and `Result`.
- `SqlLike` (sql_like.dfy): SQLite's `LIKE`, which `searchByArtist` uses. It has `%` and `_` wildcards and ASCII-only case folding. The module proves that a pattern `'%' || q || '%'` with no wildcard in `q` means "contains `q`, ignoring ASCII case".
- `Database` (database.dfy): a row datatype, pure functions giving the meaning of each statement over a sequence of rows, and a class `Store`. The store holds the rows in rowid order plus the AUTOINCREMENT counter (`sqlite_sequence`), and has one method per statement. The read methods have no `modifies` clause, so the verifier checks that they change nothing.
- `Hex` (hex.dfy): `Buffer.toString('hex')`, and decoding. Decoding gives the bytes back, so hex rendering is injective.
- `Upload` (upload.dfy): multer's `fileFilter`, the 10 MiB `fileSize` limit, Node's `path.extname`, and the `filename` rule.
- `Server` (server.dfy): the session object as a class, and each relevant route as a method. `AppraisalScenario` is a client method that replays a submit → check → appraise → check sequence using only the contracts.

Inputs the program gets from its environment are parameters:

- the bytes from `crypto.randomBytes(8)`;
- the clock value that `CURRENT_TIMESTAMP` stores, as an integer;
- `ADMIN_PASSWORD`, as an `Option<string>` because it may be unset.

Behaviour of the code that the model keeps as written:

- The secret code is 8 random bytes rendered as 16 hex characters, so it carries 64 bits.
- A code collision is not retried. The UNIQUE failure is caught and the generic error page is shown.
- Required fields are not validated by the handler. An absent field is bound as NULL and fails the NOT NULL constraint, which ends in the same generic error. An empty string is stored as given.
- A dashboard with an empty search calls `getAll`. `SearchEmptyIsAll` proves that searching with `""` would select the same rows.

## Model

| member | source | states |
|---|---|---|
| `Database.WellFormed` | database.js:10-11 | in a table satisfying the invariant, no two rows share an id or a secret code |
| `Database.NewRow` | database.js:22-31 | a new row has NULL appraisal, low and high estimates, and the id, `created_at` and secret code it was given |
| `Database.Violation` | database.js:9-32 | an insert is refused exactly when the rowid counter is at its maximum, a NOT NULL column is NULL, or the secret code is already in the table |
| `Database.FindByCode` | database.js:34 | the result is absent exactly when no row has that code; otherwise it is a row of the table with that code |
| `Database.FindById` | database.js:36 | the result is absent exactly when no row has that id; otherwise it is a row of the table with that id |
| `Database.SetAppraisal` | database.js:37 | same length; rows with the id get exactly the three appraisal columns replaced, and every other row and column is untouched |
| `Database.MatchingArtist` | database.js:38 | each row whose artist name is LIKE `'%' \|\| q \|\| '%'` is kept as often as it occurs, and no other row is kept |
| `Database.SortNewestFirst` | database.js:35 | the result is a permutation of the input with `created_at` non-increasing |
| `Database.Store.constructor` | database.js:8-27 | a fresh table is empty, its counter is 0, and the table invariant holds |
| `Database.Store.Insert` | database.js:10-32 | on a violation: the error, with table and counter unchanged; otherwise the id is counter + 1, strictly above every existing id, and one row holding the bound values is appended; the invariant (increasing ids, unique codes) is kept |
| `Database.Store.GetByCode` | database.js:34 | absent exactly when no row has the code; otherwise the unique row with that code; no state change |
| `Database.Store.GetById` | database.js:36 | absent exactly when no row has the id; otherwise the unique row with that id; no state change |
| `Database.Store.GetAll` | database.js:35 | a permutation of the whole table, newest first; no state change |
| `Database.Store.SearchByArtist` | database.js:38 | exactly the rows whose artist matches the LIKE pattern, newest first; no state change |
| `Database.Store.UpdateAppraisal` | database.js:37 | the new table is `SetAppraisal` of the old one, the counter is unchanged, the invariant is kept, and `changes` is 1 if the id exists and 0 otherwise |
| `Database.CodeDetermines` | database.js:11 | in a well-formed table, two rows with the same secret code are the same row |
| `Database.IdDetermines` | database.js:10 | in a well-formed table, two rows with the same id are the same row |
| `Database.SetAppraisalKeepsKeys` | database.js:37 | an appraisal update keeps every id and code in place, so it preserves the table invariant |
| `Database.InsertThenFindByCode` | database.js:29-34 | round trip: after inserting code C, looking C up returns the new row with every bound value and with null appraisal, low and high estimates |
| `Database.InsertKeepsWellFormed` | database.js:10-11 | a successful insert keeps ids increasing and codes unique, with the counter at the new id |
| `Database.SetAppraisalAbsent` | database.js:37 | updating an id that no row has leaves the table unchanged |
| `Database.SetAppraisalLastWriteWins` | database.js:37 | two updates of the same id leave only the second one's values |
| `Database.AppraisalVisibleByCode` | database.js:34-37 | after an update, lookup by code finds the same record, with the three appraisal fields replaced when its id was targeted |
| `Database.SearchLiteralIsSubstring` | database.js:38 | for a search string without `%` or `_`, a row is found exactly when its artist name contains the string, ignoring ASCII case |
| `Database.SearchEmptyIsAll` | database.js:38 | searching with the empty string would select the whole table in its original order |
| `SqlLike.PercentMatchesAll` | database.js:38 | `%` matches every string |
| `SqlLike.PrefixThenPercent` | database.js:38 | `q%` with a literal `q` matches exactly the strings that start with `q`, ignoring ASCII case |
| `SqlLike.SurroundedMatchesSubstring` | database.js:38 | `%q%` with a literal `q` matches exactly the strings that contain `q`, ignoring ASCII case |
| `SqlLike.EmptySearchMatchesAll` | database.js:38 | `%%` matches every string |
| `SqlLike.Fold` | database.js:38 | the folded character is never an ASCII upper-case letter; it is a lower-case letter exactly when the input is a letter of either case; every non-letter is unchanged |
| `SqlLike.FoldEqual` | database.js:38 | two characters compare equal under LIKE exactly when they are equal or are the same ASCII letter in opposite case |
| `SqlLike.Like` | database.js:38 | a pattern without `%` only matches strings of its own length |
| `SqlLike.LikeSelf` | database.js:38 | every string matches itself used as a pattern |
| `Hex.Encode` | server.js:84 | two characters per byte, all lower-case hexadecimal digits |
| `Hex.DecodeEncode` | server.js:84 | decoding the hex rendering gives the original bytes |
| `Hex.EncodeInjective` | server.js:36 | different byte strings have different hex renderings |
| `Upload.FileFilter` | server.js:44-51 | accepts exactly `image/jpeg` and `image/png`; rejects with 'Only JPEG and PNG images are allowed' |
| `Upload.ExtName` | server.js:37 | the extension is empty, or a dot followed by no other dot and no `/` |
| `Upload.ExtNameOfPlainName` | server.js:37 | for a name without `/`, the extension is the tail from the last dot, except for a leading-dot name and `..` |
| `Upload.ExtNameWithoutDot` | server.js:37 | a name without `/` and without a dot has no extension |
| `Upload.StoredFilename` | server.js:35-38 | 16 lower-case hex characters followed by the extension of the original name; it contains no `/` |
| `Upload.StoredFilenameInjective` | server.js:35-38 | different random bytes give different stored names, whatever the original names |
| `Upload.Receive` | server.js:41-52 | no file, or a file part with an empty file name (which multer skips), gives no file; a file is stored only if the filter accepts its type and its size is at most 10×1024×1024 bytes; a stored file gets the stored-filename rule; a rejection carries the type message, or else the size message |
| `Server.Session.constructor` | server.js:25-30 | a new session is not an admin session |
| `Server.OrNull` | server.js:95-98 | NULL exactly when the field is absent or empty; otherwise the value as submitted |
| `Server.SecretCode` | server.js:84 | 16 lower-case hex characters |
| `Server.SecretCodeInjective` | server.js:84 | distinct random draws give distinct codes, so codes range over 2^64 values |
| `Server.BuildParams` | server.js:87-99 | every NOT NULL column is bound exactly when the form has every required field; the code and '/uploads/' + filename are bound; no optional column is bound to the empty string |
| `Server.SubmitInsertFails` | server.js:86-99 | the insert from `/submit` fails exactly when the counter is exhausted, a required field is absent, or the code is taken; optional fields never cause a failure |
| `Server.SubmitRoundTrip` | server.js:87-99 | looking up a new code returns the form's values, `photo_path` = '/uploads/' + filename, null-defaulted optional fields and no appraisal |
| `Server.Submit` | server.js:75-106 | an upload error, or a missing file (including an empty-named file part), renders the index page with that message and inserts nothing; otherwise a failed insert renders the generic error and changes nothing, and a successful one appends the row and redirects to `/submitted/<code>`; a redirect means the code is new and now in the table |
| `Server.Check` | server.js:116-122 | an unknown code renders the not-found message; a known code shows exactly that row |
| `Server.PasswordMatchesAsWritten` | server.js:134 | strict equality as written: true exactly when both sides are absent, or both are present and equal |
| `Server.UnsetPasswordAdmitsMissingField` | server.js:134 | the comparison as written admits a request with no password when none is configured |
| `Server.PasswordAccepted` | server.js:134 | accepted exactly when a password is configured and the request carries that exact string |
| `Server.PasswordAcceptedAgreesWhenConfigured` | server.js:134 | with a password configured, the corrected and the written comparison agree; with none, nothing is accepted |
| `Server.Login` | server.js:133-140 | the admin flag becomes old flag or accepted; accepted redirects to the dashboard, otherwise 'Invalid password' and the flag is unchanged |
| `Server.AdminHome` | server.js:126-131 | an admin session is redirected to the dashboard; any other session sees the login page |
| `Server.RequireAdmin` | server.js:54-59 | lets the request through exactly when the session is an admin session; otherwise the response is a redirect to `/admin` |
| `Server.SearchTerm` | server.js:143 | the search is empty exactly when the query parameter is absent or empty; otherwise it is the parameter as given |
| `Server.Dashboard` | server.js:142-148 | a non-admin is redirected to `/admin`; an admin gets all rows for an empty search and the artist matches otherwise, newest first |
| `Server.AdminSubmission` | server.js:150-156 | a non-admin is redirected to `/admin`; an unknown id redirects to the dashboard; a known id shows exactly that row |
| `Server.Appraise` | server.js:158-162 | a non-admin is redirected to `/admin` with the table untouched; an admin's request applies `SetAppraisal` with the three body fields unvalidated, then redirects to the dashboard |

## Findings

| source | as written | input that shows it | evidently intended | confidence | as-written member | corrected member |
|---|---|---|---|---|---|---|
| server.js:134 | `req.body.password === process.env.ADMIN_PASSWORD` is true when both sides are `undefined` | ADMIN_PASSWORD not set in the environment, and a POST to `/admin/login` whose body has no `password` field: the session becomes an admin session | with no configured password, no login succeeds | medium (depends on deployment; not executed) | `Server.UnsetPasswordAdmitsMissingField` (over `Server.PasswordMatchesAsWritten`) | `Server.PasswordAccepted`, used by `Server.Login` |

## Left out

- Server.Login: uses the corrected comparison `PasswordAccepted`, so it does not admit a missing password when ADMIN_PASSWORD is unset, unlike the source (see Findings).
- Express setup, view rendering, static files and `listen` (server.js:10-30, 63-73, 108-114, 164-166): plumbing with no behaviour to state. Responses are reduced to the view name, the error message and the data passed.
- The disk write and multer's streaming: a stored upload is modelled only by its name. The file orphaned when the insert fails is not modelled, because it is file I/O.
- Upload.Receive: models multer's skip of an empty-named file part, but not multer's other errors. These include a file in a field other than `photo`, more than one file, and other busboy limits. Only the type filter and the size limit are modelled.
- Upload.ExtName: follows Node's POSIX algorithm. The reduction of the client's file name to a base name by the multipart parser happens before this and is not modelled.
- `crypto.randomBytes`: its bytes are parameters, because randomness cannot be verified.
- express-session cookie mechanics and the 2-hour `maxAge` expiry: behaviour of a foreign library. A session, once an admin session, stays one in the model.
- dotenv loading: the password is a parameter.
- SQLite engine details: the WAL pragma, connections, and the text format and one-second resolution of `CURRENT_TIMESTAMP`. `created_at` is an integer clock value. Comparing it numerically orders rows the same way as comparing the timestamp text.
- Database.SortNewestFirst: only promises a permutation with non-increasing `created_at`. SQLite does not define the order of rows with equal timestamps, and neither does the model's contract.
- Route `:id` parameters are text that SQLite's integer affinity converts. The model takes the id as an integer already, so ids like `"05"` or `"abc"` are not modelled.
- Request body values that are arrays or objects (possible with extended URL-encoded parsing) make the SQLite binding throw. The model only has absent or string fields.
- `console.error(e)` in the `/submit` handler (server.js:102): logging, with no effect on state or response.
- A `search` query parameter given more than once reaches server.js:143 as an array; the model takes it as absent or one string.
- Exceptions thrown by `getByCode`, `getById`, `getAll`, `searchByArtist` or `updateAppraisal`, which Express would turn into an error response, are not modelled.
- The `/`, `/disclaimer`, `/testimonials`, `/check` and `/submitted/:code` routes only render a page.
- SqlLike.Fold: SQLite folds only ASCII letters and `_` matches one Unicode code point; the model's `char` is a Unicode scalar value, so both agree. A JavaScript string holding an unpaired surrogate, which has no exact counterpart in SQLite's text, is not modelled.
- Numeric validation of the estimates: the code does none, so low ≤ high is not an invariant.

# Public-Issue: a Dafny model of the reporting and admin logic

Public-Issue is a small Flask application (`app.py`). Citizens report municipal
problems such as potholes or broken lights: an email, a category, a description,
an optional photo and an optional location with coordinates. An administrator
logs in, lists the reports newest first and changes their status.

This project models the decisions underneath the web plumbing, proves them, and
leaves the plumbing out.

- `wrappers.dfy`, module `Wrappers`: `Option`, standing for Python's `None`.
- `text.dfy`, module `Text`: the string operations the handlers rely on.
  - `str.strip()` with Python's whitespace set.
  - `str.lower()` on ASCII letters.
  - Decimal formatting of a timestamp.
  - The order SQLite's BINARY collation gives TEXT values.
- `upload.dfy`, module `Upload`: the extension allow-set, `allowed_file`, and the
  name a saved photo is stored under.
- `issues.dfy`, module `Issues`: the `issues` table.
  - A row datatype and the INSERT, UPDATE and ORDER BY semantics as functions.
  - The class `IssueStore`: the rows in insertion order plus the AUTOINCREMENT
    counter.
- `auth.dfy`, module `Auth`: the `is_admin` session flag.
  - A step function over login and logout events, and the class `Session`.
- `app.dfy`, module `App`: the handlers `report`, `admin_login`, `admin_logout`,
  `admin_dashboard` and `admin_update`.
  - `Report` works on an `IssueStore`; `AdminLogin` and `AdminLogout` on a
    `Session`; `AdminDashboard` and `AdminUpdate` on both.
  - Each returns an outcome value in place of the redirect or page it would send.

Some things are passed in as parameters rather than modelled:
- the clock, as `ts` (the value of `int(datetime.utcnow().timestamp())`) and the ISO text `created`;
- werkzeug's `secure_filename`, as `sanitize: string -> string`;
- Python's `float`, as `parse: string -> Option<real>`, which answers `None`
  where `float` raises `ValueError`.

`created_at` is kept as the text app.py stores. The listing orders it the way
SQLite compares TEXT: code point by code point, with a proper prefix first.

`report` strips all six text fields (app.py:58-63), so the stored description
and location are stripped too.

The handlers keep one table invariant, `App.AllReported`: every row has a
non-empty, stripped email and issue type, and a stripped description and location.

## Model

| member | source | states |
|---|---|---|
| `Text.IsSpace` | app.py:58-63 | the characters `strip()` removes are whitespace; no ASCII letter, digit, dot or underscore is among them, and space, tab, newline and carriage return are |
| `Text.Strip` | app.py:58-63 | the result has no whitespace at either end, and it is empty exactly when the input is all whitespace |
| `Text.StripIsInfix` | app.py:58-63 | the stripped text is a contiguous piece of the input with only whitespace before and after it |
| `Text.StripExactly` | app.py:58-63 | whitespace + trimmed middle + whitespace strips to exactly that middle, so only surrounding whitespace is removed |
| `Text.StripIdempotent` | app.py:58-63 | stripping an already stripped field changes nothing |
| `Text.Lower` | app.py:50 | lowering keeps the length and maps each character through the ASCII lower-case mapping |
| `Text.Decimal` | app.py:75 | the timestamp text is a non-empty run of decimal digits with no leading zero |
| `Text.DecimalRoundTrip` | app.py:75 | reading the digits back gives the timestamp |
| `Text.DecimalInjective` | app.py:75 | two different timestamps are never written the same |
| `Text.TextLe` | app.py:116 | the BINARY comparison of TEXT: a prefix sorts before the longer text, and a text whose first character is larger sorts after |
| `Text.TextLeTotal` | app.py:116 | any two `created_at` texts are comparable under the collation order |
| `Text.TextLeTransitive` | app.py:116 | the collation order is transitive |
| `Text.TextLeAntisymmetric` | app.py:116 | texts that are each at most the other are equal |
| `Upload.RSplitDot` | app.py:50 | `rsplit('.', 1)` gives a before part and an after part that rebuild the name around a dot, with no dot in the after part |
| `Upload.RSplitDotUnique` | app.py:50 | that split is the only one whose after part has no dot, so it is the split at the last dot |
| `Upload.AllowedFile` | app.py:49-50 | an allowed name contains a dot and has at least four characters |
| `Upload.AllowedFileIff` | app.py:49-50 | for `before + "." + ext` with no dot in `ext`, the name is allowed exactly when lower-cased `ext` is png, jpg, jpeg or gif |
| `Upload.NoDotNotAllowed` | app.py:50 | a name without a dot is rejected |
| `Upload.AllowedFileOfLower` | app.py:50 | lower-casing the whole name does not change the answer |
| `Upload.AllowedFileIgnoresCase` | app.py:50 | names equal up to letter case get the same answer |
| `Upload.AllowedFileLastExtension` | app.py:49-50 | `a.tar.PNG` is accepted: only the last extension counts, in any case |
| `Upload.AllowedFileInnerExtension` | app.py:49-50 | `photo.png.exe` is rejected even though `png` appears in it |
| `Upload.AllowedFileEdgeNames` | app.py:49-50 | `.gif` is accepted and `photo.` (empty extension) is rejected |
| `Upload.StoredName` | app.py:75 | the stored name is the decimal digits of `ts`, an underscore, then the sanitised file name |
| `Upload.StoredNamesDifferAcrossTimestamps` | app.py:75 | stored photo names built from different `ts` values never collide, whatever the original file names |
| `Issues.Created` | app.py:33-46 | an inserted row holds exactly the supplied columns, the id the engine assigned, and status "open" |
| `Issues.SetStatus` | app.py:126 | the UPDATE keeps every id and length, sets the status of rows with the id, and leaves every other row as it was |
| `Issues.SetStatusMissingId` | app.py:126 | an UPDATE for an id no row has changes nothing |
| `Issues.SetStatusLastWins` | app.py:126 | after two updates of one row, the later status is the one that stays |
| `Issues.OrderByCreatedDesc` | app.py:116 | the listing holds the same rows as the table, each as often, with `created_at` never increasing |
| `Issues.NewestListedFirst` | app.py:116 | a row created strictly after all others comes first in any listing of the rows newest first, whichever order it gives ties, so also in what the dashboard returns |
| `Issues.IssueStore.constructor` | app.py:30-47 | a fresh database has an empty table and the next id is 1 |
| `Issues.IssueStore.Insert` | app.py:80-84 | one row is appended and the old rows are unchanged; the new id is larger than every earlier id and the counter moves past it |
| `Issues.IssueStore.UpdateStatus` | app.py:126 | an id within the SQLite INTEGER range is bound and the rows become the UPDATE's result; a larger id cannot be bound and nothing changes; the counter is untouched and ids stay unique |
| `Issues.IssueStore.SelectNewestFirst` | app.py:116 | returns every row of the table, each once, newest first, without changing the table |
| `Auth.Step` | app.py:99-107 | after one request the flag is set exactly when it was a login with both credentials right, or it was set before and the request was not a logout |
| `Auth.After` | app.py:99-107 | a run of requests ending in a logout leaves no admin; one ending in a right login leaves an admin; page fetches alone leave the flag as it was |
| `Auth.AfterIff` | app.py:94-109 | after a run of requests, the session is an admin's exactly when a login with both credentials right came after the last logout, or it was an admin's and no logout came |
| `Auth.NoAdminWithoutLogin` | app.py:99-100 | a fresh session that never posted the right user and password never becomes an admin's |
| `Auth.Session.constructor` | app.py:113 | a new session carries no admin flag |
| `App.Field` | app.py:58-63 | `request.form.get(key, default)`: the posted value when the key is present, the default otherwise |
| `App.PhotoName` | app.py:70-71 | a photo counts only when one was sent with a non-empty file name, and then that name is used |
| `App.Coordinate` | app.py:83 | `float(text) if text else None` gives None exactly when the stripped text is empty |
| `App.ReportDecision` | app.py:65-84 | the submission is refused for missing fields exactly when the email or the issue type is all whitespace; it is refused for a bad file exactly when both are present and a named photo fails `allowed_file` |
| `App.SavedPhoto` | app.py:69-76 | a file is written exactly when a named photo passes `allowed_file` and email and issue type are present, and it is written under the stored name for `ts` |
| `App.SavedPhotosDifferAcrossTimestamps` | app.py:69-76 | two submissions whose photos are saved under the same name were saved with the same `ts` |
| `App.ReportRow` | app.py:58-84 | the inserted row holds the stripped email, issue type, description and location (email and issue type non-empty); each coordinate is None for empty text and otherwise the parsed value; and the given timestamp |
| `App.InsertedPhoto` | app.py:69-76 | an inserted row names a photo exactly when a named photo was sent; then that photo passed `allowed_file` and the row names the saved file |
| `App.Report` | app.py:56-87 | outcome follows the checks in source order; a rejection or a coordinate failure leaves the table unchanged; on success exactly one row is appended with a fresh id; the saved file is reported; the table invariant is kept |
| `App.NothingSavedOnRejection` | app.py:65-74 | a submission rejected for missing fields or a bad file type writes no file |
| `App.MissingFieldsFirst` | app.py:65-67 | a missing email or issue type is the answer whatever the photo and coordinates are |
| `App.InsertedIff` | app.py:65-84 | a row is inserted exactly when email and issue type are not all whitespace, there is no named photo or it passes `allowed_file`, and both coordinates parse or are empty |
| `App.AdminLogin` | app.py:94-103 | only a POST with both credentials right sets the flag and is accepted; anything else leaves the session as it was; a GET shows the form |
| `App.AdminLogout` | app.py:105-109 | the flag is cleared whatever it was |
| `App.AdminDashboard` | app.py:111-117 | rows are returned exactly when the session is an admin's, and then all of them, newest first |
| `App.AdminUpdate` | app.py:119-128 | without the flag nothing changes; with it the row with that id gets the posted status (or "open" when none is posted) and no other row or field changes; success is reported even for an unknown id; an id above 2^63 - 1 cannot be bound, so the request fails and nothing changes |

## Left out

- Flask routing, `render_template`, `flash` and `redirect`: each handler returns an outcome value in their place, and the `index` page is not modelled.
- The flash messages Flask keeps in the session are not modelled; the session holds only `is_admin`.
- `uploaded_file` and `send_from_directory` serve files from disk; this is file I/O.
- `photo.save` is file I/O. `App.Report` returns the name of the file it would write, so the case where the photo is written but no row follows (a coordinate that does not parse) is visible.
- The SQLite connection handling in `get_conn` and the `with` blocks is not modelled. The table is the `IssueStore` object; a failing statement, a locked database and rollback are not modelled.
- Issues.IssueStore.Insert: does not model SQLite's upper bound on AUTOINCREMENT ids (2^63 - 1, after which an INSERT fails).
- Issues.IssueStore.constructor: models a fresh database file only; reopening a file that already has rows is not modelled.
- `secure_filename` belongs to werkzeug and its code is not part of this model; it is the parameter `sanitize`.
- Python's `float` is the parameter `parse`. Coordinates are mathematical reals, not IEEE doubles.
- App.Coordinate: non-finite floats are not modelled. `float('nan')` succeeds and SQLite stores NaN as NULL, so a non-empty text can end up as NULL. `inf` and `-inf` have no real counterpart.
- `datetime.utcnow()`, `.timestamp()` and `.isoformat()` are the parameters `ts` and `created`. The timestamp is taken as a non-negative integer.
- Upload.StoredNamesDifferAcrossTimestamps: distinct `ts` values give distinct names, but distinct seconds need not give distinct `ts`: `utcnow()` returns a naive datetime that `.timestamp()` reads as local time, so `ts` is shifted by the UTC offset and, across a daylight-saving jump, two different hours can give the same `ts` values.
- Text.Lower: models ASCII letters only, whereas Python's `str.lower()` maps all of Unicode. Apart from the Kelvin sign (U+212A), which lowers to `k`, no non-ASCII character lowers to a string made only of ASCII letters (for example 'İ' lowers to "i\u0307"); since none of png, jpg, jpeg or gif contains `k`, `allowed_file` accepts and rejects the same names.
- The environment overrides for `ADMIN_USER`, `ADMIN_PASS` and `SECRET_KEY` are not modelled; the credentials are their default values. Session signing is not modelled.
- Auth.Session: the model follows the session cookie the server issued last, and it assumes the client neither replays an older cookie nor forges one. In the source the session is a signed cookie kept by the client (app.py:19, 100, 107). `session.clear()` only asks the browser to drop it, so a kept copy of the pre-logout cookie stays valid for the session lifetime and still carries `is_admin`. With the default `SECRET_KEY` "change_this_secret", anyone can sign a cookie with `is_admin` set without logging in. `Auth.AfterIff` and `Auth.NoAdminWithoutLogin` hold only under this assumption.
- Issues.OrderByCreatedDesc: fixes one order among rows with equal `created_at`. SQLite leaves that order unspecified, so the dashboard contract promises only "same rows, never increasing".
- Concurrent requests from the hosting server and `app.run` are not modelled.

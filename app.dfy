/**
 * The request handlers of app.py that decide something: `report`,
 * `admin_login`, `admin_logout`, `admin_dashboard` and `admin_update`.
 * Each HTTP response (a redirect, a flashed notice, a rendered page) is
 * reduced to an outcome value. The clock, `secure_filename` and `float` are
 * parameters.
 */
module App {
  import opened Wrappers
  import opened Text
  import opened Upload
  import opened Issues
  import opened Auth

  /** The posted form fields, `request.form`. */
  type Form = map<string, string>

  /** `request.form.get(key, default)`. */
  function Field(form: Form, key: string, default: string): (r: string)
    ensures key in form ==> r == form[key]
    ensures key !in form ==> r == default
  {
    if key in form then form[key] else default
  }

  /** An uploaded file of `request.files`; only its client-side name matters here. */
  datatype Photo = Photo(filename: string)

  /** `photo and photo.filename`: the name of an uploaded photo, if one came with a name. */
  function PhotoName(photo: Option<Photo>): (r: Option<string>)
    ensures r.Some? ==> photo.Some? && r.value == photo.value.filename && r.value != ""
    ensures r.None? ==> photo.None? || photo.value.filename == ""
  {
    if photo.Some? && photo.value.filename != "" then Some(photo.value.filename) else None
  }

  /**
   * `float(text) if text else None` with the float parser given as `parse`,
   * which answers None where Python's `float` raises ValueError.
   */
  predicate CoordinateParses(text: string, parse: string -> Option<real>) {
    text == "" || parse(text).Some?
  }

  function Coordinate(text: string, parse: string -> Option<real>): (r: Option<real>)
    requires CoordinateParses(text, parse)
    ensures r.None? <==> text == ""
  {
    if text == "" then None else parse(text)
  }

  /** How `report` ends. */
  datatype ReportOutcome =
    | RejectedMissingFields   // "Email and issue type required!", back to the form
    | RejectedBadFile         // "File type not allowed...", back to the form
    | FailedCoordinate        // `float` raised on a latitude or longitude: server error
    | Inserted                // "Issue reported successfully!", one row added

  function Email(form: Form): string { Strip(Field(form, "email", "")) }
  function IssueType(form: Form): string { Strip(Field(form, "issue_type", "")) }
  function Latitude(form: Form): string { Strip(Field(form, "latitude", "")) }
  function Longitude(form: Form): string { Strip(Field(form, "longitude", "")) }

  /** Which way `report` goes, in the order it checks. */
  function ReportDecision(form: Form, photo: Option<Photo>, parse: string -> Option<real>): (r: ReportOutcome)
    ensures r == RejectedMissingFields <==> AllSpace(Field(form, "email", "")) || AllSpace(Field(form, "issue_type", ""))
    ensures r == RejectedBadFile <==>
      !AllSpace(Field(form, "email", "")) && !AllSpace(Field(form, "issue_type", "")) &&
      PhotoName(photo).Some? && !AllowedFile(PhotoName(photo).value)
  {
    if Email(form) == "" || IssueType(form) == "" then RejectedMissingFields
    else if PhotoName(photo).Some? && !AllowedFile(PhotoName(photo).value) then RejectedBadFile
    else if !CoordinateParses(Latitude(form), parse) || !CoordinateParses(Longitude(form), parse) then FailedCoordinate
    else Inserted
  }

  /** The photo file `report` writes, if it writes one. */
  function SavedPhoto(form: Form, photo: Option<Photo>, parse: string -> Option<real>, ts: nat, sanitize: string -> string): (r: Option<string>)
    ensures r.Some? <==>
      PhotoName(photo).Some? && AllowedFile(PhotoName(photo).value) &&
      !AllSpace(Field(form, "email", "")) && !AllSpace(Field(form, "issue_type", ""))
    ensures r.Some? ==> r.value == StoredName(ts, PhotoName(photo).value, sanitize)
  {
    var outcome := ReportDecision(form, photo, parse);
    if (outcome == Inserted || outcome == FailedCoordinate) && PhotoName(photo).Some? then
      Some(StoredName(ts, PhotoName(photo).value, sanitize))
    else
      None
  }

  /**
   * Files saved by two submissions under the same name were saved with the
   * same timestamp value, whatever the two photos were called.
   */
  lemma SavedPhotosDifferAcrossTimestamps(
    form1: Form, photo1: Option<Photo>, ts1: nat,
    form2: Form, photo2: Option<Photo>, ts2: nat,
    parse: string -> Option<real>, sanitize: string -> string)
    requires SavedPhoto(form1, photo1, parse, ts1, sanitize).Some?
    requires SavedPhoto(form1, photo1, parse, ts1, sanitize) == SavedPhoto(form2, photo2, parse, ts2, sanitize)
    ensures ts1 == ts2
  {
    StoredNamesDifferAcrossTimestamps(ts1, PhotoName(photo1).value, ts2, PhotoName(photo2).value, sanitize);
  }

  /**
   * What a row written by `report` satisfies: a non-empty email and issue
   * type, and every text field stripped.
   */
  predicate Reported(i: Issue) {
    ReportedValues(Supplied(i))
  }

  predicate ReportedValues(n: NewIssue) {
    n.email != "" && Trimmed(n.email) &&
    n.issueType != "" && Trimmed(n.issueType) &&
    Trimmed(n.description) && Trimmed(n.location)
  }

  predicate AllReported(rows: seq<Issue>) {
    forall i :: 0 <= i < |rows| ==> Reported(rows[i])
  }

  lemma AllReportedAppend(rows: seq<Issue>, r: Issue)
    requires AllReported(rows) && Reported(r)
    ensures AllReported(rows + [r])
  {
    assert forall i :: 0 <= i < |rows| ==> (rows + [r])[i] == rows[i];
  }

  /** The values `report` inserts when it gets that far. */
  function ReportRow(form: Form, photo: Option<Photo>, parse: string -> Option<real>, ts: nat, sanitize: string -> string, created: string): (r: NewIssue)
    requires ReportDecision(form, photo, parse) == Inserted
    ensures ReportedValues(r)
    ensures r.email == Email(form) && r.issueType == IssueType(form)
    ensures r.description == Strip(Field(form, "description", ""))
    ensures r.location == Strip(Field(form, "location", ""))
    ensures r.latitude == Coordinate(Latitude(form), parse) && r.longitude == Coordinate(Longitude(form), parse)
    ensures r.latitude.None? <==> Latitude(form) == ""
    ensures r.longitude.None? <==> Longitude(form) == ""
    ensures r.createdAt == created
  {
    var location := Strip(Field(form, "location", ""));
    NewIssue(
      Email(form), IssueType(form), Strip(Field(form, "description", "")),
      SavedPhoto(form, photo, parse, ts, sanitize),
      if location == "" then "" else location,
      Coordinate(Latitude(form), parse), Coordinate(Longitude(form), parse),
      created)
  }

  /**
   * An inserted row names a photo exactly when a named photo came with the
   * submission, and then the photo passed the extension check and the row
   * names the file that was saved.
   */
  lemma InsertedPhoto(form: Form, photo: Option<Photo>, parse: string -> Option<real>, ts: nat, sanitize: string -> string, created: string)
    requires ReportDecision(form, photo, parse) == Inserted
    ensures var r := ReportRow(form, photo, parse, ts, sanitize, created);
      && (r.imagePath.None? <==> PhotoName(photo).None?)
      && (r.imagePath.Some? ==> AllowedFile(PhotoName(photo).value) && r.imagePath == SavedPhoto(form, photo, parse, ts, sanitize))
  {
  }

  /**
   * `report`: reads and strips the fields, rejects a submission without an
   * email or issue type, rejects a named photo whose extension is not
   * allowed, saves an accepted photo under `StoredName(ts, ...)`, and inserts
   * one row stamped `created`. Returns the outcome and the name of the file
   * it saved, if any.
   */
  method Report(db: IssueStore, form: Form, photo: Option<Photo>, parse: string -> Option<real>,
                ts: nat, sanitize: string -> string, created: string)
    returns (outcome: ReportOutcome, saved: Option<string>)
    requires db.Valid() && AllReported(db.rows)
    modifies db
    ensures db.Valid() && AllReported(db.rows)
    ensures outcome == ReportDecision(form, photo, parse)
    ensures saved == SavedPhoto(form, photo, parse, ts, sanitize)
    ensures outcome == Inserted ==>
      db.rows == old(db.rows) + [Created(old(db.nextId), ReportRow(form, photo, parse, ts, sanitize, created))] &&
      db.nextId == old(db.nextId) + 1
    ensures outcome != Inserted ==> db.rows == old(db.rows) && db.nextId == old(db.nextId)
  {
    var email, issueType := Email(form), IssueType(form);
    var description := Strip(Field(form, "description", ""));
    var location := Strip(Field(form, "location", ""));
    var lat, lon := Latitude(form), Longitude(form);

    if email == "" || issueType == "" {
      NothingSavedOnRejection(form, photo, parse, ts, sanitize);
      return RejectedMissingFields, None;
    }

    var imageName: Option<string> := None;
    var filename := PhotoName(photo);
    if filename.Some? {
      if !AllowedFile(filename.value) {
        NothingSavedOnRejection(form, photo, parse, ts, sanitize);
        return RejectedBadFile, None;
      }
      imageName := Some(StoredName(ts, filename.value, sanitize));
    }
    saved := imageName;

    if !CoordinateParses(lat, parse) || !CoordinateParses(lon, parse) {
      assert ReportDecision(form, photo, parse) == FailedCoordinate;
      assert saved == SavedPhoto(form, photo, parse, ts, sanitize);
      return FailedCoordinate, saved;
    }
    assert ReportDecision(form, photo, parse) == Inserted;
    assert imageName == SavedPhoto(form, photo, parse, ts, sanitize);
    var row := NewIssue(email, issueType, description, imageName, if location == "" then "" else location,
                        Coordinate(lat, parse), Coordinate(lon, parse), created);
    assert row == ReportRow(form, photo, parse, ts, sanitize, created);
    ghost var before := db.rows;
    var id := db.Insert(row);
    AllReportedAppend(before, Created(id, row));
    outcome := Inserted;
  }

  /** A rejected submission writes no file. */
  lemma NothingSavedOnRejection(form: Form, photo: Option<Photo>, parse: string -> Option<real>, ts: nat, sanitize: string -> string)
    requires ReportDecision(form, photo, parse) in {RejectedMissingFields, RejectedBadFile}
    ensures SavedPhoto(form, photo, parse, ts, sanitize) == None
  {
  }

  /** A missing email or issue type is reported before anything about the photo or the coordinates. */
  lemma MissingFieldsFirst(form: Form, photo: Option<Photo>, parse: string -> Option<real>)
    requires Email(form) == "" || IssueType(form) == ""
    ensures ReportDecision(form, photo, parse) == RejectedMissingFields
  {
  }

  /** A submission is inserted exactly when its fields are present, its photo (if named) is allowed, and its coordinates parse. */
  lemma InsertedIff(form: Form, photo: Option<Photo>, parse: string -> Option<real>)
    ensures ReportDecision(form, photo, parse) == Inserted <==>
      !AllSpace(Field(form, "email", "")) && !AllSpace(Field(form, "issue_type", "")) &&
      (PhotoName(photo).None? || AllowedFile(PhotoName(photo).value)) &&
      CoordinateParses(Latitude(form), parse) && CoordinateParses(Longitude(form), parse)
  {
  }

  /** How `admin_login` ends. */
  datatype LoginOutcome = LoginPage | LoginRejected | LoginAccepted

  /** The session event an `admin_login` request is. */
  function LoginEvent(isPost: bool, form: Form): SessionEvent {
    if isPost then LoginPost(Field(form, "user", ""), Field(form, "pass", "")) else LoginGet
  }

  /** `admin_login`: on a POST with both credentials right, sets `is_admin`; otherwise leaves it. */
  method AdminLogin(session: Session, isPost: bool, form: Form) returns (outcome: LoginOutcome)
    modifies session
    ensures session.isAdmin == Step(old(session.isAdmin), LoginEvent(isPost, form))
    ensures outcome == LoginAccepted <==> SucceedsLogin(LoginEvent(isPost, form))
    ensures outcome == LoginPage <==> !isPost
  {
    if isPost {
      var user := Field(form, "user", "");
      var pw := Field(form, "pass", "");
      if user == AdminUser && pw == AdminPass {
        session.isAdmin := true;
        return LoginAccepted;
      }
      return LoginRejected;
    }
    return LoginPage;
  }

  /** `admin_logout`: clears the session. */
  method AdminLogout(session: Session)
    modifies session
    ensures session.isAdmin == Step(old(session.isAdmin), Logout)
  {
    session.isAdmin := false;
  }

  /** What `admin_dashboard` answers: a redirect to the login page, or the listing. */
  datatype DashboardView = RedirectToLogin | Listing(issues: seq<Issue>)

  /** `admin_dashboard`: all rows, newest first, and only to an admin session. */
  method AdminDashboard(session: Session, db: IssueStore) returns (view: DashboardView)
    ensures view.Listing? <==> session.isAdmin
    ensures view.Listing? ==> multiset(view.issues) == multiset(db.rows) && SortedByCreatedDesc(view.issues)
  {
    if !session.isAdmin {
      return RedirectToLogin;
    }
    var rows := db.SelectNewestFirst();
    return Listing(rows);
  }

  /** How `admin_update` ends. */
  datatype UpdateOutcome =
    | Unauthorized     // "Unauthorized", back to the login page
    | BindOverflow     // sqlite3 cannot bind the id: OverflowError, server error
    | StatusUpdated    // "Status updated", back to the dashboard

  /** The status `admin_update` writes when the form has none. */
  const FormStatusDefault: string := "open"

  /**
   * `admin_update`: for an admin session, sets the status of the row with
   * `issueId` (the status field, or "open" when it is missing) and reports
   * success whether or not such a row exists; an id too large for an SQLite
   * INTEGER ends in a server error instead. Without the flag, changes nothing.
   */
  method AdminUpdate(session: Session, db: IssueStore, issueId: nat, form: Form) returns (outcome: UpdateOutcome)
    requires db.Valid() && AllReported(db.rows)
    modifies db
    ensures db.Valid() && AllReported(db.rows)
    ensures outcome == Unauthorized <==> !session.isAdmin
    ensures outcome == BindOverflow <==> session.isAdmin && issueId > MaxSqliteInteger
    ensures db.rows == (if outcome == StatusUpdated then SetStatus(old(db.rows), issueId, Field(form, "status", FormStatusDefault)) else old(db.rows))
    ensures db.nextId == old(db.nextId)
  {
    if !session.isAdmin {
      return Unauthorized;
    }
    var status := Field(form, "status", FormStatusDefault);
    var bound := db.UpdateStatus(issueId, status);
    if !bound {
      return BindOverflow;
    }
    return StatusUpdated;
  }
}

/** The request handlers of the application that touch the submission table
    or the admin flag, with Express's request, response and session reduced
    to the values they read and the outcome they produce. Randomness, the
    clock and the configured password are parameters. */
module Server {
  import opened Common
  import Hex
  import Upload
  import Database

  const NoPhotoMessage: string := "Please upload a photo of the artwork"
  const GenericErrorMessage: string := "Something went wrong. Please try again."
  const InvalidPasswordMessage: string := "Invalid password"
  const NotFoundMessage: string := "No submission found with that code"

  /** What a handler sends back: a redirect, a page with an optional error
      message, the admin dashboard, or one submission on a page. */
  datatype Response =
    | Redirect(location: string)
    | Render(view: string, error: Option<string>)
    | ShowSubmissions(search: string, submissions: seq<Database.Submission>)
    | ShowSubmission(view: string, submission: Database.Submission)

  /** The per-client session; `isAdmin` is unset (false) until a login. */
  class Session {
    var isAdmin: bool

    constructor ()
      ensures !isAdmin
    {
      isAdmin := false;
    }
  }

  /** The text fields of the submission form as parsed into `req.body`;
      `None` is a field the request did not carry. */
  datatype SubmitForm = SubmitForm(
    artistName: Option<string>,
    title: Option<string>,
    date: Option<string>,
    medium: Option<string>,
    dimensions: Option<string>,
    editionSize: Option<string>,
    provenance: Option<string>,
    exhibitionHistory: Option<string>,
    purchasePrice: Option<string>)

  datatype AppraisalForm = AppraisalForm(
    appraisal: Option<string>,
    estimateLow: Option<string>,
    estimateHigh: Option<string>)

  predicate RequiredPresent(form: SubmitForm)
  {
    && form.artistName.Some? && form.title.Some? && form.date.Some?
    && form.medium.Some? && form.dimensions.Some?
  }

  /** `value || null` for a form field: an absent field and the empty string
      (the falsy values a field can have) become NULL. */
  function OrNull(v: Option<string>): (r: Option<string>)
    ensures r.None? <==> v.None? || v.value == ""
    ensures r.Some? ==> r == v
  {
    match v
    case None => None
    case Some(s) => if s == "" then None else v
  }

  /** `crypto.randomBytes(8).toString('hex')`. */
  function SecretCode(random: seq<Hex.byte>): (code: string)
    requires |random| == 8
    ensures |code| == 16 && Hex.IsLowerHex(code)
  {
    Hex.Encode(random)
  }

  /** Distinct random draws give distinct codes, so the code space has 2^64
      members. */
  lemma SecretCodeInjective(r1: seq<Hex.byte>, r2: seq<Hex.byte>)
    requires |r1| == 8 && |r2| == 8
    requires SecretCode(r1) == SecretCode(r2)
    ensures r1 == r2
  {
    Hex.EncodeInjective(r1, r2);
  }

  /** The parameter object `/submit` passes to `insertSubmission`. */
  function BuildParams(form: SubmitForm, code: string, filename: string): (p: Database.InsertParams)
    ensures Database.HasRequired(p) <==> RequiredPresent(form)
    ensures p.secretCode == Some(code) && p.photoPath == Some("/uploads/" + filename)
    ensures p.editionSize != Some("") && p.provenance != Some("")
    ensures p.exhibitionHistory != Some("") && p.purchasePrice != Some("")
  {
    Database.InsertParams(
      Some(code), Some("/uploads/" + filename),
      form.artistName, form.title, form.date, form.medium, form.dimensions,
      OrNull(form.editionSize), OrNull(form.provenance),
      OrNull(form.exhibitionHistory), OrNull(form.purchasePrice))
  }

  /** The insert of `/submit` fails exactly when the rowid space is used up,
      a required field is absent, or the freshly drawn code is already taken;
      absent or empty optional fields never make it fail. */
  lemma SubmitInsertFails(rows: seq<Database.Submission>, lastId: int, form: SubmitForm, code: string, filename: string)
    ensures Database.Violation(rows, lastId, BuildParams(form, code, filename)).Some?
      <==> lastId >= Database.MaxRowId || !RequiredPresent(form) || Database.CodeTaken(rows, code)
  {
  }

  /** Round trip of a submission: looking the new code up yields a row that
      holds the form's values, the `/uploads/` path of the stored file, the
      optional fields null-defaulted and no appraisal. */
  lemma SubmitRoundTrip(rows: seq<Database.Submission>, lastId: int, form: SubmitForm, code: string,
                        filename: string, now: int)
    requires Database.Violation(rows, lastId, BuildParams(form, code, filename)).None?
    ensures var p := BuildParams(form, code, filename);
      var found := Database.FindByCode(rows + [Database.NewRow(lastId + 1, p, now)], code);
      && found.Some?
      && found.value.secretCode == code
      && found.value.photoPath == "/uploads/" + filename
      && Some(found.value.artistName) == form.artistName
      && Some(found.value.title) == form.title
      && Some(found.value.date) == form.date
      && Some(found.value.medium) == form.medium
      && Some(found.value.dimensions) == form.dimensions
      && found.value.editionSize == OrNull(form.editionSize)
      && found.value.provenance == OrNull(form.provenance)
      && found.value.exhibitionHistory == OrNull(form.exhibitionHistory)
      && found.value.purchasePrice == OrNull(form.purchasePrice)
      && found.value.appraisal.None? && found.value.estimateLow.None? && found.value.estimateHigh.None?
  {
    Database.InsertThenFindByCode(rows, lastId + 1, BuildParams(form, code, filename), now);
  }

  /** POST `/submit`. `nameBytes` and `codeBytes` are the two draws of
      `crypto.randomBytes(8)`, `now` the clock. The file is received first;
      only a stored file leads to an insert, and only a successful insert to
      the redirect that reveals the code. A code collision is not retried. */
  method Submit(store: Database.Store, file: Option<Upload.IncomingFile>, form: SubmitForm,
                nameBytes: seq<Hex.byte>, codeBytes: seq<Hex.byte>, now: int) returns (resp: Response)
    requires store.Valid()
    requires |nameBytes| == 8 && |codeBytes| == 8
    modifies store
    ensures store.Valid()
    ensures var up := Upload.Receive(file, nameBytes);
      !up.Stored? ==>
        && resp == Render("index", Some(if up.NoFile? then NoPhotoMessage else up.message))
        && store.rows == old(store.rows) && store.lastId == old(store.lastId)
    ensures var up := Upload.Receive(file, nameBytes);
      var code := SecretCode(codeBytes);
      up.Stored? ==>
        var p := BuildParams(form, code, up.filename);
        if Database.Violation(old(store.rows), old(store.lastId), p).None? then
          && resp == Redirect("/submitted/" + code)
          && store.rows == old(store.rows) + [Database.NewRow(old(store.lastId) + 1, p, now)]
          && store.lastId == old(store.lastId) + 1
        else
          && resp == Render("index", Some(GenericErrorMessage))
          && store.rows == old(store.rows) && store.lastId == old(store.lastId)
    ensures resp.Redirect? ==>
      && resp.location == "/submitted/" + SecretCode(codeBytes)
      && !Database.CodeTaken(old(store.rows), SecretCode(codeBytes))
      && Database.CodeTaken(store.rows, SecretCode(codeBytes))
  {
    var up := Upload.Receive(file, nameBytes);
    if up.Rejected? {
      return Render("index", Some(up.message));
    }
    if up.NoFile? {
      return Render("index", Some(NoPhotoMessage));
    }
    var code := SecretCode(codeBytes);
    var p := BuildParams(form, code, up.filename);
    var r := store.Insert(p, now);
    if r.Success? {
      assert store.rows[|store.rows| - 1].secretCode == code;
      resp := Redirect("/submitted/" + code);
    } else {
      resp := Render("index", Some(GenericErrorMessage));
    }
  }

  /** GET `/check/:code`: the anonymous result page. */
  method Check(store: Database.Store, code: string) returns (resp: Response)
    requires store.Valid()
    ensures !Database.CodeTaken(store.rows, code) ==> resp == Render("check", Some(NotFoundMessage))
    ensures forall i :: 0 <= i < |store.rows| && store.rows[i].secretCode == code ==>
      resp == ShowSubmission("result", store.rows[i])
  {
    var found := store.GetByCode(code);
    if found.None? {
      return Render("check", Some(NotFoundMessage));
    }
    resp := ShowSubmission("result", found.value);
  }

  /** `req.body.password === process.env.ADMIN_PASSWORD` as written: strict
      equality, under which two undefined values are equal. */
  function PasswordMatchesAsWritten(submitted: Option<string>, configured: Option<string>): (ok: bool)
    ensures ok <==> (submitted.None? && configured.None?)
                    || (submitted.Some? && configured.Some? && submitted.value == configured.value)
  {
    submitted == configured
  }

  /** With ADMIN_PASSWORD unset, a login request without a password field
      passes the comparison. */
  lemma UnsetPasswordAdmitsMissingField()
    ensures PasswordMatchesAsWritten(None, None)
  {
  }

  /** The comparison as intended: a password is accepted only when one is
      configured and the request carries exactly that string. */
  function PasswordAccepted(submitted: Option<string>, configured: Option<string>): (ok: bool)
    ensures ok ==> submitted.Some? && configured.Some?
    ensures ok <==> configured.Some? && submitted.Some? && submitted.value == configured.value
  {
    configured.Some? && submitted == configured
  }

  /** Whenever a password is configured, the corrected comparison decides as
      the written one does; they differ only when none is configured. */
  lemma PasswordAcceptedAgreesWhenConfigured(submitted: Option<string>, configured: Option<string>)
    ensures configured.Some? ==> (PasswordAccepted(submitted, configured) <==> PasswordMatchesAsWritten(submitted, configured))
    ensures configured.None? ==> !PasswordAccepted(submitted, configured)
  {
  }

  /** POST `/admin/login`. The flag is set only on an accepted password; a
      mismatch leaves the session as it was. */
  method Login(session: Session, submitted: Option<string>, configured: Option<string>) returns (resp: Response)
    modifies session
    ensures session.isAdmin == (old(session.isAdmin) || PasswordAccepted(submitted, configured))
    ensures PasswordAccepted(submitted, configured) ==> resp == Redirect("/admin/dashboard")
    ensures !PasswordAccepted(submitted, configured) ==> resp == Render("admin-login", Some(InvalidPasswordMessage))
  {
    if PasswordAccepted(submitted, configured) {
      session.isAdmin := true;
      resp := Redirect("/admin/dashboard");
    } else {
      resp := Render("admin-login", Some(InvalidPasswordMessage));
    }
  }

  /** GET `/admin`: the login page, or the dashboard for an admin session. */
  method AdminHome(session: Session) returns (resp: Response)
    ensures session.isAdmin ==> resp == Redirect("/admin/dashboard")
    ensures !session.isAdmin ==> resp == Render("admin-login", None)
  {
    if session.isAdmin {
      return Redirect("/admin/dashboard");
    }
    resp := Render("admin-login", None);
  }

  /** `requireAdmin`: `None` lets the request through to the handler,
      otherwise the response to send instead. */
  function RequireAdmin(session: Session): (halt: Option<Response>)
    reads session
    ensures halt.None? <==> session.isAdmin
    ensures halt.Some? ==> halt.value == Redirect("/admin")
  {
    if session.isAdmin then None else Some(Redirect("/admin"))
  }

  /** `req.query.search || ''`. */
  function SearchTerm(query: Option<string>): (search: string)
    ensures search == "" <==> query.None? || query.value == ""
    ensures query.Some? ==> search == query.value
  {
    match query
    case None => ""
    case Some(s) => s
  }

  /** GET `/admin/dashboard`: the artist search for a non-empty search
      string, every submission otherwise, newest first. */
  method Dashboard(session: Session, store: Database.Store, query: Option<string>) returns (resp: Response)
    ensures !session.isAdmin ==> resp == Redirect("/admin")
    ensures session.isAdmin ==> resp.ShowSubmissions? && resp.search == SearchTerm(query)
    ensures session.isAdmin ==> Database.NewestFirst(resp.submissions)
    ensures session.isAdmin && SearchTerm(query) == "" ==> multiset(resp.submissions) == multiset(store.rows)
    ensures session.isAdmin && SearchTerm(query) != "" ==> forall s ::
      multiset(resp.submissions)[s] == if Database.ArtistMatches(s, SearchTerm(query)) then multiset(store.rows)[s] else 0
  {
    var halt := RequireAdmin(session);
    if halt.Some? {
      return halt.value;
    }
    var search := SearchTerm(query);
    var submissions;
    if search != "" {
      submissions := store.SearchByArtist(search);
    } else {
      submissions := store.GetAll();
    }
    resp := ShowSubmissions(search, submissions);
  }

  /** GET `/admin/submission/:id`: one submission, or back to the dashboard. */
  method AdminSubmission(session: Session, store: Database.Store, id: int) returns (resp: Response)
    requires store.Valid()
    ensures !session.isAdmin ==> resp == Redirect("/admin")
    ensures session.isAdmin && !Database.IdPresent(store.rows, id) ==> resp == Redirect("/admin/dashboard")
    ensures session.isAdmin ==> forall i :: 0 <= i < |store.rows| && store.rows[i].id == id ==>
      resp == ShowSubmission("admin-detail", store.rows[i])
  {
    var halt := RequireAdmin(session);
    if halt.Some? {
      return halt.value;
    }
    var found := store.GetById(id);
    if found.None? {
      return Redirect("/admin/dashboard");
    }
    resp := ShowSubmission("admin-detail", found.value);
  }

  /** POST `/admin/appraise/:id`: only an admin session reaches the update;
      the three body fields are written as they came, without validation. */
  method Appraise(session: Session, store: Database.Store, id: int, form: AppraisalForm) returns (resp: Response)
    requires store.Valid()
    modifies store
    ensures store.Valid() && store.lastId == old(store.lastId)
    ensures !session.isAdmin ==> resp == Redirect("/admin") && store.rows == old(store.rows)
    ensures session.isAdmin ==> resp == Redirect("/admin/dashboard")
    ensures session.isAdmin ==>
      store.rows == Database.SetAppraisal(old(store.rows), id, form.appraisal, form.estimateLow, form.estimateHigh)
  {
    var halt := RequireAdmin(session);
    if halt.Some? {
      return halt.value;
    }
    var _ := store.UpdateAppraisal(form.appraisal, form.estimateLow, form.estimateHigh, id);
    resp := Redirect("/admin/dashboard");
  }

  /** The submission step of a client scenario: a 2 MB JPEG photo and a
      form with every required field go into an empty table. */
  method ScenarioSubmit(form: SubmitForm, originalName: string, nameBytes: seq<Hex.byte>,
                        codeBytes: seq<Hex.byte>, now: int)
    returns (store: Database.Store)
    requires RequiredPresent(form) && originalName != ""
    requires |nameBytes| == 8 && |codeBytes| == 8
    ensures fresh(store) && store.Valid() && |store.rows| == 1
    ensures store.rows[0].secretCode == SecretCode(codeBytes)
    ensures Some(store.rows[0].artistName) == form.artistName && Some(store.rows[0].title) == form.title
    ensures store.rows[0].provenance == OrNull(form.provenance) && store.rows[0].appraisal.None?
  {
    store := new Database.Store();
    var photo := Upload.IncomingFile(originalName, "image/jpeg", 2 * 1024 * 1024);
    var resp := Submit(store, Some(photo), form, nameBytes, codeBytes, now);
  }

  /** A client scenario: the submission is looked up anonymously, an
      appraisal from an anonymous session is refused, the operator logs in
      and appraises, and the next lookup shows the appraisal beside the
      unchanged description. Every assertion follows from the contracts. */
  method AppraisalScenario(originalName: string, nameBytes: seq<Hex.byte>, codeBytes: seq<Hex.byte>,
                           password: string, now: int)
    requires originalName != ""
    requires |nameBytes| == 8 && |codeBytes| == 8
  {
    var form := SubmitForm(Some("Jane Doe"), Some("Untitled I"), Some("1970"), Some("Oil on canvas"),
                           Some("60 x 80 cm"), None, Some(""), None, None);
    var store := ScenarioSubmit(form, originalName, nameBytes, codeBytes, now);
    assert store.rows[0].provenance.None?;
    var session := new Session();
    var code := SecretCode(codeBytes);

    var page := Check(store, code);
    assert page == ShowSubmission("result", store.rows[0]);
    var id := page.submission.id;

    var denied := Appraise(session, store, id, AppraisalForm(Some("Forged"), None, None));
    assert denied == Redirect("/admin") && store.rows[0].appraisal.None?;

    var _ := Login(session, Some(password), Some(password));
    assert session.isAdmin;
    var _ := Appraise(session, store, id, AppraisalForm(Some("Genuine, strong condition"), Some("5000"), Some("8000")));
    assert store.rows[0].secretCode == code;
    page := Check(store, code);
    assert page == ShowSubmission("result", store.rows[0]);
    assert page.submission.appraisal == Some("Genuine, strong condition");
    assert page.submission.estimateHigh == Some("8000");
    assert page.submission.artistName == "Jane Doe" && page.submission.title == "Untitled I";
  }

  /** A client scenario: a 15 MB photo is refused and adds no row. */
  method OversizedScenario(store: Database.Store, form: SubmitForm, originalName: string,
                           nameBytes: seq<Hex.byte>, codeBytes: seq<Hex.byte>, now: int)
    requires store.Valid()
    requires originalName != ""
    requires |nameBytes| == 8 && |codeBytes| == 8
    modifies store
  {
    var before := store.rows;
    var huge := Upload.IncomingFile(originalName, "image/jpeg", 15 * 1024 * 1024);
    assert Upload.Receive(Some(huge), nameBytes) == Upload.Rejected(Upload.TooLargeMessage);
    var resp := Submit(store, Some(huge), form, nameBytes, codeBytes, now);
    assert resp == Render("index", Some(Upload.TooLargeMessage));
    assert store.rows == before;
  }
}

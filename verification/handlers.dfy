/**
  The POST branches of the `/add` and `/delete` handlers as transitions of
  the `tblFilms` table: each takes the table and the request and gives the
  table after the commit together with the HTTP response.

  A successful handler answers with a redirect to the `read` page; an
  uncaught exception leaves the session uncommitted and Flask answers with
  its generic status 500 page.
 */
module Handlers {
  import opened Options
  import opened PyText
  import opened PyInt
  import opened Catalog
  import opened Forms
  import opened Messages
  import opened AddFilm

  const ReadEndpoint := "read"

  datatype Response =
    | Text(message: Message, status: int)   // a plain-text answer
    | Redirect(endpoint: string)            // `redirect(url_for(endpoint))`
    | ServerError                           // an uncaught exception

  /** The HTTP status code of a response. */
  function Status(resp: Response): int {
    match resp
    case Text(_, status) => status
    case Redirect(_) => 302
    case ServerError => 500
  }

  /** `POST /add`: the validation outcome decides whether a row is added.
      The commit fails, with an uncaught exception, when an integer column
      of the row does not fit SQLite's INTEGER. */
  function PostAdd(t: Table, req: Request, policy: Policy): (r: (Table, Response))
    ensures r.1.Redirect? <==> r.0 != t
    ensures r.1.Redirect? ==> r.1.endpoint == ReadEndpoint
    ensures r.0 != t ==> r.0.Keys == t.Keys + {NextId(t)} && NextId(t) !in t
    ensures r.0 != t ==> Storable(r.0[NextId(t)])
    ensures forall k | k in t :: k in r.0 && r.0[k] == t[k]
    ensures r.1.ServerError? ==>
      policy == AsWritten || req.contentType == JsonMediaType || Validate(req, policy).Inserted?
  {
    match Validate(req, policy)
    case Inserted(film) =>
      if Storable(film) then (Insert(t, film).0, Redirect(ReadEndpoint))
      else (t, ServerError)
    case Rejected(m, status) => (t, Text(m, status))
    case Crashed(_) => (t, ServerError)
  }

  /** The id a delete request names, when it is present and parses. */
  function DeleteTarget(form: Form): Option<int> {
    if FilmID in form then ParseInt(form[FilmID]) else None
  }

  /** `POST /delete`: the named row is removed when it exists. The lookup
      raises, uncaught, for a key that does not fit SQLite's INTEGER. */
  function PostDelete(t: Table, form: Form): (r: (Table, Response))
    ensures r.0.Keys <= t.Keys && |t| - |r.0| <= 1
    ensures forall k | k in r.0 :: r.0[k] == t[k]
    ensures r.1.Redirect? <==> r.0 != t
    ensures r.1.Redirect? ==> r.1.endpoint == ReadEndpoint
    ensures r.1.ServerError? <==> DeleteTarget(form).Some? && !FitsInteger(DeleteTarget(form).value)
  {
    match Get(form, FilmID)
    case None => (t, Text(FilmIdRequired, 200))
    case Some(text) =>
      match ParseInt(text)
      case None => (t, Text(FilmIdInvalid, 200))
      case Some(id) =>
        if !FitsInteger(id) then (t, ServerError)
        else if id in t then (Remove(t, id), Redirect(ReadEndpoint))
        else (t, Text(FilmNotFound, 200))
  }

  // ---------------------------------------------------------------------
  // Adding
  // ---------------------------------------------------------------------

  /** The table changes exactly for the acceptable requests whose row fits
      the database, and then gains that row under the next free key and
      nothing else; an acceptable row that does not fit answers 500. */
  lemma PostAddChangesIff(t: Table, req: Request, policy: Policy)
    ensures PostAdd(t, req, policy).0 != t <==> Acceptable(req, policy) && Storable(FilmOf(req))
    ensures Acceptable(req, policy) && Storable(FilmOf(req)) ==>
      PostAdd(t, req, policy) == (t[NextId(t) := FilmOf(req)], Redirect(ReadEndpoint))
    ensures Acceptable(req, policy) && !Storable(FilmOf(req)) ==>
      PostAdd(t, req, policy) == (t, ServerError)
  {
    ValidateInsertsIff(req, policy);
  }

  /** A rejected request leaves the table as it was and answers with the
      rejection's message and status; a crash answers 500. */
  lemma PostAddRejection(t: Table, req: Request, policy: Policy)
    requires !Acceptable(req, policy)
    ensures PostAdd(t, req, policy).0 == t
    ensures Validate(req, policy).Rejected? ==>
      PostAdd(t, req, policy).1 ==
        Text(Validate(req, policy).message, Validate(req, policy).status)
    ensures Validate(req, policy).Crashed? ==> Status(PostAdd(t, req, policy).1) == 500
  {
    ValidateInsertsIff(req, policy);
  }

  /** An unsupported media type is answered with status 415 and no row. */
  lemma PostAddUnsupportedMediaType(t: Table, req: Request, policy: Policy)
    requires RatingValue(req).Some? && !KnownMediaType(req)
    ensures PostAdd(t, req, policy) == (t, Text(UnsupportedMediaType, 415))
  {
    UnsupportedMediaTypeRejected(req, policy);
  }

  /** The handler as written answers 500 to an otherwise acceptable request
      without a duration; the corrected handler stores it. */
  lemma PostAddAbsentDuration(t: Table, req: Request)
    requires Acceptable(req, Intended) && Duration !in req.form
    ensures PostAdd(t, req, AsWritten) == (t, ServerError)
    ensures Storable(FilmOf(req)) ==> PostAdd(t, req, Intended).0 == t[NextId(t) := FilmOf(req)]
    ensures Storable(FilmOf(req)) ==> PostAdd(t, req, Intended).0[NextId(t)].duration.None?
  {
    AbsentDurationCrashes(req);
    assert Validate(req, AsWritten) == Add(req);
    if Storable(FilmOf(req)) {
      PostAddChangesIff(t, req, Intended);
    }
  }

  // ---------------------------------------------------------------------
  // Deleting
  // ---------------------------------------------------------------------

  /** The table changes exactly when the form names an existing id that fits
      the database, and then loses that row and nothing else. */
  lemma PostDeleteChangesIff(t: Table, form: Form)
    ensures PostDelete(t, form).0 != t <==>
      DeleteTarget(form).Some? && FitsInteger(DeleteTarget(form).value) && DeleteTarget(form).value in t
    ensures DeleteTarget(form).Some? && FitsInteger(DeleteTarget(form).value) && DeleteTarget(form).value in t ==>
      PostDelete(t, form).0 == t - {DeleteTarget(form).value}
  {
  }

  /** Each way a delete request can fail, with the table unchanged: no id,
      an id `int()` refuses, an id the database cannot hold, an unknown id. */
  lemma PostDeleteRejections(t: Table, form: Form)
    ensures FilmID !in form ==> PostDelete(t, form) == (t, Text(FilmIdRequired, 200))
    ensures FilmID in form && ParseInt(form[FilmID]).None? ==>
      PostDelete(t, form) == (t, Text(FilmIdInvalid, 200))
    ensures DeleteTarget(form).Some? && !FitsInteger(DeleteTarget(form).value) ==>
      PostDelete(t, form) == (t, ServerError)
    ensures DeleteTarget(form).Some? && FitsInteger(DeleteTarget(form).value) && DeleteTarget(form).value !in t ==>
      PostDelete(t, form) == (t, Text(FilmNotFound, 200))
  {
  }

  /** Deleting the same id twice: the second request finds nothing and
      changes nothing. */
  lemma PostDeleteTwice(t: Table, form: Form)
    ensures PostDelete(PostDelete(t, form).0, form).0 == PostDelete(t, form).0
    ensures PostDelete(t, form).1.Redirect? ==>
      PostDelete(PostDelete(t, form).0, form).1 == Text(FilmNotFound, 200)
  {
  }

  /** A key SQLite can store has at most 19 digits, far below the 4300 that
      `str()` and `int()` convert. */
  lemma KeyDigits(id: int)
    requires FitsInteger(id)
    ensures |Digits(id)| <= 19
  {
    assert Pow10(10) == 10_000_000_000;
    assert Pow10(19) == 10_000_000_000_000_000_000;
    FormatNatLength(if id < 0 then -id else id, 19);
  }

  /** The form a client submits to delete the row with key `id`: the key as
      `str()` renders it. */
  function DeleteForm(id: int): (form: Form)
    requires FitsInteger(id)
    ensures DeleteTarget(form) == Some(id)
  {
    KeyDigits(id);
    ParseFormat(id);
    map[FilmID := FormatInt(id)]
  }

  /** Deleting by a key that is in the table removes that row. */
  lemma PostDeleteKnown(t: Table, id: int)
    requires id in t && FitsInteger(id)
    ensures PostDelete(t, DeleteForm(id)) == (t - {id}, Redirect(ReadEndpoint))
  {
    var form := DeleteForm(id);
    assert Get(form, FilmID) == Some(form[FilmID]);
  }

  /** Adding a film and then deleting the key it was stored under gives back
      the table as it was. */
  lemma AddThenDelete(t: Table, req: Request, policy: Policy)
    requires Acceptable(req, policy) && Storable(FilmOf(req)) && FitsInteger(NextId(t))
    ensures PostDelete(PostAdd(t, req, policy).0, DeleteForm(NextId(t))) == (t, Redirect(ReadEndpoint))
  {
    PostAddChangesIff(t, req, policy);
    var (t', id) := Insert(t, FilmOf(req));
    PostDeleteKnown(t', id);
    InsertThenRemove(t, FilmOf(req));
  }
}

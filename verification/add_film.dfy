/**
  The POST branch of the `/add` handler (app.py lines 37-102): a fixed chain
  of checks on the submitted fields, where the first failing check decides
  the answer and only a request that passes every check yields a Film row.

  The request is abstracted to its `Content-Type` header value, the parsed
  form fields and the members of the parsed JSON object body. A handler
  that returns a bare string answers with status 200; an exception the
  handler does not catch becomes a `Crashed` outcome.
 */
module AddFilm {
  import opened Options
  import opened PyText
  import opened PyInt
  import opened Catalog
  import opened Forms
  import opened Messages

  /** A member of the JSON request body. Arrays and objects matter only in
      that `int()` refuses them, so their contents are not modelled. */
  datatype JsonValue = JNull | JBool(b: bool) | JNumber(n: int) | JString(s: string) | JArray | JObject

  /** What the handler reads from the request: the `Content-Type` header
      (the empty string when the client sent none), `request.form` and the
      members of `request.json`. */
  datatype Request = Request(
    contentType: string,
    form: Form,
    json: map<Field, JsonValue>
  )

  const JsonMediaType := "application/json"
  const FormMediaType := "application/x-www-form-urlencoded"

  /** The exceptions the handler raises and does not catch. */
  datatype Crash =
    | TitleIsNone       // `None.split()`: AttributeError
    | YearTypeError     // `int()` of a JSON array or object: TypeError
    | DurationUnbound   // `duration` read before assignment: UnboundLocalError

  datatype Outcome =
    | Rejected(message: Message, status: int)
    | Inserted(film: Film)
    | Crashed(cause: Crash)

  /** `AsWritten` follows the handler line by line; `Intended` differs only
      where the handler crashes on an absent title or an absent duration. */
  datatype Policy = AsWritten | Intended

  /** Python `int(x)` on a JSON value. */
  datatype Conversion = Converted(value: int) | ValueError | TypeError

  /** `request.form.get(FieldName(f))`. */
  function FormField(req: Request, f: Field): (r: Option<string>)
    ensures r.Some? <==> f in req.form
    ensures r.Some? ==> r.value == req.form[f]
  {
    Get(req.form, f)
  }

  predicate KnownMediaType(req: Request) {
    req.contentType == JsonMediaType || req.contentType == FormMediaType
  }

  /** `year_released_str`: from the JSON body for `application/json`, from
      the form otherwise. JSON `null` and a missing member both read as
      `None`. */
  function YearField(req: Request): (r: Option<JsonValue>)
    ensures r.Some? ==> r.value != JNull
    ensures req.contentType == JsonMediaType ==>
      (r.Some? <==> YearReleased in req.json && req.json[YearReleased] != JNull)
    ensures req.contentType == JsonMediaType && r.Some? ==> r.value == req.json[YearReleased]
    ensures req.contentType != JsonMediaType ==>
      r == (if YearReleased in req.form then Some(JString(req.form[YearReleased])) else None)
  {
    if req.contentType == JsonMediaType then
      if YearReleased in req.json && req.json[YearReleased] != JNull
      then Some(req.json[YearReleased]) else None
    else
      match FormField(req, YearReleased)
      case Some(s) => Some(JString(s))
      case None => None
  }

  /** `int(v)`: booleans count as 0 and 1, numbers are kept, strings are
      parsed, anything else is a type error. */
  function ToInt(v: JsonValue): (r: Conversion)
    ensures v.JString? ==> (r.Converted? <==> ParseInt(v.s).Some?)
    ensures v.JString? && r.Converted? ==> r.value == ParseInt(v.s).value
    ensures r.TypeError? <==> (v.JNull? || v.JArray? || v.JObject?)
    ensures v.JNumber? ==> r == Converted(v.n)
    ensures v.JBool? ==> r == Converted(if v.b then 1 else 0)
  {
    match v
    case JBool(b) => Converted(if b then 1 else 0)
    case JNumber(n) => Converted(n)
    case JString(s) =>
      (match ParseInt(s)
       case Some(n) => Converted(n)
       case None => ValueError)
    case _ => TypeError
  }

  /** The handler's sequence of checks, followed by the Film it writes:
      first the rating must be present and parse. */
  function Validate(req: Request, policy: Policy): (r: Outcome)
    ensures r.Inserted? ==> 1 <= r.film.rating <= 5
    ensures r.Inserted? && policy == AsWritten ==> r.film.duration.Some?
    ensures r.Crashed? && policy == Intended ==> r.cause == YearTypeError
  {
    match FormField(req, Rating)
    case None => Rejected(RatingRequired, 200)
    case Some(ratingText) =>
      match ParseInt(ratingText)
      case None => Rejected(RatingNotNumber, 200)
      case Some(rating) => MediaAndYearStage(req, rating, policy)
  }

  /** Then the media type must be one of the two recognised ones and the
      release year must be present and convert to an integer. */
  function MediaAndYearStage(req: Request, rating: int, policy: Policy): (r: Outcome)
    ensures r.Inserted? ==> r.film.rating == rating && 1 <= rating <= 5
    ensures r.Inserted? && policy == AsWritten ==> r.film.duration.Some?
    ensures r.Crashed? && policy == Intended ==> r.cause == YearTypeError
  {
    if !KnownMediaType(req) then Rejected(UnsupportedMediaType, 415)
    else
      match YearField(req)
      case None => Rejected(YearRequired, 200)
      case Some(yearValue) =>
        match ToInt(yearValue)
        case TypeError => Crashed(YearTypeError)
        case ValueError => Rejected(InternalServerError, 500)
        case Converted(year) => TitleStage(req, rating, year, policy)
  }

  /** Then every whitespace-separated word of the title must be alphabetic;
      the handler as written calls `split` on the title without checking that
      it was submitted. */
  function TitleStage(req: Request, rating: int, year: int, policy: Policy): (r: Outcome)
    ensures r.Inserted? ==> r.film.rating == rating && 1 <= rating <= 5 && r.film.yearReleased == year
    ensures r.Inserted? && policy == AsWritten ==> r.film.duration.Some?
    ensures r.Crashed? ==> policy == AsWritten
  {
    match FormField(req, Title)
    case None =>
      if policy == AsWritten then Crashed(TitleIsNone)
      else Rejected(TitleRequired, 200)
    case Some(title) =>
      if !WordsAlphaOrSpace(Split(title)) then Rejected(TitleInvalid, 200)
      else FieldStage(req, title, rating, year, policy)
  }

  /** Finally the rating range, the duration if one was submitted and the
      genre if one was submitted; the handler as written then builds the row
      from `duration`, which was never assigned when no duration was sent. */
  function FieldStage(req: Request, title: string, rating: int, year: int, policy: Policy): (r: Outcome)
    ensures r.Inserted? ==> r.film.title == title && r.film.rating == rating && r.film.yearReleased == year
    ensures r.Inserted? ==> 1 <= rating <= 5
    ensures r.Inserted? && policy == AsWritten ==> r.film.duration.Some?
    ensures r.Crashed? ==> policy == AsWritten && r.cause == DurationUnbound
  {
    if !(1 <= rating <= 5) then Rejected(RatingOutOfRange, 200)
    else
      var durationText := FormField(req, Duration);
      var duration := if durationText.Some? then ParseInt(durationText.value) else None;
      if durationText.Some? && duration.None? then Rejected(DurationNotNumber, 200)
      else if duration.Some? && duration.value < 1 then Rejected(DurationNotPositive, 200)
      else
        var genre := FormField(req, Genre);
        if genre.Some? && !WordsAlphaOrSpace(Split(genre.value)) then Rejected(GenreInvalid, 200)
        else if durationText.None? && policy == AsWritten then Crashed(DurationUnbound)
        else Inserted(Film(title, year, rating, duration, genre))
  }

  /** The handler as written. */
  function Add(req: Request): (r: Outcome)
    ensures r.Inserted? ==> 1 <= r.film.rating <= 5 && r.film.duration.Some?
  {
    Validate(req, AsWritten)
  }

  /** The handler with its two crashes corrected: an absent title is
      rejected and an absent duration is stored as NULL. */
  function AddIntended(req: Request): (r: Outcome)
    ensures r.Inserted? ==> 1 <= r.film.rating <= 5
    ensures r.Crashed? ==> r.cause == YearTypeError
  {
    Validate(req, Intended)
  }

  // ---------------------------------------------------------------------
  // Reference reading of the checks, one field at a time
  // ---------------------------------------------------------------------

  /** The rating, when it is present and parses. */
  function RatingValue(req: Request): Option<int> {
    if Rating in req.form then ParseInt(req.form[Rating]) else None
  }

  /** The release year, when it is present and `int()` accepts it. */
  function YearValue(req: Request): Option<int> {
    match YearField(req)
    case Some(v) => (match ToInt(v) case Converted(y) => Some(y) case _ => None)
    case None => None
  }

  /** The duration, when it is present and parses. */
  function DurationValue(req: Request): Option<int> {
    if Duration in req.form then ParseInt(req.form[Duration]) else None
  }

  predicate TitleAcceptable(req: Request) {
    Title in req.form && LettersAndSpaces(req.form[Title])
  }

  predicate DurationAcceptable(req: Request, policy: Policy) {
    if Duration in req.form then DurationValue(req).Some? && DurationValue(req).value >= 1
    else policy == Intended
  }

  predicate GenreAcceptable(req: Request) {
    Genre in req.form ==> LettersAndSpaces(req.form[Genre])
  }

  /** The constraints left once the title has passed. */
  predicate FieldsAcceptable(req: Request, rating: int, policy: Policy) {
    1 <= rating <= 5 && DurationAcceptable(req, policy) && GenreAcceptable(req)
  }

  /** Every field constraint of a film row, stated on the request itself,
      one field at a time: the requests for which the handler writes a row. */
  predicate Acceptable(req: Request, policy: Policy) {
    && RatingValue(req).Some?
    && KnownMediaType(req)
    && YearValue(req).Some?
    && TitleAcceptable(req)
    && FieldsAcceptable(req, RatingValue(req).value, policy)
  }

  /** The checks before the title check pass: rating, media type, year. */
  predicate PassesUpToTitle(req: Request) {
    RatingValue(req).Some? && KnownMediaType(req) && YearValue(req).Some?
  }

  /** The checks before the duration check pass: those and the title and
      the rating range. */
  predicate PassesUpToDuration(req: Request) {
    PassesUpToTitle(req) && TitleAcceptable(req) && 1 <= RatingValue(req).value <= 5
  }

  /** The checks before the genre check pass: those and the duration, when
      one was submitted. */
  predicate PassesUpToGenre(req: Request) {
    PassesUpToDuration(req) && (Duration in req.form ==> DurationValue(req).Some? && DurationValue(req).value >= 1)
  }

  /** The row an acceptable request produces, built from the parsed fields. */
  function FilmOf(req: Request): Film {
    Film(
      FormField(req, Title).GetOr([]),
      YearValue(req).GetOr(0),
      RatingValue(req).GetOr(0),
      DurationValue(req),
      FormField(req, Genre))
  }

  /** The row the last stage builds, when it builds one. */
  lemma FieldStageFilm(req: Request, title: string, rating: int, year: int, policy: Policy)
    requires FieldStage(req, title, rating, year, policy).Inserted?
    ensures FieldStage(req, title, rating, year, policy).film ==
      Film(title, year, rating, DurationValue(req), FormField(req, Genre))
  {
  }

  lemma FieldStageInsertsAcceptable(req: Request, title: string, rating: int, year: int, policy: Policy)
    requires FieldStage(req, title, rating, year, policy).Inserted?
    ensures FieldsAcceptable(req, rating, policy)
  {
    assert FormField(req, Duration).Some? ==> ParseInt(FormField(req, Duration).value) == DurationValue(req);
    if Genre in req.form {
      SplitCheckIff(req.form[Genre]);
    }
  }

  lemma FieldStageAcceptableInserted(req: Request, title: string, rating: int, year: int, policy: Policy)
    requires FieldsAcceptable(req, rating, policy)
    ensures FieldStage(req, title, rating, year, policy).Inserted?
  {
    assert FormField(req, Duration).Some? ==> ParseInt(FormField(req, Duration).value) == DurationValue(req);
    if Genre in req.form {
      SplitCheckIff(req.form[Genre]);
    }
  }

  lemma FieldStageIff(req: Request, title: string, rating: int, year: int, policy: Policy)
    ensures FieldStage(req, title, rating, year, policy).Inserted? <==> FieldsAcceptable(req, rating, policy)
    ensures FieldStage(req, title, rating, year, policy).Inserted? ==>
      FieldStage(req, title, rating, year, policy).film ==
        Film(title, year, rating, DurationValue(req), FormField(req, Genre))
  {
    if FieldStage(req, title, rating, year, policy).Inserted? {
      FieldStageInsertsAcceptable(req, title, rating, year, policy);
      FieldStageFilm(req, title, rating, year, policy);
    }
    if FieldsAcceptable(req, rating, policy) {
      FieldStageAcceptableInserted(req, title, rating, year, policy);
    }
  }

  /** Once the title has passed, the handler is at its last stage. */
  lemma TitleStageReachesFields(req: Request, rating: int, year: int, policy: Policy)
    requires TitleAcceptable(req)
    ensures TitleStage(req, rating, year, policy) == FieldStage(req, req.form[Title], rating, year, policy)
  {
    SplitCheckIff(req.form[Title]);
  }

  lemma TitleStageIff(req: Request, rating: int, year: int, policy: Policy)
    ensures TitleStage(req, rating, year, policy).Inserted? <==>
      TitleAcceptable(req) && FieldsAcceptable(req, rating, policy)
    ensures TitleStage(req, rating, year, policy).Inserted? ==>
      TitleStage(req, rating, year, policy).film ==
        Film(req.form[Title], year, rating, DurationValue(req), FormField(req, Genre))
  {
    if Title in req.form {
      var title := req.form[Title];
      SplitCheckIff(title);
      FieldStageIff(req, title, rating, year, policy);
    }
  }

  /** Once the rating, the media type and the year have passed, the handler
      is at its title check. */
  lemma ValidateReachesTitle(req: Request, policy: Policy)
    requires PassesUpToTitle(req)
    ensures Validate(req, policy) ==
      TitleStage(req, RatingValue(req).value, YearValue(req).value, policy)
  {
  }

  lemma MediaAndYearStageIff(req: Request, rating: int, policy: Policy)
    ensures MediaAndYearStage(req, rating, policy).Inserted? <==>
      KnownMediaType(req) && YearValue(req).Some? && TitleAcceptable(req) && FieldsAcceptable(req, rating, policy)
    ensures MediaAndYearStage(req, rating, policy).Inserted? ==>
      MediaAndYearStage(req, rating, policy).film ==
        Film(req.form[Title], YearValue(req).value, rating, DurationValue(req), FormField(req, Genre))
  {
    if KnownMediaType(req) && YearValue(req).Some? {
      TitleStageIff(req, rating, YearValue(req).value, policy);
    }
  }

  /** The handler writes a row exactly for the acceptable requests, and the
      row holds the submitted title and genre and the parsed year, rating and
      duration. */
  lemma ValidateInsertsIff(req: Request, policy: Policy)
    ensures Validate(req, policy).Inserted? <==> Acceptable(req, policy)
    ensures Validate(req, policy).Inserted? ==> Validate(req, policy).film == FilmOf(req)
  {
    if RatingValue(req).Some? {
      MediaAndYearStageIff(req, RatingValue(req).value, policy);
    }
  }

  /** Every row the handler writes passes the field checks the add handler
      makes before it writes a row, and carries the submitted title. */
  lemma InsertedFilmIsValid(req: Request, policy: Policy)
    requires Validate(req, policy).Inserted?
    ensures ValidFilm(Validate(req, policy).film)
    ensures Title in req.form && Validate(req, policy).film.title == req.form[Title]
  {
    ValidateInsertsIff(req, policy);
  }

  // ---------------------------------------------------------------------
  // The individual rejections, in the order the handler makes them
  // ---------------------------------------------------------------------

  /** A missing rating is reported first, whatever else is wrong. */
  lemma MissingRatingWins(req: Request, policy: Policy)
    requires Rating !in req.form
    ensures Validate(req, policy) == Rejected(RatingRequired, 200)
  {
  }

  /** A rating that `int()` refuses is reported next. */
  lemma NonNumericRatingRejected(req: Request, policy: Policy)
    requires Rating in req.form && ParseInt(req.form[Rating]).None?
    ensures Validate(req, policy) == Rejected(RatingNotNumber, 200)
  {
  }

  /** An unrecognised media type is refused with 415 once the rating parses,
      and without a recognised media type nothing is ever written. */
  lemma UnsupportedMediaTypeRejected(req: Request, policy: Policy)
    requires !KnownMediaType(req)
    ensures !Validate(req, policy).Inserted?
    ensures RatingValue(req).Some? ==> Validate(req, policy) == Rejected(UnsupportedMediaType, 415)
  {
  }

  /** A missing year is reported, and a year string `int()` refuses answers
      "Internal Server Error" with status 500; neither writes a row. */
  lemma YearRejections(req: Request, policy: Policy)
    requires RatingValue(req).Some? && KnownMediaType(req)
    ensures YearField(req).None? ==> Validate(req, policy) == Rejected(YearRequired, 200)
    ensures YearField(req).Some? && ToInt(YearField(req).value).ValueError? ==>
      Validate(req, policy) == Rejected(InternalServerError, 500)
    ensures YearField(req).Some? && ToInt(YearField(req).value).TypeError? ==>
      Validate(req, policy) == Crashed(YearTypeError)
  {
  }

  /** A title with a character that is neither a letter nor whitespace is
      never written, and is reported once the rating, media type and year
      have passed. */
  lemma BadTitleRejected(req: Request, policy: Policy)
    requires Title in req.form && !LettersAndSpaces(req.form[Title])
    ensures !Validate(req, policy).Inserted?
    ensures PassesUpToTitle(req) ==> Validate(req, policy) == Rejected(TitleInvalid, 200)
  {
    ValidateInsertsIff(req, policy);
    SplitCheckIff(req.form[Title]);
    if PassesUpToTitle(req) {
      ValidateReachesTitle(req, policy);
    }
  }

  /** A rating outside [1, 5] is never written, and draws the range message
      once the media type, year and title have passed. */
  lemma RatingOutOfRangeRejected(req: Request, policy: Policy)
    requires RatingValue(req).Some? && !(1 <= RatingValue(req).value <= 5)
    ensures !Validate(req, policy).Inserted?
    ensures PassesUpToTitle(req) && TitleAcceptable(req) ==>
      Validate(req, policy) == Rejected(RatingOutOfRange, 200)
  {
    if KnownMediaType(req) && YearValue(req).Some? && TitleAcceptable(req) {
      ValidateReachesTitle(req, policy);
      TitleStageReachesFields(req, RatingValue(req).value, YearValue(req).value, policy);
    }
  }

  /** A duration that is present but not an integer, or an integer below 1,
      is never written, and draws the matching message once the checks
      before it have passed. */
  lemma BadDurationRejected(req: Request, policy: Policy)
    requires Duration in req.form
    requires DurationValue(req).None? || DurationValue(req).value < 1
    ensures !Validate(req, policy).Inserted?
    ensures PassesUpToDuration(req) ==>
      Validate(req, policy) ==
        (if DurationValue(req).None? then Rejected(DurationNotNumber, 200)
         else Rejected(DurationNotPositive, 200))
  {
    ValidateInsertsIff(req, policy);
    if PassesUpToDuration(req) {
      ValidateReachesTitle(req, policy);
      TitleStageReachesFields(req, RatingValue(req).value, YearValue(req).value, policy);
    }
  }

  lemma FieldStageGenre(req: Request, title: string, rating: int, year: int, policy: Policy)
    requires 1 <= rating <= 5
    requires Duration in req.form ==> DurationValue(req).Some? && DurationValue(req).value >= 1
    requires Genre in req.form && !WordsAlphaOrSpace(Split(req.form[Genre]))
    ensures FieldStage(req, title, rating, year, policy) == Rejected(GenreInvalid, 200)
  {
  }

  /** A genre with a character that is neither a letter nor whitespace is
      never written, and is reported once every check before it has passed. */
  lemma BadGenreRejected(req: Request, policy: Policy)
    requires Genre in req.form && !LettersAndSpaces(req.form[Genre])
    ensures !Validate(req, policy).Inserted?
    ensures PassesUpToGenre(req) ==> Validate(req, policy) == Rejected(GenreInvalid, 200)
  {
    ValidateInsertsIff(req, policy);
    if PassesUpToGenre(req) {
      var rating, year := RatingValue(req).value, YearValue(req).value;
      ValidateReachesTitle(req, policy);
      TitleStageReachesFields(req, rating, year, policy);
      SplitCheckIff(req.form[Genre]);
      FieldStageGenre(req, req.form[Title], rating, year, policy);
    }
  }

  lemma TitleStageGenreNeedsGenre(req: Request, rating: int, year: int, policy: Policy)
    requires TitleStage(req, rating, year, policy) == Rejected(GenreInvalid, 200)
    ensures Genre in req.form
  {
  }

  lemma MediaStageGenreNeedsGenre(req: Request, rating: int, policy: Policy)
    requires MediaAndYearStage(req, rating, policy) == Rejected(GenreInvalid, 200)
    ensures Genre in req.form
  {
    match YearField(req)
    case Some(v) =>
      if ToInt(v).Converted? {
        TitleStageGenreNeedsGenre(req, rating, ToInt(v).value, policy);
      }
    case None =>
  }

  /** An absent genre is never the reason for a rejection. */
  lemma AbsentGenreAccepted(req: Request, policy: Policy)
    requires Genre !in req.form
    ensures Validate(req, policy) != Rejected(GenreInvalid, 200)
  {
    if RatingValue(req).Some? && Validate(req, policy) == Rejected(GenreInvalid, 200) {
      MediaStageGenreNeedsGenre(req, RatingValue(req).value, policy);
    }
  }

  // ---------------------------------------------------------------------
  // The two crashes of the handler as written, and their correction
  // ---------------------------------------------------------------------

  /** A request that passes every check but carries no duration makes the
      handler read `duration` before it was ever assigned; the corrected
      handler stores the row with no duration. */
  lemma AbsentDurationCrashes(req: Request)
    requires Acceptable(req, Intended) && Duration !in req.form
    ensures Add(req) == Crashed(DurationUnbound)
    ensures AddIntended(req) == Inserted(FilmOf(req))
    ensures AddIntended(req).film.duration.None?
  {
    var rating, year := RatingValue(req).value, YearValue(req).value;
    ValidateInsertsIff(req, Intended);
    ValidateReachesTitle(req, AsWritten);
    TitleStageReachesFields(req, rating, year, AsWritten);
    FieldStageAbsentDuration(req, req.form[Title], rating, year);
  }

  lemma FieldStageAbsentDuration(req: Request, title: string, rating: int, year: int)
    requires FieldsAcceptable(req, rating, Intended) && Duration !in req.form
    ensures FieldStage(req, title, rating, year, AsWritten) == Crashed(DurationUnbound)
  {
    FieldStageAcceptableInserted(req, title, rating, year, Intended);
  }

  /** A request whose rating, media type and year pass but that carries no
      title makes the handler call `split` on `None`; the corrected handler
      rejects it. */
  lemma AbsentTitleCrashes(req: Request)
    requires PassesUpToTitle(req) && Title !in req.form
    ensures Add(req) == Crashed(TitleIsNone)
    ensures AddIntended(req) == Rejected(TitleRequired, 200)
  {
    ValidateReachesTitle(req, AsWritten);
    ValidateReachesTitle(req, Intended);
  }

  lemma FieldStageAgrees(req: Request, title: string, rating: int, year: int)
    requires !FieldStage(req, title, rating, year, AsWritten).Crashed?
    ensures FieldStage(req, title, rating, year, Intended) == FieldStage(req, title, rating, year, AsWritten)
  {
  }

  lemma TitleStageAgrees(req: Request, rating: int, year: int)
    requires !TitleStage(req, rating, year, AsWritten).Crashed?
    ensures TitleStage(req, rating, year, Intended) == TitleStage(req, rating, year, AsWritten)
  {
    if Title in req.form && WordsAlphaOrSpace(Split(req.form[Title])) {
      FieldStageAgrees(req, req.form[Title], rating, year);
    }
  }

  /** Wherever the handler as written does not crash, the corrected handler
      gives the same answer. */
  lemma IntendedAgreesWhenNoCrash(req: Request)
    requires !Add(req).Crashed?
    ensures AddIntended(req) == Add(req)
  {
    if PassesUpToTitle(req) {
      ValidateReachesTitle(req, AsWritten);
      ValidateReachesTitle(req, Intended);
      TitleStageAgrees(req, RatingValue(req).value, YearValue(req).value);
    }
  }

  /** The corrected handler crashes only on a JSON year of the wrong type. */
  lemma IntendedCrashesOnlyOnYearType(req: Request)
    requires AddIntended(req).Crashed?
    ensures req.contentType == JsonMediaType
    ensures YearReleased in req.json
    ensures req.json[YearReleased].JArray? || req.json[YearReleased].JObject?
  {
  }
}

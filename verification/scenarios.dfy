/**
  Concrete form submissions and what the handlers make of them. Each
  scenario fixes the submitted form fields and the `Content-Type` header and
  leaves the rest of the request arbitrary.

  The facts about the literal field texts (`int("1995") == 1995`, "Heat"
  holds only letters) are established on their own, and small lemmas about
  arbitrary requests carry them over to the request at hand.
 */
module Scenarios {
  import opened Options
  import opened PyText
  import opened PyInt
  import opened Catalog
  import opened Forms
  import opened Messages
  import opened AddFilm
  import opened Handlers

  // ---------------------------------------------------------------------
  // `int()` on the literal texts the scenarios submit
  // ---------------------------------------------------------------------

  lemma Reads1() ensures ParseInt("1") == Some(1) { ParseFormat(1); assert FormatInt(1) == "1"; }
  lemma Reads3() ensures ParseInt("3") == Some(3) { ParseFormat(3); assert FormatInt(3) == "3"; }
  lemma Reads4() ensures ParseInt("4") == Some(4) { ParseFormat(4); assert FormatInt(4) == "4"; }
  lemma Reads5() ensures ParseInt("5") == Some(5) { ParseFormat(5); assert FormatInt(5) == "5"; }
  lemma Reads95() ensures ParseInt("95") == Some(95) { ParseFormat(95); assert FormatInt(95) == "95"; }
  lemma Reads148() ensures ParseInt("148") == Some(148) { ParseFormat(148); assert FormatInt(148) == "148"; }
  lemma Reads1995() ensures ParseInt("1995") == Some(1995) { ParseFormat(1995); assert FormatInt(1995) == "1995"; }
  lemma Reads2001() ensures ParseInt("2001") == Some(2001) { ParseFormat(2001); assert FormatInt(2001) == "2001"; }
  lemma Reads2010() ensures ParseInt("2010") == Some(2010) { ParseFormat(2010); assert FormatInt(2010) == "2010"; }

  // ---------------------------------------------------------------------
  // Carrying field facts over to a request
  // ---------------------------------------------------------------------

  /** A rating text that parses gives the request that rating. */
  lemma FormRating(req: Request, text: string, rating: int)
    requires Rating in req.form && req.form[Rating] == text && ParseInt(text) == Some(rating)
    ensures RatingValue(req) == Some(rating)
  {
  }

  /** On a form request, a year text that parses gives the request that year. */
  lemma FormYear(req: Request, text: string, year: int)
    requires req.contentType == FormMediaType
    requires YearReleased in req.form && req.form[YearReleased] == text && ParseInt(text) == Some(year)
    ensures YearValue(req) == Some(year)
  {
    assert YearField(req) == Some(JString(text));
  }

  /** A duration text that parses gives the request that duration. */
  lemma FormDuration(req: Request, text: string, duration: int)
    requires Duration in req.form && req.form[Duration] == text && ParseInt(text) == Some(duration)
    ensures DurationValue(req) == Some(duration)
  {
  }

  /** Once the checks before it pass, a title holding a character that is
      neither a letter nor whitespace is refused. */
  lemma FormTitleRefused(req: Request, title: string)
    requires PassesUpToTitle(req)
    requires Title in req.form && req.form[Title] == title && !LettersAndSpaces(title)
    ensures Add(req) == Rejected(TitleInvalid, 200)
  {
    BadTitleRejected(req, AsWritten);
  }

  /** The row built for a request whose title, rating and year are known. */
  lemma FilmOfFields(req: Request, rating: int, year: int)
    requires Title in req.form
    requires RatingValue(req) == Some(rating) && YearValue(req) == Some(year)
    ensures FilmOf(req) == Film(req.form[Title], year, rating, DurationValue(req), FormField(req, Genre))
  {
  }

  // ---------------------------------------------------------------------
  // "Heat" without a duration
  // ---------------------------------------------------------------------

  predicate IsHeatForm(req: Request) {
    && req.contentType == FormMediaType
    && req.form == map[Title := "Heat", Rating := "4", YearReleased := "1995"]
  }

  lemma HeatNumbers(req: Request)
    requires IsHeatForm(req)
    ensures RatingValue(req) == Some(4) && YearValue(req) == Some(1995)
  {
    assert req.form[Rating] == "4" && req.form[YearReleased] == "1995";
    Reads4();
    FormRating(req, "4", 4);
    Reads1995();
    FormYear(req, "1995", 1995);
  }

  lemma HeatText(req: Request)
    requires IsHeatForm(req)
    ensures TitleAcceptable(req) && GenreAcceptable(req) && KnownMediaType(req)
    ensures Duration !in req.form && Genre !in req.form && req.form[Title] == "Heat"
  {
    assert LettersAndSpaces("Heat");
  }

  /** "Heat", rated 4, released 1995, sent without a duration or a genre:
      the handler as written crashes where it builds the row; the corrected
      handler stores the row with both columns NULL. */
  lemma HeatWithoutDuration(req: Request)
    requires IsHeatForm(req)
    ensures Add(req) == Crashed(DurationUnbound)
    ensures AddIntended(req) == Inserted(Film("Heat", 1995, 4, None, None))
  {
    HeatNumbers(req);
    HeatText(req);
    FilmOfFields(req, 4, 1995);
    AbsentDurationCrashes(req);
  }

  // ---------------------------------------------------------------------
  // "Inception", every field given
  // ---------------------------------------------------------------------

  predicate IsInceptionForm(req: Request) {
    && req.contentType == FormMediaType
    && req.form == map[Title := "Inception", Rating := "5", YearReleased := "2010",
                       Duration := "148", Genre := "Sci Fi"]
  }

  lemma InceptionNumbers(req: Request)
    requires IsInceptionForm(req)
    ensures RatingValue(req) == Some(5) && YearValue(req) == Some(2010)
  {
    assert req.form[Rating] == "5" && req.form[YearReleased] == "2010";
    Reads5();
    FormRating(req, "5", 5);
    Reads2010();
    FormYear(req, "2010", 2010);
  }

  lemma InceptionDuration(req: Request)
    requires IsInceptionForm(req)
    ensures DurationValue(req) == Some(148)
  {
    Reads148();
    FormDuration(req, "148", 148);
  }

  lemma InceptionText(req: Request)
    requires IsInceptionForm(req)
    ensures TitleAcceptable(req) && GenreAcceptable(req) && KnownMediaType(req)
    ensures Duration in req.form && req.form[Title] == "Inception"
    ensures FormField(req, Genre) == Some("Sci Fi")
  {
    assert LettersAndSpaces("Inception");
    assert LettersAndSpaces("Sci Fi");
  }

  lemma InceptionAccepted(req: Request)
    requires IsInceptionForm(req)
    ensures Acceptable(req, AsWritten)
    ensures FilmOf(req) == Film("Inception", 2010, 5, Some(148), Some("Sci Fi"))
  {
    InceptionNumbers(req);
    InceptionDuration(req);
    InceptionText(req);
    FilmOfFields(req, 5, 2010);
  }

  /** A complete, well-formed submission is stored as one new row, under
      key 1 in an empty table. */
  lemma InceptionStored(req: Request)
    requires IsInceptionForm(req)
    ensures Add(req) == Inserted(Film("Inception", 2010, 5, Some(148), Some("Sci Fi")))
    ensures PostAdd(map[], req, AsWritten).0 ==
      map[1 := Film("Inception", 2010, 5, Some(148), Some("Sci Fi"))]
    ensures AddIntended(req) == Inserted(Film("Inception", 2010, 5, Some(148), Some("Sci Fi")))
    ensures PostAdd(map[], req, Intended).0 ==
      map[1 := Film("Inception", 2010, 5, Some(148), Some("Sci Fi"))]
  {
    var film := Film("Inception", 2010, 5, Some(148), Some("Sci Fi"));
    InceptionAccepted(req);
    assert Storable(film);
    ValidateInsertsIff(req, AsWritten);
    PostAddChangesIff(map[], req, AsWritten);
    IntendedAgreesWhenNoCrash(req);
  }

  // ---------------------------------------------------------------------
  // Rejections and edge cases
  // ---------------------------------------------------------------------

  predicate IsSevenForm(req: Request) {
    && req.contentType == FormMediaType
    && req.form == map[Title := "Se7en", Rating := "4", YearReleased := "1995"]
  }

  lemma SevenNumbers(req: Request)
    requires IsSevenForm(req)
    ensures RatingValue(req) == Some(4) && YearValue(req) == Some(1995)
  {
    assert req.form[Rating] == "4" && req.form[YearReleased] == "1995";
    Reads4();
    FormRating(req, "4", 4);
    Reads1995();
    FormYear(req, "1995", 1995);
  }

  lemma NumbersPassUpToTitle(req: Request, rating: int, year: int)
    requires req.contentType == FormMediaType
    requires RatingValue(req) == Some(rating) && YearValue(req) == Some(year)
    ensures PassesUpToTitle(req)
  {
  }

  lemma SevenHasDigit()
    ensures !LettersAndSpaces("Se7en")
  {
    assert !IsLetter("Se7en"[2]) && !IsSpace("Se7en"[2]);
  }

  /** A digit in the title is refused once rating, media type and year pass. */
  lemma DigitInTitleRejected(req: Request)
    requires IsSevenForm(req)
    ensures Add(req) == Rejected(TitleInvalid, 200)
    ensures AddIntended(req) == Rejected(TitleInvalid, 200)
  {
    SevenRefusedAsWritten(req);
    IntendedAgreesWhenNoCrash(req);
  }

  lemma SevenRefusedAsWritten(req: Request)
    requires IsSevenForm(req)
    ensures Add(req) == Rejected(TitleInvalid, 200)
  {
    SevenNumbers(req);
    NumbersPassUpToTitle(req, 4, 1995);
    SevenHasDigit();
    FormTitleRefused(req, "Se7en");
  }

  predicate IsUntitledForm(req: Request) {
    && req.contentType == FormMediaType
    && req.form == map[Title := "", Rating := "3", YearReleased := "2001", Duration := "95"]
  }

  lemma UntitledNumbers(req: Request)
    requires IsUntitledForm(req)
    ensures RatingValue(req) == Some(3) && YearValue(req) == Some(2001)
  {
    assert req.form[Rating] == "3" && req.form[YearReleased] == "2001";
    Reads3();
    FormRating(req, "3", 3);
    Reads2001();
    FormYear(req, "2001", 2001);
  }

  lemma UntitledDuration(req: Request)
    requires IsUntitledForm(req)
    ensures DurationValue(req) == Some(95)
  {
    Reads95();
    FormDuration(req, "95", 95);
  }

  lemma UntitledText(req: Request)
    requires IsUntitledForm(req)
    ensures TitleAcceptable(req) && GenreAcceptable(req) && KnownMediaType(req)
    ensures Duration in req.form && Genre !in req.form && req.form[Title] == ""
  {
  }

  /** An empty title splits into no words, so the title check lets it
      through and the row is stored with an empty title. */
  lemma EmptyTitleStored(req: Request)
    requires IsUntitledForm(req)
    ensures Add(req) == Inserted(Film("", 2001, 3, Some(95), None))
    ensures AddIntended(req) == Inserted(Film("", 2001, 3, Some(95), None))
  {
    UntitledNumbers(req);
    UntitledDuration(req);
    UntitledText(req);
    assert Acceptable(req, AsWritten);
    FilmOfFields(req, 3, 2001);
    ValidateInsertsIff(req, AsWritten);
    IntendedAgreesWhenNoCrash(req);
  }

  lemma MultipartUnknown()
    ensures "multipart/form-data" != JsonMediaType && "multipart/form-data" != FormMediaType
  {
    assert |"multipart/form-data"| == 19;
    assert |JsonMediaType| == 16 && |FormMediaType| == 33;
  }

  /** Multipart form data is refused with 415 even though its fields parse. */
  lemma MultipartRefused(t: Table, req: Request)
    requires req.contentType == "multipart/form-data"
    requires req.form == map[Title := "Heat", Rating := "4", YearReleased := "1995"]
    ensures PostAdd(t, req, AsWritten) == (t, Text(UnsupportedMediaType, 415))
    ensures PostAdd(t, req, Intended) == (t, Text(UnsupportedMediaType, 415))
  {
    Reads4();
    FormRating(req, "4", 4);
    MultipartUnknown();
    PostAddUnsupportedMediaType(t, req, AsWritten);
    PostAddUnsupportedMediaType(t, req, Intended);
  }

  lemma ReadsOne()
    ensures ParseInt("one").None?
  {
    assert !IsIntSpace("one"[0]) && !IsDigit("one"[0]);
    ParseRejectsLeadingNonDigit("one");
  }

  /** Deleting key 1 from a one-row table empties it; a second request for
      the same key is answered "Film not found."; a non-numeric key is
      refused. */
  lemma DeleteScenario(f: Film)
    ensures PostDelete(map[1 := f], map[FilmID := "1"]) == (map[], Redirect(ReadEndpoint))
    ensures PostDelete(map[], map[FilmID := "1"]) == (map[], Text(FilmNotFound, 200))
    ensures PostDelete(map[1 := f], map[FilmID := "one"]) == (map[1 := f], Text(FilmIdInvalid, 200))
  {
    Reads1();
    DeleteByText(map[1 := f], "1", 1);
    DeleteByText(map[], "1", 1);
    ReadsOne();
    RefusedKeyText(map[1 := f], "one");
    assert map[1 := f] - {1} == map[];
  }

  /** A submitted key that `int()` reads as an in-range number. */
  lemma DeleteByText(t: Table, text: string, id: int)
    requires ParseInt(text) == Some(id) && FitsInteger(id)
    ensures PostDelete(t, map[FilmID := text]) ==
      if id in t then (t - {id}, Redirect(ReadEndpoint)) else (t, Text(FilmNotFound, 200))
  {
    assert DeleteTarget(map[FilmID := text]) == Some(id);
  }

  /** A submitted key that `int()` refuses. */
  lemma RefusedKeyText(t: Table, text: string)
    requires ParseInt(text).None?
    ensures PostDelete(t, map[FilmID := text]) == (t, Text(FilmIdInvalid, 200))
  {
    assert DeleteTarget(map[FilmID := text]).None?;
  }

  /** A key preceded by the ASCII file separator U+001C is refused as not a
      number, although `str.isspace()` holds for that character. */
  lemma SeparatorBeforeKeyRefused(f: Film)
    ensures PostDelete(map[5 := f], map[FilmID := ['\U{1C}', '5']]) == (map[5 := f], Text(FilmIdInvalid, 200))
  {
    var s := ['\U{1C}', '5'];
    assert !IsIntSpace(s[0]) && !IsDigit(s[0]);
    ParseRejectsLeadingNonDigit(s);
    RefusedKeyText(map[5 := f], s);
  }

  /** A submitted form that carries another field beside the key: only
      `filmID` is read. */
  lemma SubmittedDeleteForm(f: Film)
    ensures PostDelete(map[1 := f], ReadForm(map["filmID" := "1", "submit" := "Delete"])) == (map[], Redirect(ReadEndpoint))
  {
    var raw := map["filmID" := "1", "submit" := "Delete"];
    forall g: Field ensures g in ReadForm(raw) <==> g == FilmID {
      assert FieldName(g) in raw <==> g == FilmID;
    }
    assert ReadForm(raw) == map[FilmID := "1"];
    DeleteScenario(f);
  }
}

/**
  The `/add` handler's checks as data: a fixed sequence of checks, each
  read on the request by itself, and a table of the answer each check gives
  when it fails. The handler's outcome is the answer of the first failing
  check in the sequence, and a row is written only when no check fails.
 */
module AddOrder {
  import opened Options
  import opened PyText
  import opened PyInt
  import opened Catalog
  import opened Forms
  import opened Messages
  import opened AddFilm

  datatype Check =
    | RatingPresent
    | RatingNumeric
    | MediaTypeKnown
    | YearPresent
    | YearConvertible   // `int()` accepts the year's type
    | YearNumeric
    | TitlePresent
    | TitleLetters
    | RatingInRange
    | DurationNumeric
    | DurationPositive
    | GenreLetters
    | DurationPresent   // the row can be built from the bound variables

  /** The order in which the handler makes its checks. */
  const CheckOrder: seq<Check> := [
    RatingPresent, RatingNumeric, MediaTypeKnown, YearPresent, YearConvertible,
    YearNumeric, TitlePresent, TitleLetters, RatingInRange, DurationNumeric,
    DurationPositive, GenreLetters, DurationPresent
  ]

  /** The check at each position of `CheckOrder`. */
  lemma CheckOrderIs()
    ensures |CheckOrder| == 13
    ensures CheckOrder[0] == RatingPresent && CheckOrder[1] == RatingNumeric
    ensures CheckOrder[2] == MediaTypeKnown && CheckOrder[3] == YearPresent
    ensures CheckOrder[4] == YearConvertible && CheckOrder[5] == YearNumeric
    ensures CheckOrder[6] == TitlePresent && CheckOrder[7] == TitleLetters
    ensures CheckOrder[8] == RatingInRange && CheckOrder[9] == DurationNumeric
    ensures CheckOrder[10] == DurationPositive && CheckOrder[11] == GenreLetters
    ensures CheckOrder[12] == DurationPresent
  {
  }

  /** Whether the request passes one check, read on its own. */
  predicate Passes(req: Request, c: Check, policy: Policy) {
    match c
    case RatingPresent => Rating in req.form
    case RatingNumeric => RatingValue(req).Some?
    case MediaTypeKnown => KnownMediaType(req)
    case YearPresent => YearField(req).Some?
    case YearConvertible => YearField(req).Some? ==> !ToInt(YearField(req).value).TypeError?
    case YearNumeric => YearValue(req).Some?
    case TitlePresent => Title in req.form
    case TitleLetters => TitleAcceptable(req)
    case RatingInRange => 1 <= RatingValue(req).GetOr(0) <= 5
    case DurationNumeric => Duration in req.form ==> DurationValue(req).Some?
    case DurationPositive => DurationValue(req).Some? ==> DurationValue(req).value >= 1
    case GenreLetters => GenreAcceptable(req)
    case DurationPresent => Duration in req.form || policy == Intended
  }

  /** The answer a failing check gives. */
  function Failure(c: Check, policy: Policy): (r: Outcome)
    ensures !r.Inserted?
  {
    match c
    case RatingPresent => Rejected(RatingRequired, 200)
    case RatingNumeric => Rejected(RatingNotNumber, 200)
    case MediaTypeKnown => Rejected(UnsupportedMediaType, 415)
    case YearPresent => Rejected(YearRequired, 200)
    case YearConvertible => Crashed(YearTypeError)
    case YearNumeric => Rejected(InternalServerError, 500)
    case TitlePresent => TitleAbsentAnswer(policy)
    case TitleLetters => Rejected(TitleInvalid, 200)
    case RatingInRange => Rejected(RatingOutOfRange, 200)
    case DurationNumeric => Rejected(DurationNotNumber, 200)
    case DurationPositive => Rejected(DurationNotPositive, 200)
    case GenreLetters => Rejected(GenreInvalid, 200)
    case DurationPresent => Crashed(DurationUnbound)
  }

  /** The result of every check, in the order the handler makes them. */
  function Results(req: Request, policy: Policy): (r: seq<bool>)
    ensures |r| == |CheckOrder|
  {
    seq(|CheckOrder|, j requires 0 <= j < |CheckOrder| => Passes(req, CheckOrder[j], policy))
  }

  /** The first position, from `i` on, that holds `false`. */
  function FirstFalse(bs: seq<bool>, i: nat): (r: Option<nat>)
    requires i <= |bs|
    ensures r.Some? ==> i <= r.value < |bs| && !bs[r.value]
    ensures r.Some? ==> forall j | i <= j < r.value :: bs[j]
    ensures r.None? ==> forall j | i <= j < |bs| :: bs[j]
    decreases |bs| - i
  {
    if i == |bs| then None
    else if !bs[i] then Some(i)
    else FirstFalse(bs, i + 1)
  }

  /** The first check the request fails, if any. */
  function FirstFailure(req: Request, policy: Policy): Option<Check> {
    match FirstFalse(Results(req, policy), 0)
    case Some(k) => Some(CheckOrder[k])
    case None => None
  }

  /** The checks before position `n` all pass. */
  predicate PassesBefore(req: Request, policy: Policy, n: nat)
    requires n <= |CheckOrder|
  {
    forall j | 0 <= j < n :: Passes(req, CheckOrder[j], policy)
  }

  /** The first check fails exactly at position `n` when the ones before it pass. */
  lemma FirstFailureIs(req: Request, policy: Policy, n: nat)
    requires n < |CheckOrder| && PassesBefore(req, policy, n)
    requires !Passes(req, CheckOrder[n], policy)
    ensures FirstFailure(req, policy) == Some(CheckOrder[n])
  {
    var bs := Results(req, policy);
    assert !bs[n];
    assert forall j | 0 <= j < n :: bs[j];
  }

  /** No check fails when every check passes. */
  lemma NoFailure(req: Request, policy: Policy)
    requires PassesBefore(req, policy, |CheckOrder|)
    ensures FirstFailure(req, policy).None?
  {
    var bs := Results(req, policy);
    assert forall j | 0 <= j < |bs| :: bs[j];
  }

  lemma PassedRatingMediaYear(req: Request, policy: Policy, n: nat)
    requires 6 <= n <= |CheckOrder| && PassesBefore(req, policy, n)
    ensures PassesUpToTitle(req)
  {
    CheckOrderIs();
    assert Passes(req, CheckOrder[1], policy);
    assert Passes(req, CheckOrder[2], policy);
    assert Passes(req, CheckOrder[5], policy);
  }

  lemma PassedTitleAndRange(req: Request, policy: Policy, n: nat)
    requires 9 <= n <= |CheckOrder| && PassesBefore(req, policy, n)
    ensures PassesUpToDuration(req)
  {
    CheckOrderIs();
    PassedRatingMediaYear(req, policy, n);
    assert Passes(req, CheckOrder[7], policy);
    assert Passes(req, CheckOrder[8], policy);
  }

  lemma PassedDuration(req: Request, policy: Policy, n: nat)
    requires 11 <= n <= |CheckOrder| && PassesBefore(req, policy, n)
    ensures PassesUpToGenre(req)
  {
    CheckOrderIs();
    PassedTitleAndRange(req, policy, n);
    assert Passes(req, CheckOrder[9], policy);
    assert Passes(req, CheckOrder[10], policy);
  }

  /** With every check passing, the request is acceptable. */
  lemma AllPassAcceptable(req: Request, policy: Policy)
    requires PassesBefore(req, policy, |CheckOrder|)
    ensures Acceptable(req, policy)
  {
    CheckOrderIs();
    PassedDuration(req, policy, |CheckOrder|);
    assert Passes(req, CheckOrder[11], policy);
    assert Passes(req, CheckOrder[12], policy);
  }

  /** What each check answers when it fails, position by position. */
  lemma FailureTable(policy: Policy)
    ensures Failure(CheckOrder[0], policy) == Rejected(RatingRequired, 200)
    ensures Failure(CheckOrder[1], policy) == Rejected(RatingNotNumber, 200)
    ensures Failure(CheckOrder[2], policy) == Rejected(UnsupportedMediaType, 415)
    ensures Failure(CheckOrder[3], policy) == Rejected(YearRequired, 200)
    ensures Failure(CheckOrder[4], policy) == Crashed(YearTypeError)
    ensures Failure(CheckOrder[5], policy) == Rejected(InternalServerError, 500)
    ensures Failure(CheckOrder[6], policy) == TitleAbsentAnswer(policy)
    ensures Failure(CheckOrder[7], policy) == Rejected(TitleInvalid, 200)
    ensures Failure(CheckOrder[8], policy) == Rejected(RatingOutOfRange, 200)
    ensures Failure(CheckOrder[9], policy) == Rejected(DurationNotNumber, 200)
    ensures Failure(CheckOrder[10], policy) == Rejected(DurationNotPositive, 200)
    ensures Failure(CheckOrder[11], policy) == Rejected(GenreInvalid, 200)
    ensures Failure(CheckOrder[12], policy) == Crashed(DurationUnbound)
  {
    CheckOrderIs();
  }

  /** A missing title: `None.split()` as written, a rejection once corrected. */
  function TitleAbsentAnswer(policy: Policy): Outcome {
    if policy == AsWritten then Crashed(TitleIsNone) else Rejected(TitleRequired, 200)
  }

  // What the request looks like when the first failing check is at position
  // `n`, in the terms the handler's own rejections are stated in.

  lemma RatingFails(req: Request, policy: Policy, n: nat)
    requires n < 2 && PassesBefore(req, policy, n) && !Passes(req, CheckOrder[n], policy)
    ensures n == 0 ==> Rating !in req.form
    ensures n == 1 ==> Rating in req.form && ParseInt(req.form[Rating]).None?
  {
    CheckOrderIs();
    if n == 1 {
      assert Passes(req, CheckOrder[0], policy);
    }
  }

  lemma MediaFails(req: Request, policy: Policy)
    requires PassesBefore(req, policy, 2) && !Passes(req, CheckOrder[2], policy)
    ensures RatingValue(req).Some? && !KnownMediaType(req)
  {
    CheckOrderIs();
    assert Passes(req, CheckOrder[1], policy);
  }

  lemma YearFails(req: Request, policy: Policy, n: nat)
    requires 3 <= n < 6 && PassesBefore(req, policy, n) && !Passes(req, CheckOrder[n], policy)
    ensures RatingValue(req).Some? && KnownMediaType(req)
    ensures n == 3 ==> YearField(req).None?
    ensures n == 4 ==> YearField(req).Some? && ToInt(YearField(req).value).TypeError?
    ensures n == 5 ==> YearField(req).Some? && ToInt(YearField(req).value).ValueError?
  {
    CheckOrderIs();
    assert Passes(req, CheckOrder[1], policy) && Passes(req, CheckOrder[2], policy);
    if n > 3 {
      assert Passes(req, CheckOrder[3], policy);
    }
    if n > 4 {
      assert Passes(req, CheckOrder[4], policy);
    }
  }

  lemma TitleFails(req: Request, policy: Policy, n: nat)
    requires n == 6 || n == 7
    requires PassesBefore(req, policy, n) && !Passes(req, CheckOrder[n], policy)
    ensures PassesUpToTitle(req)
    ensures n == 6 ==> Title !in req.form
    ensures n == 7 ==> Title in req.form && !LettersAndSpaces(req.form[Title])
  {
    CheckOrderIs();
    PassedRatingMediaYear(req, policy, n);
    if n == 7 {
      assert Passes(req, CheckOrder[6], policy);
    }
  }

  lemma RangeFails(req: Request, policy: Policy)
    requires PassesBefore(req, policy, 8) && !Passes(req, CheckOrder[8], policy)
    ensures PassesUpToTitle(req) && TitleAcceptable(req)
    ensures RatingValue(req).Some? && !(1 <= RatingValue(req).value <= 5)
  {
    CheckOrderIs();
    PassedRatingMediaYear(req, policy, 8);
    assert Passes(req, CheckOrder[7], policy);
  }

  lemma DurationFails(req: Request, policy: Policy, n: nat)
    requires n == 9 || n == 10
    requires PassesBefore(req, policy, n) && !Passes(req, CheckOrder[n], policy)
    ensures PassesUpToDuration(req) && Duration in req.form
    ensures n == 9 ==> DurationValue(req).None?
    ensures n == 10 ==> DurationValue(req).Some? && DurationValue(req).value < 1
  {
    CheckOrderIs();
    PassedTitleAndRange(req, policy, n);
    if n == 10 {
      assert Passes(req, CheckOrder[9], policy);
    }
  }

  lemma GenreFails(req: Request, policy: Policy)
    requires PassesBefore(req, policy, 11) && !Passes(req, CheckOrder[11], policy)
    ensures PassesUpToGenre(req) && Genre in req.form && !LettersAndSpaces(req.form[Genre])
  {
    CheckOrderIs();
    PassedDuration(req, policy, 11);
  }

  lemma AbsentDurationFails(req: Request, policy: Policy)
    requires PassesBefore(req, policy, 12) && !Passes(req, CheckOrder[12], policy)
    ensures Acceptable(req, Intended) && Duration !in req.form && policy == AsWritten
  {
    CheckOrderIs();
    PassedDuration(req, policy, 12);
    assert Passes(req, CheckOrder[11], policy);
  }

  // What the handler answers, by the position of the first failing check.

  lemma RatingOrMediaAt(req: Request, policy: Policy, n: nat)
    requires n < 3 && PassesBefore(req, policy, n) && !Passes(req, CheckOrder[n], policy)
    ensures Validate(req, policy) == Failure(CheckOrder[n], policy)
  {
    FailureTable(policy);
    if n < 2 {
      RatingFails(req, policy, n);
      if n == 0 {
        MissingRatingWins(req, policy);
      } else {
        NonNumericRatingRejected(req, policy);
      }
    } else {
      MediaFails(req, policy);
      UnsupportedMediaTypeRejected(req, policy);
    }
  }

  lemma YearAt(req: Request, policy: Policy, n: nat)
    requires 3 <= n < 6 && PassesBefore(req, policy, n) && !Passes(req, CheckOrder[n], policy)
    ensures Validate(req, policy) == Failure(CheckOrder[n], policy)
  {
    YearFails(req, policy, n);
    YearRejections(req, policy);
    FailureTable(policy);
  }

  /** A missing title, once rating, media type and year have passed. */
  lemma AbsentTitleAnswered(req: Request, policy: Policy)
    requires PassesUpToTitle(req) && Title !in req.form
    ensures Validate(req, policy) == TitleAbsentAnswer(policy)
  {
    ValidateReachesTitle(req, policy);
  }

  lemma TitleAt(req: Request, policy: Policy, n: nat)
    requires n == 6 || n == 7
    requires PassesBefore(req, policy, n) && !Passes(req, CheckOrder[n], policy)
    ensures Validate(req, policy) == Failure(CheckOrder[n], policy)
  {
    TitleFails(req, policy, n);
    FailureTable(policy);
    if n == 6 {
      AbsentTitleAnswered(req, policy);
    } else {
      BadTitleRejected(req, policy);
    }
  }

  lemma RangeAt(req: Request, policy: Policy)
    requires PassesBefore(req, policy, 8) && !Passes(req, CheckOrder[8], policy)
    ensures Validate(req, policy) == Failure(CheckOrder[8], policy)
  {
    RangeFails(req, policy);
    RatingOutOfRangeRejected(req, policy);
    FailureTable(policy);
  }

  lemma DurationAt(req: Request, policy: Policy, n: nat)
    requires n == 9 || n == 10
    requires PassesBefore(req, policy, n) && !Passes(req, CheckOrder[n], policy)
    ensures Validate(req, policy) == Failure(CheckOrder[n], policy)
  {
    DurationFails(req, policy, n);
    BadDurationRejected(req, policy);
    FailureTable(policy);
  }

  lemma GenreAt(req: Request, policy: Policy)
    requires PassesBefore(req, policy, 11) && !Passes(req, CheckOrder[11], policy)
    ensures Validate(req, policy) == Failure(CheckOrder[11], policy)
  {
    GenreFails(req, policy);
    BadGenreRejected(req, policy);
    FailureTable(policy);
  }

  lemma AbsentDurationAt(req: Request, policy: Policy)
    requires PassesBefore(req, policy, 12) && !Passes(req, CheckOrder[12], policy)
    ensures Validate(req, policy) == Failure(CheckOrder[12], policy)
  {
    AbsentDurationFails(req, policy);
    AbsentDurationCrashes(req);
    FailureTable(policy);
  }

  lemma FailureAt(req: Request, policy: Policy, n: nat)
    requires n < |CheckOrder| && PassesBefore(req, policy, n) && !Passes(req, CheckOrder[n], policy)
    ensures Validate(req, policy) == Failure(CheckOrder[n], policy)
  {
    if n < 3 {
      RatingOrMediaAt(req, policy, n);
    } else if n < 6 {
      YearAt(req, policy, n);
    } else if n < 8 {
      TitleAt(req, policy, n);
    } else if n == 8 {
      RangeAt(req, policy);
    } else if n < 11 {
      DurationAt(req, policy, n);
    } else if n == 11 {
      GenreAt(req, policy);
    } else {
      AbsentDurationAt(req, policy);
    }
  }

  /** The handler answers with the first failing check's answer, and writes
      the request's row when no check fails. */
  lemma ValidateIsFirstFailure(req: Request, policy: Policy)
    ensures Validate(req, policy) ==
      match FirstFailure(req, policy)
      case Some(c) => Failure(c, policy)
      case None => Inserted(FilmOf(req))
  {
    var n: nat := 0;
    while n < |CheckOrder| && Passes(req, CheckOrder[n], policy)
      invariant n <= |CheckOrder| && PassesBefore(req, policy, n)
      decreases |CheckOrder| - n
    {
      n := n + 1;
    }
    if n == |CheckOrder| {
      NoFailure(req, policy);
      AllPassAcceptable(req, policy);
      ValidateInsertsIff(req, policy);
    } else {
      FirstFailureIs(req, policy, n);
      FailureAt(req, policy, n);
    }
  }

  /** A row is written exactly when no check fails. */
  lemma InsertedIffNoCheckFails(req: Request, policy: Policy)
    ensures Validate(req, policy).Inserted? <==> FirstFailure(req, policy).None?
  {
    ValidateIsFirstFailure(req, policy);
  }
}

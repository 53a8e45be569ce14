# Film catalogue: the add and delete handlers

This project models the two writing handlers of a small Flask film catalogue
(`app.py`). The catalogue is one SQLite table, `tblFilms`, holding Film rows
(title, year released, rating, duration, genre) keyed by `filmID`.

- `POST /add` reads the submitted fields and makes a fixed sequence of
  checks. The first check that fails decides the plain-text answer. Only a
  request that passes every check writes a row, and the handler then
  redirects to the `read` page.
- `POST /delete` reads `filmID`, converts it with `int()` and removes the row
  with that key when there is one.

The model is pure. A request is a value: its `Content-Type` header, its form
fields and the members of its JSON body. The table is a `map<int, Film>`.
Each handler is a function from the table and the request to the new table
and the response. The Python operations the checks rest on are modelled from
their definitions:

- `int()` on text, with CPython's whitespace set and digit limit;
- `str.split()`, `str.isalpha()` and `str.isspace()`;
- `request.form.get`;
- SQLite's choice of the next row key.

Modules, in dependency order:

| module | file | contents |
|---|---|---|
| `Options` | `options.dfy` | the optional value: a missing field, a nullable column |
| `PyText` | `py_text.dfy` | Python whitespace and letters, `split`, and the title/genre check |
| `PyInt` | `py_int.dfy` | `int()` on text: the whitespace it skips, sign, decimal digits, the 4300-digit limit; `str()` of an integer |
| `Catalog` | `catalog.dfy` | the `Film` row, the table, the next key, insert and remove |
| `Forms` | `forms.dfy` | the field names the handlers read, the submitted form as they see it; `request.form.get` |
| `Messages` | `messages.dfy` | the plain-text answers, with their exact text |
| `AddFilm` | `add_film.dfy` | the `/add` check chain, stage by stage, and a per-field reading of it |
| `AddOrder` | `add_order.dfy` | the same chain as a table of checks in a fixed order |
| `Handlers` | `handlers.dfy` | `POST /add` and `POST /delete` as transitions of the table |
| `Scenarios` | `scenarios.dfy` | concrete submissions and what the handlers make of them |

The handler crashes on an absent title and on an absent duration (see
"## Findings"). `AddFilm.Validate` therefore takes a `Policy`:

- `AsWritten` follows `app.py` line by line (`AddFilm.Add`);
- `Intended` corrects the two crashes and nothing else (`AddFilm.AddIntended`).

Every property below is proved for both policies unless its row says
otherwise.

A few facts about the handler follow from the code and are proved here:

- After `split()`, no word is ever whitespace, so the `isspace()` alternative
  in the title and genre checks never decides anything
  (`PyText.SplitWordsNeverSpace`).
- An empty title splits into no words, so it passes the title check and is
  stored (`Scenarios.EmptyTitleStored`). A non-empty title is not enforced
  by the code; the model follows the code.
- Flask fills `request.form` only for form-encoded and multipart bodies. A
  JSON request therefore has no `rating` field and is answered "Rating is
  required." before its JSON year is ever read. The model keeps the form and
  the JSON body independent, so it covers this case and more.

## Model

| member | source | states |
|---|---|---|
| Catalog.NextId | app.py:17 | The key a new row gets is not in the table and is above every key in it; it is 1 for an empty table and one past the largest key otherwise |
| Catalog.Insert | app.py:96-98 | Adding a row puts the film under a fresh key, keeps every other row as it was, and grows the table by exactly one |
| Catalog.Remove | app.py:121-123 | Deleting a row removes exactly that key, keeps every other row as it was, and shrinks the table by one |
| Catalog.InsertThenRemove | app.py:121-123 | Removing the row that was just added gives back the table as it was |
| PyText.Split | app.py:77 | The words of `str.split()` are non-empty and contain no whitespace |
| PyText.SplitCheckIff | app.py:77 | "Every word is alphabetic or whitespace" holds exactly when every character of the text is a letter or whitespace |
| PyText.SplitWordsNeverSpace | app.py:77-92 | The `isspace()` alternative never holds for a word of `split()`, so the check is exactly "every word is alphabetic" |
| PyText.SplitJoin | app.py:77 | Concatenating the words of `split()` gives the text with its whitespace removed: splitting loses nothing else |
| PyText.LettersAndSpacesAppend | app.py:92 | The letters-and-whitespace check on a concatenation holds exactly when it holds on both parts |
| PyInt.ParseInt | app.py:48 | `int()` succeeds only on text that is not blank once the whitespace it skips is stripped |
| PyInt.ParseIntGrammar | app.py:48 | `int()` accepts exactly the texts that, stripped of the whitespace it skips (Python whitespace except U+001C..U+001F), are an optional sign followed by one to 4300 ASCII digits; the result is negative only under a written `-` |
| PyInt.ParseFormat | app.py:115 | `int(str(n)) == n` for every integer `n` of at most 4300 digits, negative ones included; the text of a longer one is refused |
| PyInt.ParseIgnoresPadding | app.py:48 | Whitespace that `int()` skips, around the text, does not change what it makes of it |
| PyInt.ParseDigits | app.py:48 | A non-empty run of ASCII digits converts to its decimal value when it has at most 4300 digits, and is refused when it has more |
| PyInt.ParseRejectsLeadingNonDigit | app.py:48-50 | Text starting with a character that is neither whitespace `int()` skips, a sign nor a digit is refused with `ValueError`; U+001C..U+001F are such characters |
| PyInt.StripPadded | app.py:48 | Stripping ignores whitespace `int()` skips added on either side |
| Forms.ReadForm | app.py:40-63 | A field is present in the form the handler sees exactly when text was submitted under its name, and holds that text |
| Forms.Get | app.py:40-53 | `get` on the form is present exactly when the field is, with its text |
| Forms.FieldNamesDistinct | app.py:40-63 | Distinct fields are read under distinct keys, so no field's value is ever read for another |
| AddFilm.YearField | app.py:57-63 | A JSON request's year is the body's `yearReleased` member, absent when it is missing or `null`; any other request's year is the form field's text |
| AddFilm.ToInt | app.py:69 | `int()` keeps a JSON integer, turns `true`/`false` into 1/0, converts a string exactly when the text parses, to the parsed value, and raises `TypeError` exactly for null, arrays and objects |
| AddFilm.Validate | app.py:37-100 | A written row always has a rating in 1..5; as written it always has a duration; the corrected handler crashes only on a year of the wrong type |
| AddFilm.Add | app.py:37-100 | Every row the handler as written stores has a rating in 1..5 and a duration |
| AddFilm.AddIntended | app.py:37-100 | Every row the corrected handler stores has a rating in 1..5, and it crashes only on a year of the wrong type: never on an absent title or duration |
| AddFilm.FormField | app.py:40-53 | `request.form.get(name)` is present exactly when the field was submitted, and then holds the submitted text |
| AddFilm.MediaAndYearStage | app.py:57-74 | Past the media type and year checks a written row carries the rating read earlier, which is within 1..5; as written it always has a duration; the corrected handler crashes here only on the year's type |
| AddFilm.TitleStage | app.py:77-78 | Past the title check the row carries the rating and year read earlier; only the handler as written crashes here |
| AddFilm.FieldStage | app.py:80-96 | The last stage writes the given title, rating and year; its only crash is the unassigned duration of the handler as written |
| AddFilm.FieldStageIff | app.py:80-96 | The last stage writes a row exactly when the rating is in range, the duration (if sent) is a positive integer and the genre (if sent) is letters and spaces |
| AddFilm.TitleStageIff | app.py:77-96 | From the title check on, a row is written exactly when the title and the remaining fields are acceptable; the row holds the submitted title and genre |
| AddFilm.MediaAndYearStageIff | app.py:57-96 | From the media type check on, a row is written exactly when the media type is known, the year converts and the rest is acceptable |
| AddFilm.ValidateInsertsIff | app.py:37-100 | The handler writes a row exactly for the requests whose every field is acceptable on its own, and the row is built from the parsed fields |
| AddFilm.InsertedFilmIsValid | app.py:77-93 | Every written row meets the handler's own field checks (title and genre letters and spaces, rating 1..5, duration at least 1) and carries the submitted title |
| AddFilm.MissingRatingWins | app.py:43-45 | A missing rating is answered "Rating is required." whatever else is wrong |
| AddFilm.NonNumericRatingRejected | app.py:47-50 | A rating `int()` refuses is answered with the invalid-rating message |
| AddFilm.UnsupportedMediaTypeRejected | app.py:57-65 | Without a recognised media type no row is written; once the rating parses the answer is 415 |
| AddFilm.YearRejections | app.py:67-74 | A missing year is answered "Year released is required."; a year text `int()` refuses is answered 500; a JSON array or object crashes |
| AddFilm.BadTitleRejected | app.py:77-78 | A title with a character that is neither a letter nor whitespace is never written, and is answered with the title message once the earlier checks pass |
| AddFilm.RatingOutOfRangeRejected | app.py:80-81 | A rating outside 1..5 is never written, and is answered with the range message once the earlier checks pass |
| AddFilm.BadDurationRejected | app.py:83-89 | A duration sent but not an integer, or below 1, is never written and draws the matching message once the earlier checks pass |
| AddFilm.BadGenreRejected | app.py:92-93 | A genre with a character that is neither a letter nor whitespace is never written, and draws the genre message once the earlier checks pass |
| AddFilm.AbsentGenreAccepted | app.py:92 | An absent genre is never the reason for a rejection |
| AddFilm.AbsentDurationCrashes | app.py:83-96 | As written, an otherwise acceptable request without a duration crashes with `UnboundLocalError`; the corrected handler stores it with no duration |
| AddFilm.AbsentTitleCrashes | app.py:77 | As written, a request without a title crashes in `split` once rating, media type and year pass; the corrected handler rejects it |
| AddFilm.IntendedAgreesWhenNoCrash | app.py:37-100 | Wherever the handler as written does not crash, the corrected handler gives the same answer |
| AddFilm.IntendedCrashesOnlyOnYearType | app.py:67-72 | The corrected handler crashes only on a JSON year that is an array or an object |
| AddOrder.FirstFalse | app.py:37-93 | The first failing position has every earlier check passing; when there is none, every check passes |
| AddOrder.FirstFailureIs | app.py:37-93 | When the checks before position n pass and the one at n fails, n's check is the first failure |
| AddOrder.ValidateIsFirstFailure | app.py:37-100 | The handler answers with the answer of the first failing check, in the fixed order rating, media type, year, title, rating range, duration, genre; with no failure it writes the request's row |
| AddOrder.InsertedIffNoCheckFails | app.py:37-100 | A row is written exactly when no check fails |
| Handlers.PostAdd | app.py:37-100 | The table changes exactly when the answer is a redirect to `read`; it then gains one key, the next free one, and keeps every other row, and the new row fits SQLite's 64-bit INTEGER; an uncaught exception comes only from the handler as written, a JSON request, or a validated row the database refuses |
| Handlers.PostAddChangesIff | app.py:95-100 | `POST /add` changes the table exactly for acceptable requests whose row fits SQLite's INTEGER columns, adding that row under the next key; an acceptable row that does not fit is answered 500 and nothing is stored |
| Handlers.PostAddRejection | app.py:37-93 | A refused request leaves the table unchanged and is answered with its message and status, or 500 for a crash |
| Handlers.PostAddUnsupportedMediaType | app.py:57-65 | An unrecognised media type with a parsing rating is answered 415 and leaves the table unchanged |
| Handlers.PostAddAbsentDuration | app.py:83-98 | As written, a request without a duration answers 500 and stores nothing; corrected, it stores the row with a NULL duration when its year fits the database |
| Handlers.PostDelete | app.py:106-127 | `POST /delete` removes at most one row and changes no other; it changes the table exactly when it redirects to `read`; it answers 500 exactly when `filmID` parses to an integer outside SQLite's 64-bit INTEGER |
| Handlers.PostDeleteChangesIff | app.py:119-124 | The table changes exactly when `filmID` parses to an existing key within SQLite's INTEGER range, and then loses exactly that row |
| Handlers.PostDeleteRejections | app.py:109-127 | A missing `filmID`, one `int()` refuses, a key outside SQLite's INTEGER (500) and an unknown key each get their own answer and leave the table unchanged |
| Handlers.PostDeleteTwice | app.py:119-127 | Repeating a delete changes nothing more, and a repeated successful delete is answered "Film not found." |
| Handlers.KeyDigits | app.py:115 | A key SQLite can store has at most 19 digits, far inside the limit of `str()` and `int()` |
| Handlers.DeleteForm | app.py:109-115 | The form that submits a storable key as `str()` writes it reads back as that key |
| Handlers.PostDeleteKnown | app.py:119-124 | Deleting an existing key within SQLite's INTEGER range removes its row and redirects to `read` |
| Handlers.AddThenDelete | app.py:95-124 | Adding an acceptable film that fits the database, and then deleting the key it got, gives back the table as it was |
| Scenarios.HeatWithoutDuration | app.py:83-96 | "Heat", 4, 1995 without duration or genre crashes as written; corrected, it is stored with both columns NULL |
| Scenarios.InceptionStored | app.py:37-100 | "Inception", 5, 2010, 148, "Sci Fi" is stored as exactly that row, under key 1 in an empty table, by the handler as written and by the corrected one |
| Scenarios.DigitInTitleRejected | app.py:77-78 | The title "Se7en" is refused with the title message, by the handler as written and by the corrected one |
| Scenarios.EmptyTitleStored | app.py:77 | An empty title passes the title check and is stored, by the handler as written and by the corrected one |
| Scenarios.MultipartRefused | app.py:57-65 | A multipart submission is answered 415 even though its fields would parse, by the handler as written and by the corrected one |
| Scenarios.DeleteScenario | app.py:106-127 | Deleting key 1 empties a one-row table, a second delete finds nothing, and "one" is refused as a key |
| Scenarios.SeparatorBeforeKeyRefused | app.py:113-117 | A key preceded by U+001C is refused as not a number and the row stays, although `str.isspace()` holds for U+001C |
| Scenarios.SubmittedDeleteForm | app.py:109-123 | A submitted form that carries another field beside `filmID` deletes by `filmID` alone; the other field is never read |

## Left out

- The GET branches of both handlers, the other page routes and the templates are left out. They only render HTML.
- `update()` (app.py:139-157) is left out. It assigns an arbitrary submitted attribute name an untyped value through `setattr`, which has no typed counterpart.
- The REST resources under `/films` (app.py:182-212) are left out. They read and write a `year` attribute the Film model does not have, and they are registered only after the first `app.run`.
- `datetime.now()` is left out: the handler reads the current year but never uses it.
- The `print` in the year's `ValueError` branch is left out. It only writes to the server log.
- SQLAlchemy sessions, commits and the database file are left out. A commit is modelled as the new table value. The one way a commit or a lookup fails that is modelled is the driver refusing an integer outside SQLite's signed 64-bit INTEGER (`Catalog.FitsInteger`): a year or duration beyond it makes the add answer 500, and so does such a `filmID` for the delete.
- The rating column is declared `Float`, but the handler only ever stores an `int`, so it is modelled as an integer.
- PyInt.ParseInt: Python `int()` also accepts underscores between digits and non-ASCII decimal digits. The model accepts only ASCII digits, an optional sign and surrounding whitespace. The limit of 4300 digits is CPython's default; a server started with another limit is not modelled.
- PyInt.FormatInt: CPython's `str()` refuses an integer of more than 4300 digits. The model renders every integer, but it renders only row keys, which have at most 19 digits (`Handlers.KeyDigits`).
- `str.isalpha()` holds for every Unicode letter. The model's letters are those up to U+00FF, so titles in other scripts are treated as refused.
- JSON floats, and JSON bodies that are malformed or not an object, are left out. A JSON year is null, a boolean, an integer, a string, an array or an object.
- The `Content-Type` header is compared as an exact string, as the code does, so a value with parameters (`; charset=utf-8`) is answered 415. A missing header is modelled as the empty string, which the development server supplies.
- The model does not tie `request.form` to the `Content-Type`: Flask leaves it empty for a JSON body, while the model allows any form with any header.
- SQLite's next key is the largest key plus one. The fallback to a random free key after the largest possible row id is left out.
- Messages.MessageText has no contract: it only maps each answer to the exact text the handler returns.

## Findings

| source | as written | input that shows it | evidently intended | confidence | as-written member | corrected member |
|---|---|---|---|---|---|---|
| app.py:83-96 | `duration` is assigned only inside `if duration_str is not None`, but the row is always built from it | a form request with title "Heat", rating "4", yearReleased "1995" and no duration: `UnboundLocalError`, answered 500 | duration is optional, so the row is stored with a NULL duration | high; not executed | AddFilm.AbsentDurationCrashes | AddFilm.AddIntended |
| app.py:77 | `title.split()` is called on `request.form.get('title')` without checking for `None` | a form request with rating "4" and yearReleased "1995" and no title: `AttributeError`, answered 500 | a missing title is refused with a message like the other missing fields | high; not executed | AddFilm.AbsentTitleCrashes | AddFilm.AddIntended |

`AddFilm.AbsentDurationCrashes` and `AddFilm.AbsentTitleCrashes` prove both
sides of each row. As written (`AddFilm.Add`) the request crashes. Corrected
(`AddFilm.AddIntended`), the absent duration is stored as NULL and the
absent title is refused with "Title is required." (the source has no such message; the wording is the model's). `Scenarios.HeatWithoutDuration`
states the first row's input concretely.

`AddFilm.IntendedAgreesWhenNoCrash` proves that the correction changes
nothing else. `AddFilm.IntendedCrashesOnlyOnYearType` proves that the
corrected handler crashes only on a JSON year of the wrong type. The handlers
and the check-order table are stated for both policies.

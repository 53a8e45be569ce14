/**
  The plain-text answers of the add and delete handlers. Proofs compare
  messages by name; `MessageText` gives the exact text sent to the client.
 */
module Messages {

  datatype Message =
    | RatingRequired
    | RatingNotNumber
    | UnsupportedMediaType
    | YearRequired
    | InternalServerError
    | TitleInvalid
    | RatingOutOfRange
    | DurationNotPositive
    | DurationNotNumber
    | GenreInvalid
    | TitleRequired   // only the corrected add handler answers this
    | FilmIdRequired
    | FilmIdInvalid
    | FilmNotFound

  /** The exact text the handler returns for each message. */
  function MessageText(m: Message): string {
    match m
    case RatingRequired => "Rating is required."
    case RatingNotNumber => "Invalid rating. Please enter a valid number."
    case UnsupportedMediaType => "Unsupported Media Type"
    case YearRequired => "Year released is required."
    case InternalServerError => "Internal Server Error"
    case TitleInvalid => "Invalid characters in the title. Please use only letters and spaces."
    case RatingOutOfRange => "Invalid rating. Please enter a number between 1 and 5."
    case DurationNotPositive => "Invalid duration. Please enter a positive number."
    case DurationNotNumber => "Invalid duration. Please enter a valid number."
    case GenreInvalid => "Invalid characters in the genre. Please use only letters and spaces."
    case TitleRequired => "Title is required."
    case FilmIdRequired => "FilmID is required for deletion."
    case FilmIdInvalid => "Invalid FilmID. Please enter a valid number."
    case FilmNotFound => "Film not found."
  }
}

/**
  The parts of an HTTP request the film handlers read. A form (and a JSON
  object body) is keyed by the handful of field names the handlers ask for;
  no handler reads any other field. `ReadForm` shows that nothing is lost by
  keying a form by field: what a handler sees is exactly the submitted text
  under each field's name.
 */
module Forms {
  import opened Options

  /** The field names the handlers read. */
  datatype Field = Title | Rating | YearReleased | Duration | Genre | FilmID

  /** The exact key under which each field is submitted. */
  function FieldName(f: Field): string {
    match f
    case Title => "title"
    case Rating => "rating"
    case YearReleased => "yearReleased"
    case Duration => "duration"
    case Genre => "genre"
    case FilmID => "filmID"
  }

  /** `request.form`: the submitted fields and their text. */
  type Form = map<Field, string>

  /** Every field a handler reads. */
  const AllFields: set<Field> := {Title, Rating, YearReleased, Duration, Genre, FilmID}

  /** The form as submitted: text under arbitrary names. */
  type RawForm = map<string, string>

  /** The fields a handler can see in a submitted form: a field is present
      exactly when something was submitted under its name, and holds that
      text. Text under any other name is never read. */
  function ReadForm(raw: RawForm): (form: Form)
    ensures forall f: Field :: f in form <==> FieldName(f) in raw
    ensures forall f | f in form :: form[f] == raw[FieldName(f)]
  {
    map f | f in AllFields && FieldName(f) in raw :: raw[FieldName(f)]
  }

  /** `request.form.get(name)`. */
  function Get(form: Form, f: Field): (r: Option<string>)
    ensures r.Some? <==> f in form
    ensures r.Some? ==> r.value == form[f]
  {
    if f in form then Some(form[f]) else None
  }

  /** Distinct fields are submitted under distinct keys, so reading one
      field never sees another's value. */
  lemma FieldNamesDistinct(f: Field, g: Field)
    requires f != g
    ensures FieldName(f) != FieldName(g)
  {
    var a, b := FieldName(f), FieldName(g);
    assert |a| != |b| || a[0] != b[0];
  }
}

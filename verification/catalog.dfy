/**
  The `tblFilms` table: one Film row per primary key `filmID`.

  The table is a map from `filmID` to the row's other columns. A new row
  gets the key SQLite gives an `INTEGER PRIMARY KEY` column when none is
  supplied: one more than the largest key in the table, or 1 when the table
  is empty.
 */
module Catalog {
  import opened Options
  import opened PyText

  /** A row of `tblFilms` without its key. `rating` holds the integer the add
      handler parsed; `duration` and `genre` are nullable columns. */
  datatype Film = Film(
    title: string,
    yearReleased: int,
    rating: int,
    duration: Option<int>,
    genre: Option<string>
  )

  type Table = map<int, Film>

  /** The field checks the add handler makes before it writes a row. */
  predicate ValidFilm(f: Film) {
    && LettersAndSpaces(f.title)
    && 1 <= f.rating <= 5
    && (f.duration.Some? ==> f.duration.value >= 1)
    && (f.genre.Some? ==> LettersAndSpaces(f.genre.value))
  }

  /** The range of SQLite's INTEGER storage class, a signed 64-bit value. The
      database driver refuses to bind a Python integer outside it. */
  const MinInteger: int := -0x8000_0000_0000_0000
  const MaxInteger: int := 0x7fff_ffff_ffff_ffff

  predicate FitsInteger(n: int) {
    MinInteger <= n <= MaxInteger
  }

  /** The row's integer columns can be written to the database. */
  predicate Storable(f: Film) {
    && FitsInteger(f.yearReleased)
    && FitsInteger(f.rating)
    && (f.duration.Some? ==> FitsInteger(f.duration.value))
  }

  lemma PickKey<K>(keys: set<K>) returns (x: K)
    requires keys != {}
    ensures x in keys
  {
    x :| x in keys;
  }

  lemma {:induction false} MaxExists(keys: set<int>)
    requires keys != {}
    ensures exists m :: m in keys && forall k | k in keys :: k <= m
    decreases keys
  {
    var x := PickKey(keys);
    var rest := keys - {x};
    assert forall k | k in keys :: k == x || k in rest;
    if rest != {} {
      MaxExists(rest);
      var m :| m in rest && forall k | k in rest :: k <= m;
      if x <= m {
        assert forall k | k in keys :: k <= m;
      } else {
        assert forall k | k in keys :: k <= x;
      }
    } else {
      assert forall k | k in keys :: k <= x;
    }
  }

  /** The largest key in a non-empty set of keys. */
  function MaxKey(keys: set<int>): (m: int)
    requires keys != {}
    ensures m in keys
    ensures forall k | k in keys :: k <= m
  {
    MaxExists(keys);
    var m :| m in keys && forall k | k in keys :: k <= m;
    m
  }

  /** The key SQLite assigns to the next inserted row. */
  function NextId(t: Table): (id: int)
    ensures id !in t
    ensures forall k | k in t :: k < id
    ensures t == map[] ==> id == 1
    ensures t != map[] ==> id - 1 in t
  {
    if t == map[] then 1 else MaxKey(t.Keys) + 1
  }

  /** `db.session.add(film)` followed by a commit: the table with `f` stored
      under a fresh key, and that key. */
  function Insert(t: Table, f: Film): (r: (Table, int))
    ensures r.1 !in t && r.1 in r.0 && r.0[r.1] == f
    ensures r.0.Keys == t.Keys + {r.1}
    ensures forall k | k in t :: r.0[k] == t[k]
    ensures |r.0| == |t| + 1
  {
    var id := NextId(t);
    (t[id := f], id)
  }

  /** `db.session.delete(row)` followed by a commit. */
  function Remove(t: Table, id: int): (r: Table)
    requires id in t
    ensures r.Keys == t.Keys - {id}
    ensures forall k | k in r :: r[k] == t[k]
    ensures |r| == |t| - 1
  {
    t - {id}
  }

  /** Removing the row just inserted gives back the table as it was. */
  lemma InsertThenRemove(t: Table, f: Film)
    ensures Remove(Insert(t, f).0, Insert(t, f).1) == t
  {
    var (t', id) := Insert(t, f);
    assert Remove(t', id).Keys == t.Keys;
  }
}

/** The favorites file `data/favorites.json`: which contents the service trusts when it reloads,
    and what a save writes. File system calls and the JSON text format are not modelled; the
    file is given by what reading and parsing it yields.

    `isValidMovie` as the service writes it demands the four keys `title`, `imdbID`, `year` and
    `poster`; the service model uses that check (IsValidMovieAsWritten, LoadedAsWritten). The
    DTO makes `poster` optional, so the intended check demands only the other three
    (IsValidMovie, Loaded); the two are compared at the end of this module. */
module FavoritesStore {
  import opened MovieTypes

  /** What `loadFavorites` gets from reading and parsing the file. */
  datatype FileRead =
    | Missing                 // the read fails with ENOENT
    | ReadError               // the read fails otherwise
    | Empty                   // the file holds the empty string
    | Unparseable             // `JSON.parse` throws
    | Parsed(value: Json)

  // ---- The check as written, which the service uses ----

  /** `isValidMovie` as written: a non-null object with the four keys `title`, `imdbID`, `year`
      and `poster` (an array has none of them). */
  predicate IsValidMovieAsWritten(j: Json): (b: bool)
    ensures b <==> j.JObject? && {"title", "imdbID", "year", "poster"} <= j.fields.Keys
    ensures b ==> IsValidMovie(j)
  {
    IsValidMovie(j) && "poster" in j.fields
  }

  predicate AllValidAsWritten(favs: seq<Json>) {
    forall i :: 0 <= i < |favs| ==> IsValidMovieAsWritten(favs[i])
  }

  /** `isValidFavoritesArray`: an array every element of which passes `isValidMovie`. */
  predicate IsValidFavoritesArrayAsWritten(j: Json): (b: bool)
    ensures b <==> j.JArray? && forall i :: 0 <= i < |j.items| ==> IsValidMovieAsWritten(j.items[i])
    ensures b ==> IsValidFavoritesArray(j)
  {
    j.JArray? && AllValidAsWritten(j.items)
  }

  /** The list `loadFavorites` leaves in memory: a parsed array of four-key records is kept as
      it is; anything else, including every read or parse failure, becomes the empty list. */
  function LoadedAsWritten(f: FileRead): (favs: seq<Json>)
    ensures AllValidAsWritten(favs) && AllValid(favs)
    ensures f.Parsed? && IsValidFavoritesArrayAsWritten(f.value) ==> favs == f.value.items
    ensures !(f.Parsed? && IsValidFavoritesArrayAsWritten(f.value)) ==> favs == []
  {
    match f
    case Parsed(j) => if IsValidFavoritesArrayAsWritten(j) then j.items else []
    case _ => []
  }

  /** What `saveFavorites` leaves on disk, as the next read parses it: the array itself, since
      `JSON.parse(JSON.stringify(x))` gives back `x` on these values. Reloading it gives the
      saved list back whenever that list passes the check. */
  function Stored(favs: seq<Json>): (f: FileRead)
    ensures AllValidAsWritten(favs) ==> LoadedAsWritten(f) == favs
    ensures AllValid(favs) ==> Loaded(f) == favs
  {
    Parsed(JArray(favs))
  }

  /** A written movie always has the three keys; it passes the check as written exactly when
      it has a poster. */
  lemma MovieToJsonIsValid(m: Movie)
    ensures IsValidMovie(MovieToJson(m))
    ensures IsValidMovieAsWritten(MovieToJson(m)) <==> m.poster.Some?
  {
  }

  /** A missing, empty, unreadable or corrupt file all load as the empty list. */
  lemma UntrustedContentLoadsEmpty(f: FileRead)
    requires f.Missing? || f.ReadError? || f.Empty? || f.Unparseable? || (f.Parsed? && !f.value.JArray?)
    ensures LoadedAsWritten(f) == [] && Loaded(f) == []
  {
  }

  /** A single record without one of the four keys discards the whole file. */
  lemma {:induction false} OneBadRecordDiscardsAll(items: seq<Json>, k: nat)
    requires k < |items| && !IsValidMovieAsWritten(items[k])
    ensures LoadedAsWritten(Parsed(JArray(items))) == []
  {
    assert !AllValidAsWritten(items);
  }

  /** Appending a movie to a trusted list, saving and reloading keeps every favorite when the
      movie has a poster, and loses every favorite when it has none. */
  lemma {:induction false} SaveAppendedThenLoadAsWritten(favs: seq<Json>, m: Movie)
    requires AllValidAsWritten(favs)
    ensures LoadedAsWritten(Stored(favs + [MovieToJson(m)])) ==
      if m.poster.Some? then favs + [MovieToJson(m)] else []
  {
    var all := favs + [MovieToJson(m)];
    if m.poster.Some? {
      forall i | 0 <= i < |all| ensures IsValidMovieAsWritten(all[i]) {
        if i < |favs| { assert all[i] == favs[i]; }
      }
    } else {
      OneBadRecordDiscardsAll(all, |favs|);
    }
  }

  /** Deleting one record from a trusted list leaves a trusted list. */
  lemma DeleteKeepsValid(favs: seq<Json>, i: nat)
    requires AllValidAsWritten(favs) && i < |favs|
    ensures AllValidAsWritten(favs[..i] + favs[i + 1..])
  {
    var rest := favs[..i] + favs[i + 1..];
    forall j | 0 <= j < |rest| ensures IsValidMovieAsWritten(rest[j]) {
      if j < i { assert rest[j] == favs[j]; } else { assert rest[j] == favs[j + 1]; }
    }
  }

  /** With the check as written, adding a movie that has no poster and saving makes the next
      reload discard every favorite, the new one included. */
  lemma PosterlessFavoriteWipesList(favs: seq<Json>, m: Movie)
    requires m.poster.None?
    ensures LoadedAsWritten(Stored(favs + [MovieToJson(m)])) == []
  {
    var all := favs + [MovieToJson(m)];
    assert !IsValidMovieAsWritten(all[|favs|]);
  }

  // ---- The corrected check ----

  /** The shape check the optional `poster` calls for: an object with the keys `title`,
      `imdbID` and `year`. Every record the service holds in memory has this shape. */
  predicate IsValidMovie(j: Json): (b: bool)
    ensures b <==> j.JObject? && {"title", "imdbID", "year"} <= j.fields.Keys
  {
    j.JObject? && "title" in j.fields && "imdbID" in j.fields && "year" in j.fields
  }

  predicate AllValid(favs: seq<Json>) {
    forall i :: 0 <= i < |favs| ==> IsValidMovie(favs[i])
  }

  predicate IsValidFavoritesArray(j: Json) {
    j.JArray? && AllValid(j.items)
  }

  /** `loadFavorites` with the corrected check. */
  function Loaded(f: FileRead): (favs: seq<Json>)
    ensures AllValid(favs)
    ensures f.Parsed? && IsValidFavoritesArray(f.value) ==> favs == f.value.items
    ensures !(f.Parsed? && IsValidFavoritesArray(f.value)) ==> favs == []
  {
    match f
    case Parsed(j) => if IsValidFavoritesArray(j) then j.items else []
    case _ => []
  }

  /** With the corrected check, appending any movie the service accepted, saving and reloading
      keeps every favorite. */
  lemma {:induction false} SaveAppendedThenLoad(favs: seq<Json>, m: Movie)
    requires AllValid(favs)
    ensures Loaded(Stored(favs + [MovieToJson(m)])) == favs + [MovieToJson(m)]
  {
    MovieToJsonIsValid(m);
    var all := favs + [MovieToJson(m)];
    forall i | 0 <= i < |all| ensures IsValidMovie(all[i]) {
      if i < |favs| { assert all[i] == favs[i]; }
    }
  }

  /** The two checks agree on records that carry a poster. */
  lemma LoadersAgreeWithPosters(f: FileRead)
    requires f.Parsed? && f.value.JArray?
    requires forall i :: 0 <= i < |f.value.items| ==> f.value.items[i].JObject? && "poster" in f.value.items[i].fields
    ensures LoadedAsWritten(f) == Loaded(f)
  {
  }
}

/** MoviesService: the favorites list with its add, remove and paged listing, and the shaping
    of upstream search replies, annotated with favorite status.

    Adding, removing and listing first reload the list from the file, so their outcome depends
    only on the file and their inputs; a search reloads only when the reply has a `Search` field, even an
    empty one. Reloading
    uses the shape check as written, which also demands a `poster` key. The `...Step` functions state each outcome: the result, the list left
    in memory and the file afterwards. The class methods perform the same steps in place, and
    the lemmas below state what the outcomes promise. */
module Service {
  import opened MovieTypes
  import opened JsText
  import opened FavoritesStore

  // ---- Upstream search replies ----

  /** One hit in an upstream search reply. */
  datatype OmdbMovie = OmdbMovie(title: string, imdbID: string, year: string, poster: string)

  /** An upstream search reply; an absent field is `None`. */
  datatype OmdbReply = OmdbReply(
    response: string,
    search: Option<seq<OmdbMovie>>,
    totalResults: Option<string>,
    error: Option<string>)

  /** What the upstream request yields: a reply, a timeout (ECONNABORTED) or another failure. */
  datatype Upstream = Answered(reply: OmdbReply) | TimedOut | Failed

  /** A search hit as the service returns it. */
  datatype SearchMovie = SearchMovie(title: string, imdbID: string, year: nat, poster: Option<string>, isFavorite: bool)

  datatype SearchResult = SearchResult(movies: seq<SearchMovie>, count: nat, totalResults: string)

  datatype FavoritesPage = FavoritesPage(
    favorites: seq<Json>,
    count: nat,
    totalResults: string,
    currentPage: int,
    totalPages: nat)

  /** The outcome of one operation: its result, the list in memory and the file afterwards. */
  datatype Step<T> = Step(result: Result<T, Failure>, favorites: seq<Json>, disk: FileRead)

  /** The page size `getFavorites` uses when none is given; the only one the controller uses. */
  const DefaultPageSize: nat := 10

  /** JavaScript truthiness of an optional string field. */
  predicate Truthy(s: Option<string>) {
    s.Some? && s.value != ""
  }

  // ---- Looking up favorites by id ----

  /** `fav.imdbID` of a well-shaped record. */
  function IdOf(e: Json): Json
    requires IsValidMovie(e)
  {
    e.fields["imdbID"]
  }

  /** `fav.imdbID.toLowerCase() === id.toLowerCase()`, where the id is a string. */
  predicate FoldMatch(e: Json, id: string)
    requires IsValidMovie(e)
  {
    IdOf(e).JString? && FoldEq(IdOf(e).s, id)
  }

  /** Every record before index `k` has a string id that differs from `id` up to case. */
  predicate ClearBefore(favs: seq<Json>, id: string, k: nat)
    requires AllValid(favs) && k <= |favs|
  {
    forall j :: 0 <= j < k ==> IdOf(favs[j]).JString? && !FoldEq(IdOf(favs[j]).s, id)
  }

  /** `favs.findIndex(fav => fav.imdbID.toLowerCase() === id.toLowerCase())`, which also decides
      `favs.some(...)` with the same test. A record whose id is not a string makes
      `toLowerCase` throw when the scan reaches it, which the service reports as Internal. */
  function FindFolded(favs: seq<Json>, id: string): (r: Result<Option<nat>, Failure>)
    requires AllValid(favs)
    ensures r.Ok? && r.value.Some? ==>
      r.value.value < |favs| && FoldMatch(favs[r.value.value], id) && ClearBefore(favs, id, r.value.value)
    ensures r == Ok(None) ==> ClearBefore(favs, id, |favs|)
    ensures r.Err? ==>
      r.error == Internal &&
      exists k :: 0 <= k < |favs| && !IdOf(favs[k]).JString? && ClearBefore(favs, id, k)
  {
    if favs == [] then Ok(None)
    else
      match IdOf(favs[0])
      case JString(s) =>
        if FoldEq(s, id) then Ok(Some(0))
        else
          var rest := FindFolded(favs[1..], id);
          assert forall j :: 1 <= j <= |favs| ==> (ClearBefore(favs[1..], id, j - 1) ==> ClearBefore(favs, id, j)) by {
            forall j | 1 <= j <= |favs| && ClearBefore(favs[1..], id, j - 1) ensures ClearBefore(favs, id, j) {
              forall i | 0 <= i < j ensures IdOf(favs[i]).JString? && !FoldEq(IdOf(favs[i]).s, id) {
                if i > 0 { assert favs[i] == favs[1..][i - 1]; }
              }
            }
          }
          (match rest
           case Ok(Some(i)) => Ok(Some(i + 1))
           case Ok(None) => Ok(None)
           case Err(e) =>
             var k :| 0 <= k < |favs[1..]| && !IdOf(favs[1..][k]).JString? && ClearBefore(favs[1..], id, k);
             assert !IdOf(favs[k + 1]).JString?;
             Err(e))
      case _ =>
        assert ClearBefore(favs, id, 0);
        Err(Internal)
  }

  /** `favs.some(fav => fav.imdbID === id)`: exact, case-sensitive membership. */
  function IsFavorite(favs: seq<Json>, id: string): (b: bool)
    requires AllValid(favs)
    ensures b <==> exists i :: 0 <= i < |favs| && IdOf(favs[i]) == JString(id)
  {
    if favs == [] then false
    else if IdOf(favs[0]) == JString(id) then true
    else
      var b := IsFavorite(favs[1..], id);
      assert b ==> exists i :: 0 <= i < |favs| && IdOf(favs[i]) == JString(id) by {
        if b {
          var i :| 0 <= i < |favs[1..]| && IdOf(favs[1..][i]) == JString(id);
          assert favs[1..][i] == favs[i + 1];
        }
      }
      assert (exists i :: 0 <= i < |favs| && IdOf(favs[i]) == JString(id)) ==> b by {
        if exists i :: 0 <= i < |favs| && IdOf(favs[i]) == JString(id) {
          var i :| 0 <= i < |favs| && IdOf(favs[i]) == JString(id);
          assert i > 0 && favs[1..][i - 1] == favs[i];
        }
      }
      b
  }

  // ---- Search-result shaping ----

  /** `searchMovies`: a reply saying "False" or carrying an error is replaced by an empty one;
      a timeout and any other transport failure are reported as they are. */
  function FetchReply(up: Upstream): (r: Result<OmdbReply, Failure>)
    ensures r.Ok? <==> up.Answered?
    ensures r.Ok? ==> r.value.response != "False" && !Truthy(r.value.error)
    ensures up.TimedOut? <==> r == Err(UpstreamTimeout)
    ensures up.Failed? <==> r == Err(UpstreamFailure)
    ensures up.Answered? && up.reply.response != "False" && !Truthy(up.reply.error) ==> r == Ok(up.reply)
    ensures up.Answered? && (up.reply.response == "False" || Truthy(up.reply.error)) ==>
      r.Ok? && r.value.search.None? && r.value.totalResults == Some("0") && r.value.error.None? && NoResults(r.value)
  {
    match up
    case TimedOut => Err(UpstreamTimeout)
    case Failed => Err(UpstreamFailure)
    case Answered(reply) =>
      if reply.response == "False" || Truthy(reply.error) then Ok(OmdbReply("", None, Some("0"), None))
      else Ok(reply)
  }

  /** The test `getMovieByTitle` applies before mapping the hits. */
  predicate NoResults(reply: OmdbReply): (b: bool)
    ensures !b <==> reply.search.Some? && reply.response != "False" && !Truthy(reply.error)
  {
    reply.response == "False" || Truthy(reply.error) || reply.search.None?
  }

  /** One hit as a movie: the year is parsed, an empty poster becomes absent, and the favorite
      flag is exact membership of the id in `favs`. */
  function ToSearchMovie(favs: seq<Json>, hit: OmdbMovie): (r: SearchMovie)
    requires AllValid(favs)
    ensures r.title == hit.title && r.imdbID == hit.imdbID
    ensures r.year == ParseYear(hit.year) <= 9999
    ensures hit.poster == "" ==> r.poster.None?
    ensures hit.poster != "" ==> r.poster == Some(hit.poster)
    ensures r.isFavorite <==> exists j :: 0 <= j < |favs| && IdOf(favs[j]) == JString(hit.imdbID)
  {
    SearchMovie(hit.title, hit.imdbID, ParseYear(hit.year), if hit.poster == "" then None else Some(hit.poster),
                IsFavorite(favs, hit.imdbID))
  }

  /** The search result built from a reply that has a `Search` field. */
  function Shape(favs: seq<Json>, reply: OmdbReply): (r: SearchResult)
    requires AllValid(favs) && reply.search.Some?
    ensures r.count == |r.movies| == |reply.search.value|
    ensures forall i :: 0 <= i < r.count ==>
      var hit := reply.search.value[i];
      && r.movies[i].title == hit.title
      && r.movies[i].imdbID == hit.imdbID
      && r.movies[i].year == ParseYear(hit.year) <= 9999
      && (hit.poster == "" ==> r.movies[i].poster.None?)
      && (hit.poster != "" ==> r.movies[i].poster == Some(hit.poster))
      && (r.movies[i].isFavorite <==> exists j :: 0 <= j < |favs| && IdOf(favs[j]) == JString(hit.imdbID))
    ensures r.totalResults == if Truthy(reply.totalResults) then reply.totalResults.value else "0"
  {
    var hits := reply.search.value;
    var movies := seq(|hits|, i requires 0 <= i < |hits| => ToSearchMovie(favs, hits[i]));
    SearchResult(movies, |movies|, if Truthy(reply.totalResults) then reply.totalResults.value else "0")
  }

  /** `getMovieByTitle`: given what the upstream request yields and the list in memory before
      the call. The list is reloaded only when the reply has a `Search` field (`![]` is false,
      so an empty one counts). */
  function SearchStep(disk: FileRead, before: seq<Json>, up: Upstream): (s: Step<SearchResult>)
    ensures s.disk == disk
    ensures s.result.Err? <==> !up.Answered?
    ensures s.result.Err? ==> s.result.error == UpstreamTimeout || s.result.error == UpstreamFailure
    ensures s.favorites == before || s.favorites == LoadedAsWritten(disk)
    ensures s.result.Ok? && s.result.value.count > 0 ==> s.favorites == LoadedAsWritten(disk)
  {
    match FetchReply(up)
    case Err(e) => Step(Err(e), before, disk)
    case Ok(reply) =>
      if NoResults(reply) then Step(Ok(SearchResult([], 0, "0")), before, disk)
      else
        var favs := LoadedAsWritten(disk);
        Step(Ok(Shape(favs, reply)), favs, disk)
  }

  // ---- Pagination ----

  function Min(a: int, b: int): int {
    if a <= b then a else b
  }

  function Max(a: int, b: int): int {
    if a <= b then b else a
  }

  /** `Math.ceil(n / d)`. */
  function CeilDiv(n: nat, d: nat): (q: nat)
    requires d >= 1
    ensures n <= q * d
    ensures q > 0 ==> (q - 1) * d < n
  {
    (n + d - 1) / d
  }

  /** `Math.max(1, Math.ceil(n / pageSize))`. */
  function TotalPages(n: nat, pageSize: nat): (t: nat)
    requires pageSize >= 1
    ensures t >= 1
    ensures n <= t * pageSize
    ensures t > 1 ==> (t - 1) * pageSize < n
  {
    var q := CeilDiv(n, pageSize);
    if q == 0 then MulLe(0, 1, pageSize); 1 else q
  }

  /** `favs.slice(start, start + size)`: the entries from `start` on, at most `size` of them. */
  function Window(favs: seq<Json>, start: nat, size: nat): (r: seq<Json>)
    ensures |r| <= size
    ensures |r| == if start >= |favs| then 0 else Min(size, |favs| - start)
    ensures forall k :: 0 <= k < |r| ==> start + k < |favs| && r[k] == favs[start + k]
  {
    favs[Min(|favs|, start)..Min(|favs|, start + size)]
  }

  /** `favs.slice((page - 1) * pageSize, (page - 1) * pageSize + pageSize)`. */
  function PageSlice(favs: seq<Json>, page: int, pageSize: nat): (r: seq<Json>)
    requires page >= 1 && pageSize >= 1
    ensures |r| <= pageSize
    ensures |r| == if (page - 1) * pageSize >= |favs| then 0 else Min(pageSize, |favs| - (page - 1) * pageSize)
    ensures forall k :: 0 <= k < |r| ==> (page - 1) * pageSize + k < |favs| && r[k] == favs[(page - 1) * pageSize + k]
  {
    MulNonneg(page - 1, pageSize);
    Window(favs, (page - 1) * pageSize, pageSize)
  }

  /** The response shape of `getFavorites` over the reloaded list. */
  function Paginate(favs: seq<Json>, page: int, pageSize: nat): (r: Result<FavoritesPage, Failure>)
    requires pageSize >= 1
    ensures r.Err? <==> page < 1
    ensures r.Err? ==> r.error == Validation
    ensures r.Ok? ==>
      && r.value.favorites == PageSlice(favs, page, pageSize)
      && r.value.count == |r.value.favorites| <= pageSize
      && r.value.currentPage == page
      && r.value.totalPages == TotalPages(|favs|, pageSize) >= 1
      && r.value.totalResults == DecimalString(|favs|)
      && AllDigits(r.value.totalResults) && DigitsValue(r.value.totalResults) == |favs|
  {
    if page < 1 then Err(Validation)
    else
      var slice := PageSlice(favs, page, pageSize);
      DecimalRoundTrip(|favs|);
      Ok(FavoritesPage(slice, |slice|, DecimalString(|favs|), page, TotalPages(|favs|, pageSize)))
  }

  /** `getFavorites(page, pageSize)`. */
  function ListStep(disk: FileRead, page: int, pageSize: nat): (s: Step<FavoritesPage>)
    requires pageSize >= 1
    ensures s.disk == disk && s.favorites == LoadedAsWritten(disk)
    ensures s.result.Ok? <==> page >= 1
    ensures s.result == Paginate(LoadedAsWritten(disk), page, pageSize)
  {
    var favs := LoadedAsWritten(disk);
    Step(Paginate(favs, page, pageSize), favs, disk)
  }

  /** Pages 1 to k, one after another. */
  function PagesUpTo(favs: seq<Json>, pageSize: nat, k: nat): seq<Json>
    requires pageSize >= 1
  {
    if k == 0 then [] else PagesUpTo(favs, pageSize, k - 1) + PageSlice(favs, k, pageSize)
  }

  /** The first k pages are the first k * pageSize favorites. */
  lemma {:induction false} PagesUpToIsPrefix(favs: seq<Json>, pageSize: nat, k: nat)
    requires pageSize >= 1
    ensures PagesUpTo(favs, pageSize, k) == favs[..Min(|favs|, k * pageSize)]
  {
    if k > 0 {
      PagesUpToIsPrefix(favs, pageSize, k - 1);
      MulStep(k, pageSize);
      var start := (k - 1) * pageSize;
      var n := |favs|;
      SliceJoin(favs, Min(n, start), Min(n, start + pageSize));
    }
  }

  /** Pages 1 to totalPages partition the list: nothing is lost, repeated or reordered. */
  lemma PagesCoverFavorites(favs: seq<Json>, pageSize: nat)
    requires pageSize >= 1
    ensures PagesUpTo(favs, pageSize, TotalPages(|favs|, pageSize)) == favs
  {
    var t := TotalPages(|favs|, pageSize);
    PagesUpToIsPrefix(favs, pageSize, t);
    assert |favs| <= t * pageSize;
    assert favs[..|favs|] == favs;
  }

  /** A page past the last one is empty, yet still succeeds. */
  lemma PageBeyondLastIsEmpty(favs: seq<Json>, page: int, pageSize: nat)
    requires pageSize >= 1 && page > TotalPages(|favs|, pageSize)
    ensures Paginate(favs, page, pageSize).Ok?
    ensures Paginate(favs, page, pageSize).value.count == 0
  {
    var t := TotalPages(|favs|, pageSize);
    assert |favs| <= t * pageSize;
    MulLe(t, page - 1, pageSize);
  }

  /** Favorite i is entry i % pageSize on page i / pageSize + 1. */
  lemma FavoriteOnItsPage(favs: seq<Json>, pageSize: nat, i: nat)
    requires pageSize >= 1 && i < |favs|
    ensures i / pageSize + 1 <= TotalPages(|favs|, pageSize)
    ensures var p := PageSlice(favs, i / pageSize + 1, pageSize); i % pageSize < |p| && p[i % pageSize] == favs[i]
  {
    var q, r := i / pageSize, i % pageSize;
    DivMod(i, pageSize);
    MulStep(q + 1, pageSize);
    var start := (q + 1 - 1) * pageSize;
    assert start + r == i;
    var t := TotalPages(|favs|, pageSize);
    MulLe(t, q, pageSize);
    var p := PageSlice(favs, q + 1, pageSize);
    assert p[r] == favs[start + r];
  }

  /** With no favorites there is one page, and it is empty. */
  lemma EmptyListHasOnePage(page: int, pageSize: nat)
    requires pageSize >= 1 && page >= 1
    ensures Paginate([], page, pageSize) == Ok(FavoritesPage([], 0, "0", page, 1))
  {
    assert DecimalString(0) == "0";
    MulLe(0, page - 1, pageSize);
    assert CeilDiv(0, pageSize) == (pageSize - 1) / pageSize == 0;
  }

  lemma MulLe(a: int, b: int, c: nat)
    ensures a <= b ==> a * c <= b * c
  {
  }

  lemma MulNonneg(a: nat, b: nat)
    ensures a * b >= 0
  {
  }

  lemma MulStep(k: nat, d: nat)
    requires k >= 1
    ensures 0 <= (k - 1) * d && (k - 1) * d + d == k * d
  {
  }

  lemma DivMod(i: nat, d: nat)
    requires d >= 1
    ensures (i / d + 1 - 1) * d + i % d == i && i / d * d + i % d == i && 0 <= i % d < d
  {
  }

  lemma SliceJoin(favs: seq<Json>, a: nat, b: nat)
    requires a <= b <= |favs|
    ensures favs[..a] + favs[a..b] == favs[..b]
  {
  }

  // ---- Adding and removing ----

  /** `addToFavorites`: reload, reject a duplicate id up to case, append, save. */
  function AddStep(disk: FileRead, movie: Movie, writeFails: bool): (s: Step<Movie>)
    ensures s.result.Ok? ==> s.result.value == movie && !writeFails && s.disk == Stored(s.favorites)
    ensures s.result.Err? ==>
      (s.result.error == Conflict || s.result.error == Internal || s.result.error == Persistence) && s.disk == disk
    ensures s.result.Ok? || s.result == Err(Persistence) ==> s.favorites == LoadedAsWritten(disk) + [MovieToJson(movie)]
    ensures s.result == Err(Conflict) || s.result == Err(Internal) ==> s.favorites == LoadedAsWritten(disk)
    ensures s.result == Err(Persistence) ==> writeFails
    ensures s.result == Err(Internal) ==> !StringIds(LoadedAsWritten(disk))
    ensures var f := FindFolded(LoadedAsWritten(disk), movie.imdbID);
      && (s.result == Err(Internal) <==> f.Err?)
      && (s.result == Err(Conflict) <==> f.Ok? && f.value.Some?)
      && (s.result.Ok? <==> f == Ok(None) && !writeFails)
  {
    var favs := LoadedAsWritten(disk);
    match FindFolded(favs, movie.imdbID)
    case Err(e) => Step(Err(e), favs, disk)
    case Ok(Some(_)) => Step(Err(Conflict), favs, disk)
    case Ok(None) =>
      var added := favs + [MovieToJson(movie)];
      if writeFails then Step(Err(Persistence), added, disk) else Step(Ok(movie), added, Stored(added))
  }

  /** `removeFromFavorites`: reload, find the first id equal up to case, delete it, save. */
  function RemoveStep(disk: FileRead, id: string, writeFails: bool): (s: Step<()>)
    ensures s.result.Ok? ==> !writeFails && s.disk == Stored(s.favorites)
    ensures s.result.Err? ==>
      (s.result.error == NotFound || s.result.error == Internal || s.result.error == Persistence) && s.disk == disk
    ensures s.result.Ok? || s.result == Err(Persistence) ==> |s.favorites| + 1 == |LoadedAsWritten(disk)|
    ensures s.result == Err(NotFound) || s.result == Err(Internal) ==> s.favorites == LoadedAsWritten(disk)
    ensures s.result == Err(Persistence) ==> writeFails
    ensures s.result == Err(Internal) ==> !StringIds(LoadedAsWritten(disk))
    ensures var f := FindFolded(LoadedAsWritten(disk), id);
      && (s.result == Err(Internal) <==> f.Err?)
      && (s.result == Err(NotFound) <==> f == Ok(None))
      && (s.result.Ok? <==> f.Ok? && f.value.Some? && !writeFails)
      && (s.result.Ok? || s.result == Err(Persistence) ==>
            f.Ok? && f.value.Some? && s.favorites == LoadedAsWritten(disk)[..f.value.value] + LoadedAsWritten(disk)[f.value.value + 1..])
  {
    var favs := LoadedAsWritten(disk);
    match FindFolded(favs, id)
    case Err(e) => Step(Err(e), favs, disk)
    case Ok(None) => Step(Err(NotFound), favs, disk)
    case Ok(Some(i)) =>
      var rest := favs[..i] + favs[i + 1..];
      if writeFails then Step(Err(Persistence), rest, disk) else Step(Ok(()), rest, Stored(rest))
  }

  /** Every record in the list has a string id. */
  predicate StringIds(favs: seq<Json>)
    requires AllValid(favs)
  {
    forall i :: 0 <= i < |favs| ==> IdOf(favs[i]).JString?
  }

  lemma AppendKeepsValid(favs: seq<Json>, m: Movie)
    requires AllValid(favs)
    ensures AllValid(favs + [MovieToJson(m)])
  {
    MovieToJsonIsValid(m);
    var all := favs + [MovieToJson(m)];
    forall i | 0 <= i < |all| ensures IsValidMovie(all[i]) {
      if i < |favs| { assert all[i] == favs[i]; }
    }
  }

  /** Over string ids, adding fails with Conflict exactly when some favorite has the same id
      up to case, and then nothing changes; otherwise it succeeds unless the write fails. */
  lemma AddConflictIff(disk: FileRead, movie: Movie, writeFails: bool)
    requires StringIds(LoadedAsWritten(disk))
    ensures var favs := LoadedAsWritten(disk);
      AddStep(disk, movie, writeFails).result == Err(Conflict) <==>
        exists i :: 0 <= i < |favs| && FoldEq(IdOf(favs[i]).s, movie.imdbID)
    ensures AddStep(disk, movie, writeFails).result == Err(Conflict) ==>
      AddStep(disk, movie, writeFails).favorites == LoadedAsWritten(disk) && AddStep(disk, movie, writeFails).disk == disk
    ensures var favs := LoadedAsWritten(disk);
      (forall i :: 0 <= i < |favs| ==> !FoldEq(IdOf(favs[i]).s, movie.imdbID)) ==>
        AddStep(disk, movie, writeFails).result == if writeFails then Err(Persistence) else Ok(movie)
  {
    var favs := LoadedAsWritten(disk);
    var found := FindFolded(favs, movie.imdbID);
    if found.Err? {
      assert false;
    }
  }

  /** A successful add returns the movie, appends it after every earlier favorite and saves.
      The next reload keeps the grown list when the movie has a poster and finds nothing when
      it has none. */
  lemma AddAppends(disk: FileRead, movie: Movie, writeFails: bool)
    requires AddStep(disk, movie, writeFails).result.Ok?
    ensures var s := AddStep(disk, movie, writeFails);
      && s.result.value == movie
      && s.favorites == LoadedAsWritten(disk) + [MovieToJson(movie)]
      && |s.favorites| == |LoadedAsWritten(disk)| + 1
      && (forall i :: 0 <= i < |LoadedAsWritten(disk)| ==> s.favorites[i] == LoadedAsWritten(disk)[i])
      && LoadedAsWritten(s.disk) == if movie.poster.Some? then s.favorites else []
  {
    SaveAppendedThenLoadAsWritten(LoadedAsWritten(disk), movie);
  }

  /** After a successful add of a movie with a poster, the reloaded list holds exactly one
      favorite whose id equals the added one up to case: the new last entry. */
  lemma AddThenListHasExactlyOne(disk: FileRead, movie: Movie, writeFails: bool)
    requires AddStep(disk, movie, writeFails).result.Ok?
    requires movie.poster.Some?
    ensures var after := LoadedAsWritten(AddStep(disk, movie, writeFails).disk);
      |after| >= 1 && forall i :: 0 <= i < |after| ==> (FoldMatch(after[i], movie.imdbID) <==> i == |after| - 1)
  {
    var favs := LoadedAsWritten(disk);
    SaveAppendedThenLoadAsWritten(favs, movie);
    var after := favs + [MovieToJson(movie)];
    assert FindFolded(favs, movie.imdbID) == Ok(None);
    forall i | 0 <= i < |after| ensures FoldMatch(after[i], movie.imdbID) <==> i == |after| - 1 {
      if i < |favs| { assert after[i] == favs[i]; }
    }
  }

  /** Once a movie with a poster is added, adding an id equal to it up to case ("tt001" then
      "TT001") fails with Conflict. */
  lemma AddThenAddFoldedIsConflict(disk: FileRead, first: Movie, second: Movie, w1: bool, w2: bool)
    requires AddStep(disk, first, w1).result.Ok?
    requires first.poster.Some?
    requires FoldEq(first.imdbID, second.imdbID)
    ensures AddStep(AddStep(disk, first, w1).disk, second, w2).result == Err(Conflict)
  {
    var favs := LoadedAsWritten(disk);
    SaveAppendedThenLoadAsWritten(favs, first);
    var after := favs + [MovieToJson(first)];
    assert FindFolded(favs, first.imdbID) == Ok(None);
    var found := FindFolded(after, second.imdbID);
    assert FoldMatch(after[|favs|], second.imdbID);
    if found.Err? {
      assert false;
    }
    if found == Ok(None) {
      assert false;
    }
  }

  /** Once a movie without a poster is added, the next add finds an empty list whatever the
      file held before: any id, a duplicate of the first up to case included, is accepted, and
      the file then holds the new movie alone. */
  lemma PosterlessAddForgetsList(disk: FileRead, first: Movie, second: Movie, w1: bool)
    requires AddStep(disk, first, w1).result.Ok?
    requires first.poster.None?
    ensures var s := AddStep(AddStep(disk, first, w1).disk, second, false);
      s.result == Ok(second) && s.favorites == [MovieToJson(second)]
  {
    PosterlessFavoriteWipesList(LoadedAsWritten(disk), first);
  }

  /** Over string ids, removing fails with NotFound exactly when no favorite has the id up to
      case, and then nothing changes; otherwise it succeeds unless the write fails. */
  lemma RemoveNotFoundIff(disk: FileRead, id: string, writeFails: bool)
    requires StringIds(LoadedAsWritten(disk))
    ensures var favs := LoadedAsWritten(disk);
      RemoveStep(disk, id, writeFails).result == Err(NotFound) <==>
        forall i :: 0 <= i < |favs| ==> !FoldEq(IdOf(favs[i]).s, id)
    ensures RemoveStep(disk, id, writeFails).result == Err(NotFound) ==>
      RemoveStep(disk, id, writeFails).favorites == LoadedAsWritten(disk) && RemoveStep(disk, id, writeFails).disk == disk
    ensures var favs := LoadedAsWritten(disk);
      (exists i :: 0 <= i < |favs| && FoldEq(IdOf(favs[i]).s, id)) ==>
        RemoveStep(disk, id, writeFails).result == if writeFails then Err(Persistence) else Ok(())
  {
    var favs := LoadedAsWritten(disk);
    var found := FindFolded(favs, id);
    if found.Err? {
      assert false;
    }
  }

  /** A successful remove deletes exactly the first favorite whose id matches up to case, and
      the reloaded file holds the rest in order. */
  lemma RemoveDeletesFirstMatch(disk: FileRead, id: string, writeFails: bool)
    requires RemoveStep(disk, id, writeFails).result.Ok?
    ensures var favs := LoadedAsWritten(disk); var s := RemoveStep(disk, id, writeFails);
      exists i :: 0 <= i < |favs| && FoldMatch(favs[i], id) && ClearBefore(favs, id, i)
        && s.favorites == favs[..i] + favs[i + 1..]
        && |s.favorites| == |favs| - 1
        && LoadedAsWritten(s.disk) == s.favorites
  {
    var favs := LoadedAsWritten(disk);
    var i := FindFolded(favs, id).value.value;
    DeleteKeepsValid(favs, i);
  }

  /** A trusted file whose record has a non-string id makes add fail with Internal when no
      earlier record matches. */
  lemma NonStringIdIsInternal(title: string, poster: string, year: int, w: bool, movie: Movie)
    ensures var rec := JObject(map["title" := JString(title), "imdbID" := JNumber(1), "year" := JNumber(year), "poster" := JString(poster)]);
      AddStep(Stored([rec]), movie, w) == Step(Err(Internal), [rec], Stored([rec]))
  {
    var rec := JObject(map["title" := JString(title), "imdbID" := JNumber(1), "year" := JNumber(year), "poster" := JString(poster)]);
    assert IsValidMovieAsWritten(rec);
    assert LoadedAsWritten(Stored([rec])) == [rec];
  }

  /** The file holds "tt001": adding "TT001" is a conflict, deleting "tt001" leaves an empty
      file, yet a search hit "TT001" is not flagged as a favorite. */
  lemma CaseScenario(hit: OmdbMovie, w: bool)
    requires hit.imdbID == "TT001"
    ensures var favs := [MovieToJson(Movie("A", "tt001", 2001, Some("p")))];
      && AddStep(Stored(favs), Movie("A", "TT001", 2001, None), w).result == Err(Conflict)
      && RemoveStep(Stored(favs), "tt001", false) == Step(Ok(()), [], Stored([]))
      && !ToSearchMovie(favs, hit).isFavorite
  {
    var favs := [MovieToJson(Movie("A", "tt001", 2001, Some("p")))];
    MovieToJsonIsValid(Movie("A", "tt001", 2001, Some("p")));
    assert LoadedAsWritten(Stored(favs)) == favs;
    FoldEqExample();
    assert FoldMatch(favs[0], "TT001");
    assert FoldMatch(favs[0], "tt001");
    assert favs[..0] + favs[1..] == [];
  }

  // ---- Search shaping properties ----

  /** A reply saying "False", carrying an error, or without a `Search` field gives an empty
      result and
      leaves the list in memory as it was. */
  lemma NoResultsGiveEmptyResult(disk: FileRead, before: seq<Json>, reply: OmdbReply)
    requires NoResults(reply)
    ensures SearchStep(disk, before, Answered(reply)) == Step(Ok(SearchResult([], 0, "0")), before, disk)
  {
  }

  /** An upstream timeout is UpstreamTimeout and any other transport failure UpstreamFailure;
      neither touches the list or the file. */
  lemma UpstreamFailuresPassThrough(disk: FileRead, before: seq<Json>)
    ensures SearchStep(disk, before, TimedOut) == Step(Err(UpstreamTimeout), before, disk)
    ensures SearchStep(disk, before, Failed) == Step(Err(UpstreamFailure), before, disk)
  {
  }

  /** A reply with a `Search` field is mapped one by one against the reloaded list. */
  lemma SearchShapesHits(disk: FileRead, before: seq<Json>, reply: OmdbReply)
    requires !NoResults(reply)
    ensures var s := SearchStep(disk, before, Answered(reply));
      && s.result.Ok?
      && s.favorites == LoadedAsWritten(disk)
      && s.result.value == Shape(LoadedAsWritten(disk), reply)
      && s.result.value.count == |s.result.value.movies| == |reply.search.value|
      && forall i :: 0 <= i < |reply.search.value| ==>
        && s.result.value.movies[i].year == ParseYear(reply.search.value[i].year) <= 9999
        && (s.result.value.movies[i].isFavorite <==>
              exists j :: 0 <= j < |LoadedAsWritten(disk)| && IdOf(LoadedAsWritten(disk)[j]) == JString(reply.search.value[i].imdbID))
  {
  }

  /** `![]` is false, so a reply with an empty `Search` still reloads the list and reports the
      reply's own total, with no movies. */
  lemma EmptySearchStillReloads(disk: FileRead, before: seq<Json>)
    ensures var s := SearchStep(disk, before, Answered(OmdbReply("True", Some([]), Some("5"), None)));
      s == Step(Ok(SearchResult([], 0, "5")), LoadedAsWritten(disk), disk)
  {
    var reply := OmdbReply("True", Some([]), Some("5"), None);
    assert !NoResults(reply);
    assert Shape(LoadedAsWritten(disk), reply).movies == [];
  }

  // ---- The service object ----

  class MoviesService {
    /** The list in memory. */
    var favorites: seq<Json>
    /** What the next read of `data/favorites.json` yields. */
    var disk: FileRead

    ghost predicate Valid()
      reads this
    {
      AllValid(favorites)
    }

    /** Construction followed by `onModuleInit`, which loads the file. */
    constructor (initial: FileRead)
      ensures Valid()
      ensures disk == initial && favorites == LoadedAsWritten(initial)
    {
      disk := initial;
      new;
      LoadFavorites();
    }

    /** `loadFavorites`: trust a parsed array of four-key records, or start empty. */
    method LoadFavorites()
      modifies this`favorites
      ensures Valid()
      ensures favorites == LoadedAsWritten(disk)
    {
      match disk {
        case Parsed(j) =>
          if IsValidFavoritesArrayAsWritten(j) {
            favorites := j.items;
          } else {
            favorites := [];
          }
        case _ =>
          favorites := [];
      }
    }

    /** `saveFavorites`: write the list, or fail with Persistence when the write fails. */
    method SaveFavorites(writeFails: bool) returns (r: Result<(), Failure>)
      modifies this`disk
      ensures writeFails ==> r == Err(Persistence) && disk == old(disk)
      ensures !writeFails ==> r == Ok(()) && disk == Stored(favorites)
    {
      if writeFails {
        return Err(Persistence);
      }
      disk := Stored(favorites);
      return Ok(());
    }

    method AddToFavorites(movie: Movie, writeFails: bool) returns (r: Result<Movie, Failure>)
      modifies this
      ensures Valid()
      ensures Step(r, favorites, disk) == AddStep(old(disk), movie, writeFails)
    {
      LoadFavorites();
      var found := FindFolded(favorites, movie.imdbID);
      if found.Err? {
        return Err(found.error);
      }
      if found.value.Some? {
        return Err(Conflict);
      }
      AppendKeepsValid(favorites, movie);
      favorites := favorites + [MovieToJson(movie)];
      var saved := SaveFavorites(writeFails);
      if saved.Err? {
        return Err(saved.error);
      }
      return Ok(movie);
    }

    method RemoveFromFavorites(id: string, writeFails: bool) returns (r: Result<(), Failure>)
      modifies this
      ensures Valid()
      ensures Step(r, favorites, disk) == RemoveStep(old(disk), id, writeFails)
    {
      LoadFavorites();
      var found := FindFolded(favorites, id);
      if found.Err? {
        return Err(found.error);
      }
      if found.value.None? {
        return Err(NotFound);
      }
      var i := found.value.value;
      DeleteKeepsValid(favorites, i);
      favorites := favorites[..i] + favorites[i + 1..];
      var saved := SaveFavorites(writeFails);
      if saved.Err? {
        return Err(saved.error);
      }
      return Ok(());
    }

    method GetFavorites(page: int, pageSize: nat) returns (r: Result<FavoritesPage, Failure>)
      requires pageSize >= 1
      modifies this`favorites
      ensures Valid()
      ensures Step(r, favorites, disk) == ListStep(old(disk), page, pageSize)
    {
      LoadFavorites();
      if page < 1 {
        return Err(Validation);
      }
      var n := |favorites|;
      var startIndex := (page - 1) * pageSize;
      var endIndex := startIndex + pageSize;
      var paginated := favorites[Min(n, startIndex)..Min(n, endIndex)];
      var totalPages := CeilDiv(n, pageSize);
      DecimalRoundTrip(n);
      return Ok(FavoritesPage(paginated, |paginated|, DecimalString(n), page, Max(1, totalPages)));
    }

    /** `getMovieByTitle(title, page)`. The title and page only go into the upstream request,
        which is not modelled; `upstream` is what that request yields. */
    method GetMovieByTitle(title: string, page: int, upstream: Upstream) returns (r: Result<SearchResult, Failure>)
      requires Valid()
      modifies this`favorites
      ensures Valid()
      ensures Step(r, favorites, disk) == SearchStep(old(disk), old(favorites), upstream)
    {
      var fetched := FetchReply(upstream);
      if fetched.Err? {
        return Err(fetched.error);
      }
      var reply := fetched.value;
      if NoResults(reply) {
        return Ok(SearchResult([], 0, "0"));
      }
      LoadFavorites();
      return Ok(Shape(favorites, reply));
    }
  }
}

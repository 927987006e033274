/** MoviesController: the request guards in front of the service. Each route either rejects
    the request with Validation before the service is reached, or names the service call it
    delegates, with its arguments. */
module Controller {
  import opened MovieTypes
  import opened JsText
  import Service
  import FavoritesStore

  /** A query parameter as the framework hands it over: absent, one string, or the list of
      strings a repeated key gives. */
  datatype Param = Absent | Text(s: string) | Many(items: seq<string>)

  /** `String(items)`: the items joined with commas. */
  function JoinComma(items: seq<string>): string {
    if items == [] then "" else if |items| == 1 then items[0] else items[0] + "," + JoinComma(items[1..])
  }

  /** `String(p)` of a present parameter. */
  function ParamString(p: Param): string
    requires !p.Absent?
  {
    match p
    case Text(s) => s
    case Many(items) => JoinComma(items)
  }

  /** `parsePageNumber`: 1 when the parameter is absent; otherwise `parseInt(page, 10)`, which
      must be a number of at least 1. */
  function ParsePageNumber(page: Param): (r: Result<int, Failure>)
    ensures r.Ok? ==> r.value >= 1
    ensures r.Err? ==> r.error == Validation
    ensures page.Absent? ==> r == Ok(1)
    ensures !page.Absent? ==>
      (r.Ok? <==> ParseInt(ParamString(page)).Some? && ParseInt(ParamString(page)).value >= 1)
  {
    if page.Absent? then Ok(1)
    else
      match ParseInt(ParamString(page))
      case None => Err(Validation)
      case Some(n) => if n < 1 then Err(Validation) else Ok(n)
  }

  /** The service call a route delegates to. */
  datatype ServiceCall =
    | SearchByTitle(title: string, page: int)
    | AddFavorite(movie: Movie)
    | RemoveFavorite(imdbID: string)
    | ListFavorites(page: int, pageSize: nat)

  /** GET /movies/search: `q` must be one non-blank string; it is trimmed before delegation. */
  function SearchRoute(q: Param, page: Param): (r: Result<ServiceCall, Failure>)
    ensures r.Err? ==> r.error == Validation
    ensures r.Ok? <==> q.Text? && !AllSpace(q.s) && ParsePageNumber(page).Ok?
    ensures r.Ok? ==> r.value == SearchByTitle(Trim(q.s), ParsePageNumber(page).value) && r.value.page >= 1
  {
    match q
    case Text(s) =>
      BlankIffAllSpace(s);
      if Trim(s) == [] then Err(Validation)
      else (
        match ParsePageNumber(page)
        case Err(e) => Err(e)
        case Ok(n) => Ok(SearchByTitle(Trim(s), n)))
    case _ => Err(Validation)
  }

  /** POST /movies/favorites: the body must be present and is forwarded untouched. */
  function AddRoute(body: Option<Movie>): (r: Result<ServiceCall, Failure>)
    ensures r.Ok? <==> body.Some?
    ensures r.Err? ==> r.error == Validation
    ensures r.Ok? ==> r.value == AddFavorite(body.value)
  {
    match body
    case None => Err(Validation)
    case Some(m) => Ok(AddFavorite(m))
  }

  /** DELETE /movies/favorites/:imdbID: the id must be non-blank; it is trimmed before
      delegation. */
  function RemoveRoute(imdbID: string): (r: Result<ServiceCall, Failure>)
    ensures r.Ok? <==> !AllSpace(imdbID)
    ensures r.Err? ==> r.error == Validation
    ensures r.Ok? ==> r.value == RemoveFavorite(Trim(imdbID)) && Trim(imdbID) != []
  {
    BlankIffAllSpace(imdbID);
    if Trim(imdbID) == [] then Err(Validation) else Ok(RemoveFavorite(Trim(imdbID)))
  }

  /** GET /movies/favorites/list: the parsed page with the default page size. */
  function ListRoute(page: Param): (r: Result<ServiceCall, Failure>)
    ensures r.Ok? <==> ParsePageNumber(page).Ok?
    ensures r.Err? ==> r.error == Validation
    ensures r.Ok? ==> r.value == ListFavorites(ParsePageNumber(page).value, Service.DefaultPageSize)
  {
    match ParsePageNumber(page)
    case Err(e) => Err(e)
    case Ok(n) => Ok(ListFavorites(n, Service.DefaultPageSize))
  }

  /** A page number written in decimal is accepted as itself, whatever non-digit text follows
      ("2" and "2abc" are both page 2). */
  lemma PageNumberOfDecimal(n: nat, rest: string)
    requires n >= 1
    requires rest == [] || !IsDigit(rest[0])
    ensures ParsePageNumber(Text(DecimalString(n) + rest)) == Ok(n)
  {
    ParseIntOfDecimal(n, rest);
  }

  lemma PageZeroRejected()
    ensures ParsePageNumber(Text("0")) == Err(Validation)
  {
    assert DecimalString(0) == "0";
    ParseIntOfDecimal(0, "");
    assert "0" + "" == "0";
  }

  lemma PageWithoutDigitsRejected()
    ensures ParsePageNumber(Text("")) == Err(Validation)
    ensures ParsePageNumber(Text("abc")) == Err(Validation)
  {
    assert !IsSpace('a') && !IsDigit('a');
    assert LeadingSpaces("abc") == 0;
    assert "abc"[0..] == "abc";
  }

  lemma NegativePageRejected()
    ensures ParsePageNumber(Text("-3")) == Err(Validation)
  {
    assert !IsSpace('-');
    assert LeadingSpaces("-3") == 0;
    assert "-3"[0..] == "-3";
    assert "-3"[1..] == "3";
    assert DecimalString(3) == "3";
    ParseIntOfDecimal(3, "");
    assert "3" + "" == "3";
  }

  /** A sign with no digit right after it is NaN, so "-abc", "+" and "- 3" are rejected. */
  lemma {:induction false} SignWithoutDigitsRejected(c: char, rest: string)
    requires c == '+' || c == '-'
    requires rest == [] || !IsDigit(rest[0])
    ensures ParsePageNumber(Text([c] + rest)) == Err(Validation)
  {
    ParseIntAfterSign(c, rest);
  }

  /** Every page written with a minus sign ("-3", "-0", "-07abc") is rejected. */
  lemma {:induction false} MinusPagesRejected(ds: string, rest: string)
    requires |ds| > 0 && AllDigits(ds)
    requires rest == [] || !IsDigit(rest[0])
    ensures ParsePageNumber(Text("-" + (ds + rest))) == Err(Validation)
  {
    ParseIntSigned('-', ds, rest);
  }

  /** Leading whitespace, a plus sign and leading zeros do not change the page: " +07" is 7. */
  lemma {:induction false} PaddedPageAccepted(ws: string, ds: string, rest: string)
    requires AllSpace(ws)
    requires |ds| > 0 && AllDigits(ds) && DigitsValue(ds) >= 1
    requires rest == [] || !IsDigit(rest[0])
    ensures ParsePageNumber(Text(ws + ("+" + (ds + rest)))) == Ok(DigitsValue(ds))
  {
    ParseIntSigned('+', ds, rest);
    ParseIntSkipsSpaces(ws, "+" + (ds + rest));
  }

  lemma PagePrefixAccepted()
    ensures ParsePageNumber(Text("2abc")) == Ok(2)
  {
    assert DecimalString(2) == "2";
    PageNumberOfDecimal(2, "abc");
    assert "2" + "abc" == "2abc";
  }

  /** A missing, repeated or whitespace-only query is rejected before the service is called,
      whatever the page says. */
  lemma BlankQueryRejected(q: string, page: Param, many: seq<string>)
    requires AllSpace(q)
    ensures SearchRoute(Text(q), page) == Err(Validation)
    ensures SearchRoute(Absent, page) == Err(Validation)
    ensures SearchRoute(Many(many), page) == Err(Validation)
  {
  }

  /** A page the controller forwards never reaches the service's `page < 1` rejection. */
  lemma ListRouteNeverHitsPageGuard(page: Param, disk: FavoritesStore.FileRead)
    requires ListRoute(page).Ok?
    ensures ListRoute(page).value.pageSize >= 1
    ensures Service.ListStep(disk, ListRoute(page).value.page, ListRoute(page).value.pageSize).result.Ok?
  {
  }

  /** `?q=batman&page=0` is rejected with Validation. */
  lemma PageZeroSearchRejected()
    ensures SearchRoute(Text("batman"), Text("0")) == Err(Validation)
  {
    PageZeroRejected();
  }
}

# Movie search backend: favorites list and response shaping

This project models the core of a movie-search backend. The service keeps a user's favorite
movies in a JSON file. It reloads that file before adding, removing and listing, and before
shaping a search reply that has a `Search` field, even an empty one. A reload trusts the file only when every record has the
keys `title`, `imdbID`, `year` and `poster`. It adds a movie unless an
entry with the same `imdbID`, compared up to case, already exists. It deletes the first
case-insensitive match. It lists the favorites page by page. It also shapes upstream
movie-database search replies: each hit is flagged as a favorite when its `imdbID` is exactly
in the list. A controller validates the HTTP parameters before it delegates to the service.

Modules, one per concern of `backend/src/movies/`:

- `MovieTypes` (movie_types.dfy): the failure kinds (Validation, Conflict, NotFound,
  UpstreamTimeout, UpstreamFailure, Persistence, Internal), parsed JSON values, the movie
  record and the object `JSON.stringify` writes for it.
- `JsText` (js_text.dfy): the JavaScript string operations the code relies on. These are
  `trim` with ECMAScript's whitespace set, ASCII `toLowerCase`, `parseInt(s, 10)` with its
  prefix semantics, `toString` of a length, and the `/^(\d{4})/` year match.
- `FavoritesStore` (favorites_store.dfy): which file contents a reload trusts, and what a save
  leaves on disk.
- `Service` (movies_service.dfy): one pure `...Step` function per operation. Each one gives the
  result, the list in memory and the file afterwards. The class `MoviesService` holds the
  mutable `favorites` field and a `disk` field standing for the file. Its methods reload,
  append in place, splice in place and save, and each is proved equal to its step function.
  Lemmas state the conflict, not-found, append, delete-first-match, pagination and search
  properties.
- `Controller` (movies_controller.dfy): `parsePageNumber` and the guards on the four routes.
  Each route is a function that either fails with Validation or returns the service call it
  delegates, with its arguments.

The file system is replaced by the `disk` field. It holds what the next read and parse yields:
missing, unreadable, empty, unparseable, or a parsed JSON value. Whether a write fails is an
input (`writeFails`). The upstream search request is replaced by its outcome (`Upstream`): a
reply, a timeout or another failure.

## Model

| member | source | states |
|---|---|---|
| MovieTypes.MovieToJson | backend/src/movies/movies.service.ts:185-186 | the saved record holds exactly the keys `title`, `imdbID`, `year`, and `poster` when the movie has one; each holds the movie's value (strings for title, id and poster, a number for year) |
| JsText.Trim | backend/src/movies/movies.controller.ts:28 | the result is a slice of the input with only whitespace cut from each side, and it neither starts nor ends with whitespace |
| JsText.BlankIffAllSpace | backend/src/movies/movies.controller.ts:22 | `s.trim().length === 0` holds exactly when every character of `s` is whitespace |
| JsText.LowerCase | backend/src/movies/movies.service.ts:178 | the lower-cased id has the same length and contains no ASCII capital; each capital becomes its lower-case letter (code point + 32) and every other character is kept |
| JsText.FoldEq | backend/src/movies/movies.service.ts:209 | ids equal after `toLowerCase` have the same length, and equal ids are equal after folding |
| JsText.FoldEqPointwise | backend/src/movies/movies.service.ts:178 | two ids are equal after `toLowerCase` exactly when they have the same length and agree letter by letter up to ASCII case |
| JsText.FoldEqExample | backend/src/movies/movies.service.ts:178 | "tt001" and "TT001" differ but are equal after folding |
| JsText.ParseInt | backend/src/movies/movies.controller.ts:57 | a blank string, or one starting with a character that is not whitespace, a sign or a digit, is NaN; one starting with a digit is the value of its leading digit run, leading zeros included; after a sign it is NaN exactly when no digit follows the sign |
| JsText.ParseUnsigned | backend/src/movies/movies.controller.ts:57 | the digits after any whitespace and sign: NaN exactly when there are none, otherwise the value of the longest digit prefix |
| JsText.ParseIntSkipsSpaces | backend/src/movies/movies.controller.ts:57 | leading whitespace does not change the result |
| JsText.ParseIntDigits | backend/src/movies/movies.controller.ts:57 | a digit run, leading zeros included, followed by text that does not start with a digit, gives the run's value ("007x" is 7) |
| JsText.ParseIntSigned | backend/src/movies/movies.controller.ts:57 | after a '+' the same digit run gives its value, after a '-' the negated value ("-0" is 0, "+07" is 7) |
| JsText.ParseIntAfterSign | backend/src/movies/movies.controller.ts:57 | a sign followed by any text is NaN when no digit follows it ("-abc", "+", "- 3"), and otherwise the digit run's value, negated after '-' |
| JsText.DecimalString | backend/src/movies/movies.service.ts:258 | `length.toString()` is a non-empty digit string without leading zeros: it starts with '0' exactly when the length is 0, and is then just "0" |
| JsText.DecimalRoundTrip | backend/src/movies/movies.service.ts:258 | the digits `length.toString()` writes denote the length again |
| JsText.ParseIntOfDecimal | backend/src/movies/movies.controller.ts:57 | `parseInt` reads a number back from its decimal digits, whatever non-digit text follows |
| JsText.ParseYear | backend/src/movies/movies.service.ts:168-171 | the year is in 0..9999, and it is non-zero only if the string starts with four digits |
| JsText.ParseYearOfYearDigits | backend/src/movies/movies.service.ts:169-170 | a string starting with the four digits of a year parses to that year, whatever follows |
| JsText.ParseYearExamples | backend/src/movies/movies.service.ts:169-170 | "1999–2001" gives 1999; "N/A" and "199" give 0 |
| FavoritesStore.IsValidMovieAsWritten | backend/src/movies/movies.service.ts:63-72 | a record passes exactly when it is an object whose keys include `title`, `imdbID`, `year` and `poster` |
| FavoritesStore.IsValidFavoritesArrayAsWritten | backend/src/movies/movies.service.ts:74-76 | the content passes exactly when it is an array and every element passes the four-key check |
| FavoritesStore.LoadedAsWritten | backend/src/movies/movies.service.ts:37-76 | a parsed array of four-key records is kept as it is; missing, unreadable, empty, unparseable or failing content gives the empty list; every kept record has the four keys |
| FavoritesStore.Stored | backend/src/movies/movies.service.ts:78-90 | reloading a saved list that passes the check gives back exactly that list |
| FavoritesStore.MovieToJsonIsValid | backend/src/movies/movies.service.ts:185 | a pushed movie always has `title`, `imdbID` and `year`, and passes `isValidMovie` exactly when it has a poster |
| FavoritesStore.UntrustedContentLoadsEmpty | backend/src/movies/movies.service.ts:39-53 | a missing, unreadable, empty, unparseable or non-array file loads as the empty list |
| FavoritesStore.OneBadRecordDiscardsAll | backend/src/movies/movies.service.ts:74-76 | one record lacking any of the four keys makes the whole file load as empty |
| FavoritesStore.SaveAppendedThenLoadAsWritten | backend/src/movies/movies.service.ts:185-186 | after pushing a movie onto a trusted list and saving, the next reload gives the grown list when the movie has a poster and the empty list when it has none |
| FavoritesStore.DeleteKeepsValid | backend/src/movies/movies.service.ts:218 | splicing one record out of a trusted list leaves a trusted list |
| FavoritesStore.PosterlessFavoriteWipesList | backend/src/movies/movies.service.ts:63-72 | saving a list that ends with a poster-less movie makes the next reload empty, whatever the list held before |
| FavoritesStore.IsValidMovie | backend/src/movies/movies.service.ts:63-69 | the corrected check: a record passes exactly when it is an object whose keys include `title`, `imdbID` and `year` |
| FavoritesStore.Loaded | backend/src/movies/movies.service.ts:44-55 | the corrected reload: a parsed array of three-key records is kept as it is; anything else gives the empty list |
| FavoritesStore.SaveAppendedThenLoad | backend/src/movies/movies.service.ts:185-186 | under the corrected check, a list with a newly pushed movie survives the save and the next reload intact, poster or not |
| FavoritesStore.LoadersAgreeWithPosters | backend/src/movies/movies.service.ts:63-72 | on arrays whose records all carry a poster, the check as written and the corrected one load the same list |
| Service.FindFolded | backend/src/movies/movies.service.ts:209 | the first index whose id equals the given one up to case, with no such id before it; none when every id differs; Internal when a non-string id is reached first |
| Service.IsFavorite | backend/src/movies/movies.service.ts:140 | true exactly when some favorite's `imdbID` is exactly the hit's id |
| Service.FetchReply | backend/src/movies/movies.service.ts:92-119 | a reply is always a success and a timeout or other transport failure never is; a reply without "False" and without an error passes unchanged; a "False" or error reply becomes one with no `Search` field, no error and total "0"; a timeout is UpstreamTimeout, any other failure UpstreamFailure |
| Service.NoResults | backend/src/movies/movies.service.ts:126 | a reply fails the empty-result test exactly when it has a `Search` field, does not say "False" and carries no truthy error |
| Service.ToSearchMovie | backend/src/movies/movies.service.ts:139-148 | the hit keeps its title and id, its year is the parsed year (at most 9999), an empty poster becomes absent and any other poster is kept as it is, and the favorite flag is exact id membership |
| Service.Shape | backend/src/movies/movies.service.ts:139-155 | `count` is the number of hits; each movie is its hit mapped as ToSearchMovie states, a non-empty poster kept as it is; `totalResults` is the reply's when truthy and "0" otherwise |
| Service.SearchStep | backend/src/movies/movies.service.ts:121-166 | the file is never written; the result is an error exactly when there is no reply, and then UpstreamTimeout or UpstreamFailure; the list is either untouched or the reloaded file, and the reloaded file whenever some hit is returned |
| Service.NoResultsGiveEmptyResult | backend/src/movies/movies.service.ts:126-134 | a "False" reply, an error reply or a reply with no `Search` field gives no movies, count 0 and total "0", and the list is not reloaded |
| Service.UpstreamFailuresPassThrough | backend/src/movies/movies.service.ts:104-116 | upstream timeouts and failures surface as UpstreamTimeout and UpstreamFailure and change nothing |
| Service.SearchShapesHits | backend/src/movies/movies.service.ts:136-156 | a reply that has a `Search` field, even an empty one, reloads the list and the result is the reply shaped against the reloaded list; count equals the number of hits; each year is the hit's parsed year, at most 9999; each flag is exact membership in the reloaded list |
| Service.EmptySearchStillReloads | backend/src/movies/movies.service.ts:126-156 | a reply with an empty `Search` gets past the no-results test, so the list is reloaded and the result has no movies, count 0 and the reply's own total |
| Service.CeilDiv | backend/src/movies/movies.service.ts:252 | the smallest number of pages of the given size that holds n entries |
| Service.TotalPages | backend/src/movies/movies.service.ts:252-260 | `Math.max(1, Math.ceil(n / pageSize))`: at least 1, the pages hold all n entries, and when there is more than one page the last one is not empty |
| Service.PageSlice | backend/src/movies/movies.service.ts:249-251 | the page holds at most pageSize entries; entry k is favorite (page-1)*pageSize+k; its length is what is left of the list from that offset, capped at pageSize |
| Service.Paginate | backend/src/movies/movies.service.ts:242-261 | Validation exactly when page < 1; otherwise the favorites are the page's window of the list, count is their number and at most pageSize, currentPage is the page, totalPages is TotalPages of the length, and totalResults is the length's decimal string |
| Service.ListStep | backend/src/movies/movies.service.ts:237-272 | listing never writes the file, leaves the reloaded file in memory, fails exactly when page < 1, and returns the page of the reloaded list |
| Service.PagesUpToIsPrefix | backend/src/movies/movies.service.ts:249-251 | pages 1..k together are the first k*pageSize favorites |
| Service.PagesCoverFavorites | backend/src/movies/movies.service.ts:249-252 | pages 1..totalPages together are exactly the whole list |
| Service.PageBeyondLastIsEmpty | backend/src/movies/movies.service.ts:249-251 | a page past the last one succeeds with count 0 |
| Service.FavoriteOnItsPage | backend/src/movies/movies.service.ts:249-252 | favorite i is entry i mod pageSize of page i div pageSize + 1, and that page is within totalPages |
| Service.EmptyListHasOnePage | backend/src/movies/movies.service.ts:252-260 | with no favorites every valid page is empty, with count 0, total "0" and totalPages 1 |
| Service.AddStep | backend/src/movies/movies.service.ts:173-203 | success returns the movie and writes the grown list; failures are Conflict, Internal or Persistence and leave the file alone; Conflict and Internal leave the reloaded list, Persistence the grown one; Persistence only when the write fails, Internal only when some reloaded id is not a string; on any file, Internal exactly when the scan reaches a non-string id before a match, Conflict exactly when it finds a case-equal id first, and success exactly when it finds none and the write works |
| Service.RemoveStep | backend/src/movies/movies.service.ts:205-235 | success writes the list one shorter; failures are NotFound, Internal or Persistence and leave the file alone; NotFound and Internal leave the reloaded list; Persistence only when the write fails, Internal only when some reloaded id is not a string; on any file, Internal exactly when the scan reaches a non-string id before a match, NotFound exactly when it finds no match, success exactly when it finds one and the write works; on success and on Persistence the list in memory is the reloaded list with that first match spliced out |
| Service.AddConflictIff | backend/src/movies/movies.service.ts:175-203 | over string ids, add fails with Conflict exactly when some favorite has the same id up to case, and then the list and the file are unchanged; with no such favorite it returns the movie, or Persistence when the write fails |
| Service.AddAppends | backend/src/movies/movies.service.ts:185-193 | a successful add returns the movie, keeps every earlier entry in place, grows the list by one and saves it; the next reload gives that list when the movie has a poster and the empty list when it has none |
| Service.AddThenListHasExactlyOne | backend/src/movies/movies.service.ts:175-193 | after a successful add of a movie with a poster, the reloaded list holds exactly one entry equal to the id up to case: the last one |
| Service.AddThenAddFoldedIsConflict | backend/src/movies/movies.service.ts:178-183 | after adding a movie with a poster, adding any id equal to it up to case ("tt001" then "TT001") fails with Conflict |
| Service.PosterlessAddForgetsList | backend/src/movies/movies.service.ts:175-186 | after adding a movie without a poster, the next add reloads an empty list, so any id, even a case variant of that movie's id, is accepted, and the list then holds only the new movie |
| Service.RemoveNotFoundIff | backend/src/movies/movies.service.ts:207-235 | over string ids, remove fails with NotFound exactly when no favorite has the id up to case, and then nothing changes; when one has it, remove succeeds, or gives Persistence when the write fails |
| Service.RemoveDeletesFirstMatch | backend/src/movies/movies.service.ts:209-219 | a successful remove deletes exactly the first match: the list becomes old[..i] + old[i+1..], one shorter, and is saved and reloaded intact |
| Service.NonStringIdIsInternal | backend/src/movies/movies.service.ts:194-201 | a trusted four-key record whose id is not a string makes add fail with Internal, with nothing changed |
| Service.CaseScenario | backend/src/movies/movies.service.ts:139-218 | with "tt001" on file, adding "TT001" conflicts and deleting "tt001" leaves an empty file, yet a search hit "TT001" is not flagged as a favorite |
| Service.MoviesService.constructor | backend/src/movies/movies.service.ts:33-35 | the service starts with the list loaded from the file |
| Service.MoviesService.LoadFavorites | backend/src/movies/movies.service.ts:37-61 | the field becomes the current file's list as the four-key check loads it |
| Service.MoviesService.SaveFavorites | backend/src/movies/movies.service.ts:78-90 | the file holds the list, or Persistence is returned and the file is unchanged |
| Service.MoviesService.AddToFavorites | backend/src/movies/movies.service.ts:173-203 | result, list and file are those of AddStep on the file before the call |
| Service.MoviesService.RemoveFromFavorites | backend/src/movies/movies.service.ts:205-235 | result, list and file are those of RemoveStep on the file before the call |
| Service.MoviesService.GetFavorites | backend/src/movies/movies.service.ts:237-272 | result and list are those of ListStep; the file is untouched |
| Service.MoviesService.GetMovieByTitle | backend/src/movies/movies.service.ts:121-166 | result and list are those of SearchStep on the file and the list before the call |
| Controller.ParsePageNumber | backend/src/movies/movies.controller.ts:54-63 | an absent page is 1; a present one is accepted exactly when `parseInt` gives a number of at least 1; every accepted page is at least 1; failures are Validation |
| Controller.SearchRoute | backend/src/movies/movies.controller.ts:20-29 | succeeds exactly when `q` is one non-blank string and the page parses; it then delegates the trimmed query and the parsed page |
| Controller.AddRoute | backend/src/movies/movies.controller.ts:31-37 | an absent body is Validation; otherwise the body is forwarded untouched |
| Controller.RemoveRoute | backend/src/movies/movies.controller.ts:39-45 | a blank id is Validation; otherwise the trimmed, non-empty id is forwarded |
| Controller.ListRoute | backend/src/movies/movies.controller.ts:47-52 | succeeds exactly when the page parses, and delegates it with page size 10 |
| Controller.PageNumberOfDecimal | backend/src/movies/movies.controller.ts:57 | a decimal page number, followed by any non-digit text, is accepted as itself |
| Controller.PageZeroRejected | backend/src/movies/movies.controller.ts:58-59 | page "0" is Validation |
| Controller.PageWithoutDigitsRejected | backend/src/movies/movies.controller.ts:58-59 | pages "" and "abc" (NaN) are Validation |
| Controller.NegativePageRejected | backend/src/movies/movies.controller.ts:58-59 | page "-3" is Validation |
| Controller.PagePrefixAccepted | backend/src/movies/movies.controller.ts:57 | page "2abc" is page 2 |
| Controller.SignWithoutDigitsRejected | backend/src/movies/movies.controller.ts:57-59 | a sign not followed by a digit ("-abc", "+", "- 3") is NaN, so the page is Validation |
| Controller.MinusPagesRejected | backend/src/movies/movies.controller.ts:57-59 | every page written as '-' then digits ("-3", "-0", "-07abc") is Validation |
| Controller.PaddedPageAccepted | backend/src/movies/movies.controller.ts:57-59 | leading whitespace, a '+' and leading zeros are accepted: " +07" is page 7 |
| Controller.BlankQueryRejected | backend/src/movies/movies.controller.ts:22-24 | a missing, repeated or whitespace-only query is Validation, whatever the page |
| Controller.ListRouteNeverHitsPageGuard | backend/src/movies/movies.controller.ts:49-51 | a page the list route forwards never meets the service's `page < 1` rejection |
| Controller.PageZeroSearchRejected | backend/src/movies/movies.controller.ts:26 | `?q=batman&page=0` is Validation |

## Left out

- File system access (`readFile`, `mkdir`, `writeFile`) and the JSON text format. A read is given by its outcome (`FileRead`). A save writes the list as a parsed value, because `JSON.parse(JSON.stringify(x))` gives back `x` for these values. A write fails or succeeds as a whole; partial writes are not modelled.
- The upstream HTTP request: building the URL with the API key and `encodeURIComponent`, the 5-second timeout, and telling a timeout apart from other errors. The outcome is an input. The title and page of `GetMovieByTitle` only feed that request, so the model does not use them.
- Non-axios exceptions in `searchMovies`, and upstream fields that are not strings (for example a missing `Year`, on which `match` would throw).
- Concurrency: interleaved requests and the unguarded read-modify-write on the file ("last write wins"). The model has one sequential caller.
- The constructor's check for the API key environment variable, and CORS and port configuration. These are process configuration.
- Framework validation: the global `ValidationPipe` and the DTO's class-validator decorators. The controller's own guards are modelled.
- Query parameters that the query-string parser turns into objects (`page[a]=1`). Absent, single and repeated parameters are modelled.
- Unicode case folding: `toLowerCase` is modelled on ASCII letters only.
- JavaScript number precision: page numbers and JSON numbers are exact integers. Non-integer numbers in the file are not modelled.
- JsText.ParseInt: values above 2^53, which JavaScript rounds, are exact here.
- A `poster: null` in a request body. The DTO's `@IsOptional()` lets it through and `JSON.stringify` keeps the key, so such a favorite passes the four-key check on reload. `Movie.poster` is an `Option<string>`, which has no way to say null, so the model has only a present or an absent poster.
- Service.Paginate: requires a page size of at least 1. The only caller uses 10. With a size of 0 the source divides by zero: `totalPages` is `NaN` for an empty list and `Infinity` otherwise.
- Service.AddThenListHasExactlyOne: stated for a movie with a poster. Without one, the file is not trusted on the next reload. Service.AddAppends and Service.PosterlessAddForgetsList state that case.
- Service.AddThenAddFoldedIsConflict: stated for a first movie with a poster. Without one, the second add succeeds instead, as Service.PosterlessAddForgetsList states.
- Console logging.
- The whole frontend: React pages, the query cache and the fetch wrapper.

## Findings

| source | as written | input that shows it | evidently intended | confidence | as-written member | corrected member |
|---|---|---|---|---|---|---|
| backend/src/movies/movies.service.ts:63-72 | `isValidMovie` requires a `poster` key. The movie DTO makes `poster` optional, and `JSON.stringify` drops an undefined poster, so such a favorite is saved without the key. | POST a favorite `{title: "A", imdbID: "tt1", year: 2000}` with no poster; the next request reloads the file | a saved favorite without a poster is still trusted on reload, so no favorite is lost | high, not executed | FavoritesStore.PosterlessFavoriteWipesList | FavoritesStore.SaveAppendedThenLoad |

The service model follows the code as written: every reload uses the four-key check
(`FavoritesStore.LoadedAsWritten`), and `Service.AddAppends` and
`Service.PosterlessAddForgetsList` show what a poster-less favorite does to the next request.
The corrected check is `FavoritesStore.IsValidMovie` with `FavoritesStore.Loaded`, which
requires only `title`, `imdbID` and `year`. `FavoritesStore.LoadersAgreeWithPosters` shows the
two checks load the same list from an array whose every record carries a poster.

# Page walker of yt-playlist-archiver

This project models the part of `main.py` that decides which pages of a
YouTube playlist are requested: the guarded single-page fetch
(`get_playlist_page`), the walk to the end of a playlist
(`get_entire_playlist`), the walk bounded by an item budget
(`get_n_playlist_items`) and the loop over several playlists
(`retrieve_items_from_playlists`).

The YouTube Data API is an abstract service (`PlaylistSource.Source`): a total
function from a request (playlist, page size, optional `pageToken`) to an
optional page (its items and an optional `nextPageToken`). `None` stands for a
missing response. Printing is replaced by results: each walker returns the
trace of the exchanges it had with the service (request and response), the
items `print_playlist_response` would have printed, and how it ended
(`Completed`, `NoResponse` after "No response received...", or `Crashed` when
`print_playlist_response(None)` raises a `TypeError`).

Files:

- `source.dfy` (module `PlaylistSource`): requests, pages, the service, Python
  truthiness of a token, and two properties a source may have: `Ranked` (a
  ranking of playlist positions that every continuation handed out for a
  full-page request lowers, which makes every walk to the end finite) and
  `Bounded` (no page holds more items than `maxResults`).
- `budget.dfy` (module `Budget`): `Chunks(n)`, the page sizes a budget of `n`
  items is requested in (50, ..., 50, then the rest), and its properties.
- `walker.dfy` (module `Walker`): the request builder, the walkers as methods
  with loop invariants over the trace and the remaining budget, the predicates
  `EntireWalk` and `BudgetWalk` that describe a whole walk, and lemmas about
  them.

Where a reader might expect otherwise, the model follows the code:

- A budget of `0` does not give an empty walk. The size check in
  `get_playlist_page` refuses it, so no request is sent, but `None` then
  reaches `print_playlist_response`, which raises (outcome `Crashed`).
- A final page is not truncated to the remaining budget. The last request asks
  for the remaining budget, and the walker prints whatever that page holds.
- The first request of a budget above 50 is always a full page of 50.
- A `nextPageToken` of `""` is falsy in Python. The next request then carries
  no `pageToken` and asks for the first page again (`Carried`). On a source
  that does this forever the walk to the end never stops.

## Model

| member | source | states |
|---|---|---|
| `Walker.PageRequest` | main.py:46-63 | no request for a size outside 1..50; otherwise one request for exactly that size and playlist, carrying a `pageToken` if and only if `next_page` is truthy, and then that very token |
| `Walker.GetPlaylistPage` | main.py:46-67 | sends exactly the request `PageRequest` builds and returns the source's answer to it; for a refused size it sends nothing and returns `None` |
| `Walker.GetEntirePlaylist` | main.py:77-100 | the trace is an `EntireWalk`: a first full page with no token, then one full-page request per `nextPageToken` carrying that token, ending at a missing response (`NoResponse`) or a page without a token (`Completed`); the printed items are those of every page received |
| `Walker.GetNPlaylistItems` | main.py:103-142 | `n < 0`: no request; `n = 0`: no request and a crash; `1 <= n <= 50`: exactly one request of size `n` without a token, a crash if its response is missing; `n > 50`: a `BudgetWalk`; in every case each page size is in 1..50, the sizes sum to at most `n`, and against a source that honours `maxResults` at most `n` items are printed |
| `Walker.GetPagesBeyondOne` | main.py:111-142 | the loop for `n > 50` yields a `BudgetWalk`: sizes are a prefix of `Chunks(n)` (50, ..., 50, then the rest, a last 50 when 50 divides `n`), every token is followed, and the walk stops at a missing response, a page without a token, or a spent budget; it terminates because each round lowers the budget or ends the loop |
| `Walker.RetrieveItemsFromPlaylists` | main.py:159-168 | one walk per playlist id, in order, each an `EntireWalk` of that playlist |
| `Budget.ChunksInRange` | main.py:126-131 | every page size of the budget split lies in 1..50 |
| `Budget.ChunksSum` | main.py:114-136 | the page sizes of the split add up to the budget exactly |
| `Budget.ChunksCount` | main.py:114-136 | a budget of `n` is split into ceil(n / 50) requests |
| `Budget.ChunksShape` | main.py:126-136 | the split is 50, ..., 50 followed by `n mod 50` when that is not zero (else a last 50) |
| `Budget.SplitSoFar` | main.py:115-136 | while sizes issued plus the split of the remaining budget make up the split of `n`, the issued sizes are a prefix of it, they sum to `n` minus the remaining budget, and each is in 1..50 |
| `Walker.BudgetWalkWithinBudget` | main.py:114-136 | a budgeted walk keeps each size in 1..50, asks for at most `n` items in all, and issues at most ceil(n / 50) requests |
| `Walker.BudgetWalkExhaustsBudget` | main.py:124-136 | when every response carries a `nextPageToken`, the walk completes with sizes exactly 50, ..., 50 and the rest, summing to `n`, in ceil(n / 50) requests |
| `Walker.PrintedAtMostRequested` | main.py:55-74 | against a source that honours `maxResults`, the items printed number at most the sizes requested |
| `Walker.LinkedTracesAgree` | main.py:89-95 | two token-following traces with the same first request and the same page sizes agree exchange by exchange |
| `Walker.EntireWalkStops` | main.py:89-98 | `get_entire_playlist` asks for another page after an exchange exactly when that exchange's response is present and carries a `nextPageToken` |
| `Walker.BudgetWalkStops` | main.py:116-140 | the budgeted loop goes on after an exchange exactly when its response is present, carries a `nextPageToken`, and budget remains |
| `Walker.EntireWalkUnique` | main.py:80-98 | the behaviour of `get_entire_playlist` is determined by the source and the playlist: two walks meeting `EntireWalk` are equal, outcome included |
| `Walker.BudgetWalkUnique` | main.py:114-140 | the behaviour of `get_n_playlist_items` for `n > 50` is determined by the source, the playlist and `n` |
| `Walker.RankFalls` | main.py:89-95 | along a token-following trace each request asks for a page of strictly lower rank, in the same playlist |
| `Walker.EntireWalkLength` | main.py:81-98 | on a ranked source a walk to the end issues at most one request more than the rank of the first page |
| `Walker.WalkFromFollowsTokens` | main.py:80-98 | on a ranked source, the walk built from a full-page request follows every token with a full page carrying it, and stops at the first missing response or token-less page |
| `Walker.RankedWalkEnds` | main.py:81-98 | on a ranked source the walk to the end of every playlist reaches a last page, so `get_entire_playlist` terminates |

## Left out

- OAuth flow and service construction (`get_authenticated_service`, `build`): foreign library calls.
- `get_api_key` and `get_playlist_ids`: file reading with swallowed exceptions; the playlist ids are a parameter of `RetrieveItemsFromPlaylists`.
- `request.execute()` and the Google response format beyond "items and an optional `nextPageToken`": the service is the abstract `Source`; an HTTP error (which the program lets escape to its command line) is not modelled, a missing or empty response is `None`.
- `print_playlist_response` and every `print`: replaced by the returned items and outcome; the text of the messages is not modelled.
- Command-line parsing, the `__main__` dispatch and its `HttpError` handler: program plumbing.
- `Walker.GetEntirePlaylist`: requires `WalkEnds(src, pid)`, that the walk to the end of that playlist reaches a missing response or a page without a token; this excludes exactly the services on which the original loop runs forever, and `RankedWalkEnds` gives a sufficient condition.
- `Walker.RetrieveItemsFromPlaylists`: requires `WalkEnds` for every playlist id, for the same reason.
- The service is a function, so the same request always gets the same answer: the playlist does not change during a walk or between walks. `EntireWalkUnique` and `BudgetWalkUnique` rest on this.

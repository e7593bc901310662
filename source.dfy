/** The YouTube Data API as the page walker sees it: a `playlistItems().list`
    request names a playlist, a page size (`maxResults`) and optionally a
    continuation token (`pageToken`); the answer is a page of items and, when
    more items follow, a `nextPageToken`. The service itself is abstract: a
    total function from requests to optional pages, where `None` stands for a
    missing or empty response. */
module PlaylistSource {

  datatype Option<+T> = None | Some(value: T)

  type Token = string
  type PlaylistId = string

  /** The largest page the API hands out, and the bound `get_playlist_page` checks. */
  const MaxPageSize: nat := 50

  /** What `print_playlist_response` shows of an item: its title and video id. */
  datatype Item = Item(title: string, videoId: string)

  datatype Request = Request(playlist: PlaylistId, size: nat, token: Option<Token>)

  /** A response: its `items` and its `nextPageToken` key, if present. */
  datatype Page = Page(items: seq<Item>, next: Option<Token>)

  datatype Source = Source(respond: Request -> Option<Page>)

  /** Python truthiness of the `next_page` argument: `None` and `""` are false. */
  predicate Truthy(t: Option<Token>)
  {
    t.Some? && t.value != ""
  }

  /** The token a request built from `next_page` actually carries. */
  function Carried(t: Option<Token>): Option<Token>
  {
    if Truthy(t) then t else None
  }

  /** `depth` ranks the positions a walk to the end can reach in a playlist:
      every continuation the source hands out in answer to a full-page
      request leads to a strictly lower rank. A source with such a ranking
      brings every walk to the end of a playlist to a last page. */
  ghost predicate Ranked(src: Source, depth: (PlaylistId, Option<Token>) -> nat)
  {
    forall q: Request ::
      q.size == MaxPageSize && src.respond(q).Some? && src.respond(q).value.next.Some? ==>
        depth(q.playlist, Carried(src.respond(q).value.next)) < depth(q.playlist, q.token)
  }

  /** The source honours `maxResults`: no page holds more items than asked for. */
  ghost predicate Bounded(src: Source)
  {
    forall q: Request :: src.respond(q).Some? ==> |src.respond(q).value.items| <= q.size
  }
}

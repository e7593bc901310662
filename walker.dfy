/** The page walkers of main.py: one guarded page fetch, a walk to the end
    of a playlist, a walk bounded by an item budget, and a walk over several
    playlists. Printing is replaced by what was printed (`printed`), and the
    calls made to the service are recorded in a trace of exchanges. */
module Walker {
  import opened PlaylistSource
  import opened Budget

  /** One call to the service: the request sent and what came back. */
  datatype Exchange = Exchange(request: Request, response: Option<Page>)

  /** How a walker ended: normally; after printing "No response received...";
      or with the TypeError that `print_playlist_response(None)` raises. */
  datatype Outcome = Completed | NoResponse | Crashed

  /** The result of walking one playlist. */
  datatype Walk = Walk(trace: seq<Exchange>, printed: seq<Item>, outcome: Outcome)

  function Last(t: seq<Exchange>): Exchange
    requires t != []
  {
    t[|t| - 1]
  }

  function Sizes(t: seq<Exchange>): seq<nat>
  {
    seq(|t|, i requires 0 <= i < |t| => t[i].request.size)
  }

  function Received(r: Option<Page>): seq<Item>
  {
    if r.Some? then r.value.items else []
  }

  /** Everything `print_playlist_response` printed for the responses of `t`. */
  function Printed(t: seq<Exchange>): seq<Item>
  {
    if t == [] then [] else Printed(t[..|t| - 1]) + Received(Last(t).response)
  }

  /** Every response in the trace is what the source answers to its request. */
  predicate Executed(src: Source, t: seq<Exchange>)
  {
    forall i :: 0 <= i < |t| ==> t[i].response == src.respond(t[i].request)
  }

  /** `next` was sent because `prev` came back with a `nextPageToken`, and it
      asks the same playlist for the page that token names. */
  predicate Follows(prev: Exchange, next: Exchange)
  {
    && prev.response.Some?
    && prev.response.value.next.Some?
    && next.request.playlist == prev.request.playlist
    && next.request.token == Carried(prev.response.value.next)
  }

  predicate Linked(t: seq<Exchange>)
  {
    forall i :: 0 <= i < |t| - 1 ==> Follows(t[i], t[i + 1])
  }

  /** Appending an exchange that follows the last one keeps the trace linked
      and executed, and extends its sizes by the new request's size. */
  lemma Extend(src: Source, t: seq<Exchange>, e: Exchange)
    requires t != [] && Executed(src, t) && Linked(t)
    requires Follows(Last(t), e) && e.response == src.respond(e.request)
    ensures Executed(src, t + [e]) && Linked(t + [e])
    ensures (t + [e])[0] == t[0] && Last(t + [e]) == e && (t + [e])[..|t|] == t
    ensures Sizes(t + [e]) == Sizes(t) + [e.request.size]
  {
  }

  /** The behaviour of `get_entire_playlist`: full pages from the start of the
      playlist, following every `nextPageToken`, until a response is missing
      or has no token. */
  predicate EntireWalk(src: Source, pid: PlaylistId, t: seq<Exchange>, outcome: Outcome)
  {
    && |t| >= 1
    && Executed(src, t)
    && Linked(t)
    && t[0].request == Request(pid, MaxPageSize, None)
    && (forall i :: 0 <= i < |t| ==> t[i].request.size == MaxPageSize)
    && match Last(t).response
       case None => outcome == NoResponse
       case Some(p) => p.next.None? && outcome == Completed
  }

  /** The behaviour of `get_n_playlist_items` for a budget `n` above one page:
      the page sizes are a prefix of `Chunks(n)`, every token is followed, and
      the walk stops at a missing response, a page without a token, or when
      the budget is spent. */
  predicate BudgetWalk(src: Source, pid: PlaylistId, n: nat, t: seq<Exchange>, outcome: Outcome)
  {
    && 1 <= |t| <= |Chunks(n)|
    && Executed(src, t)
    && Linked(t)
    && t[0].request.playlist == pid
    && t[0].request.token == None
    && Sizes(t) == Chunks(n)[..|t|]
    && match Last(t).response
       case None => outcome == NoResponse
       case Some(p) => outcome == Completed && (p.next.None? || |t| == |Chunks(n)|)
  }

  /** A budgeted walk keeps every page size in 1..50, never asks for more
      than the budget, and takes at most ceil(n / 50) requests. */
  lemma BudgetWalkWithinBudget(src: Source, pid: PlaylistId, n: nat, t: seq<Exchange>, outcome: Outcome)
    requires BudgetWalk(src, pid, n, t, outcome)
    ensures forall i :: 0 <= i < |t| ==> 1 <= t[i].request.size <= MaxPageSize
    ensures Sum(Sizes(t)) <= n
    ensures |t| <= (n + MaxPageSize - 1) / MaxPageSize
  {
    ChunksInRange(n);
    ChunksCount(n);
    ChunksSum(n);
    assert Chunks(n) == Chunks(n)[..|t|] + Chunks(n)[|t|..];
    SumConcat(Chunks(n)[..|t|], Chunks(n)[|t|..]);
    forall i | 0 <= i < |t| ensures 1 <= t[i].request.size <= MaxPageSize {
      assert Sizes(t)[i] == Chunks(n)[i];
    }
  }

  /** The request `get_playlist_page` builds: none for a page size outside
      1..50, and a `pageToken` exactly when `next_page` is truthy. */
  function PageRequest(pid: PlaylistId, n: int, nextPage: Option<Token>): (r: Option<Request>)
    ensures r.None? <==> n < 1 || n > MaxPageSize
    ensures r.Some? ==> r.value.playlist == pid && r.value.size == n
    ensures r.Some? ==> (r.value.token.Some? <==> Truthy(nextPage))
    ensures r.Some? && r.value.token.Some? ==> r.value.token == nextPage
  {
    if n < 1 || n > MaxPageSize then None
    else if !Truthy(nextPage) then Some(Request(pid, n, None))
    else Some(Request(pid, n, nextPage))
  }

  /** `get_playlist_page`: sends the request `PageRequest` builds, if any. */
  method GetPlaylistPage(src: Source, pid: PlaylistId, n: int, nextPage: Option<Token>)
    returns (issued: seq<Exchange>, response: Option<Page>)
    ensures PageRequest(pid, n, nextPage).None? ==> issued == [] && response == None
    ensures PageRequest(pid, n, nextPage).Some? ==>
      var q := PageRequest(pid, n, nextPage).value;
      issued == [Exchange(q, src.respond(q))] && response == src.respond(q)
  {
    var q := PageRequest(pid, n, nextPage);
    if q.None? {
      return [], None;
    }
    response := src.respond(q.value);
    issued := [Exchange(q.value, response)];
  }

  /** The walk to the end of playlist `pid` reaches a last page. */
  ghost predicate WalkEnds(src: Source, pid: PlaylistId)
  {
    exists t, outcome :: EntireWalk(src, pid, t, outcome)
  }

  /** `get_entire_playlist`. */
  method GetEntirePlaylist(src: Source, pid: PlaylistId)
    returns (trace: seq<Exchange>, printed: seq<Item>, outcome: Outcome)
    requires WalkEnds(src, pid)
    ensures EntireWalk(src, pid, trace, outcome)
    ensures printed == Printed(trace)
  {
    ghost var w: seq<Exchange>, wo: Outcome :| EntireWalk(src, pid, w, wo);
    EntireWalkStops(src, pid, w, wo);
    var response;
    trace, response := GetPlaylistPage(src, pid, MaxPageSize, None);
    printed := [];
    var endReached := false;
    while !endReached
      invariant 1 <= |trace| <= |w| && trace == w[..|trace|]
      invariant Executed(src, trace) && Linked(trace)
      invariant trace[0].request == Request(pid, MaxPageSize, None)
      invariant forall i :: 0 <= i < |trace| ==> trace[i].request.size == MaxPageSize
      invariant Last(trace).request.playlist == pid
      invariant response == Last(trace).response
      invariant printed == if endReached then Printed(trace) else Printed(trace[..|trace| - 1])
      invariant endReached ==> response.Some? && response.value.next.None?
      decreases |w| - |trace|, !endReached
    {
      if response.None? {
        outcome := NoResponse;
        assert trace[..|trace| - 1] + [Last(trace)] == trace;
        return;
      }
      printed := printed + response.value.items;
      assert trace[..|trace| - 1] + [Last(trace)] == trace;
      if response.value.next.Some? {
        ghost var k := |trace|;
        assert Last(trace) == w[k - 1] && !Ends(w[k - 1]);
        assert Follows(w[k - 1], w[k]);
        var issued: seq<Exchange>;
        issued, response := GetPlaylistPage(src, pid, MaxPageSize, response.value.next);
        assert issued[0].request == w[k].request;
        Extend(src, trace, issued[0]);
        assert w[..k + 1] == w[..k] + [w[k]];
        trace := trace + issued;
      } else {
        endReached := true;
      }
    }
    outcome := Completed;
  }

  /** `get_n_playlist_items`. */
  method GetNPlaylistItems(src: Source, pid: PlaylistId, n: int)
    returns (trace: seq<Exchange>, printed: seq<Item>, outcome: Outcome)
    ensures n < 0 ==> trace == [] && outcome == Completed
    ensures n == 0 ==> trace == [] && outcome == Crashed
    ensures 1 <= n <= MaxPageSize ==>
      && trace == [Exchange(Request(pid, n, None), src.respond(Request(pid, n, None)))]
      && outcome == (if trace[0].response.None? then Crashed else Completed)
    ensures n > MaxPageSize ==> BudgetWalk(src, pid, n, trace, outcome)
    ensures printed == Printed(trace)
    ensures forall i :: 0 <= i < |trace| ==> 1 <= trace[i].request.size <= MaxPageSize
    ensures n >= 0 ==> Sum(Sizes(trace)) <= n
    ensures Bounded(src) && n >= 0 ==> |printed| <= n
  {
    if n < 0 {
      return [], [], Completed;
    } else if n <= MaxPageSize {
      var response;
      trace, response := GetPlaylistPage(src, pid, n, None);
      if response.None? {
        // print_playlist_response(None) raises a TypeError
        printed, outcome := [], Crashed;
      } else {
        printed, outcome := response.value.items, Completed;
      }
      assert Sizes(trace) + Chunks(0) == Chunks(n);
      SplitSoFar(n, Sizes(trace), 0);
    } else {
      trace, printed, outcome := GetPagesBeyondOne(src, pid, n);
      BudgetWalkWithinBudget(src, pid, n, trace, outcome);
    }
    if Bounded(src) && n >= 0 {
      PrintedAtMostRequested(src, trace);
    }
  }

  /** The part of `get_n_playlist_items` that fetches more than 50 items:
      a full first page, then pages of 50 and a last page of the rest while
      the budget lasts and responses carry a `nextPageToken`. */
  method GetPagesBeyondOne(src: Source, pid: PlaylistId, n: int)
    returns (trace: seq<Exchange>, printed: seq<Item>, outcome: Outcome)
    requires n > MaxPageSize
    ensures BudgetWalk(src, pid, n, trace, outcome)
    ensures printed == Printed(trace)
  {
    var response;
    trace, response := GetPlaylistPage(src, pid, MaxPageSize, None);
    var remaining := n - MaxPageSize;
    printed := [];
    var endReached := false;
    assert Sizes(trace) == [MaxPageSize];
    while !endReached
      invariant remaining >= 0
      invariant |trace| >= 1 && Executed(src, trace) && Linked(trace)
      invariant trace[0].request.playlist == pid && trace[0].request.token == None
      invariant Last(trace).request.playlist == pid
      invariant Sizes(trace) + Chunks(remaining) == Chunks(n)
      invariant response == Last(trace).response
      invariant printed == if endReached then Printed(trace) else Printed(trace[..|trace| - 1])
      invariant endReached ==> response.Some? && (response.value.next.None? || remaining == 0)
      decreases remaining, !endReached
    {
      if response.None? {
        outcome := NoResponse;
        assert trace[..|trace| - 1] + [Last(trace)] == trace;
        SplitSoFar(n, Sizes(trace), remaining);
        return;
      }
      printed := printed + response.value.items;
      assert trace[..|trace| - 1] + [Last(trace)] == trace;
      if response.value.next.Some? && remaining > 0 {
        var size := if remaining >= MaxPageSize then MaxPageSize else remaining;
        var issued;
        issued, response := GetPlaylistPage(src, pid, size, response.value.next);
        Extend(src, trace, issued[0]);
        trace := trace + issued;
        if remaining >= MaxPageSize {
          remaining := remaining - MaxPageSize;
        } else {
          remaining := 0;
        }
      } else {
        endReached := true;
      }
    }
    outcome := Completed;
    SplitSoFar(n, Sizes(trace), remaining);
  }

  /** `retrieve_items_from_playlists`: the whole of each playlist, in order. */
  method RetrieveItemsFromPlaylists(src: Source, ids: seq<PlaylistId>) returns (walks: seq<Walk>)
    requires forall i :: 0 <= i < |ids| ==> WalkEnds(src, ids[i])
    ensures |walks| == |ids|
    ensures forall i :: 0 <= i < |ids| ==>
      EntireWalk(src, ids[i], walks[i].trace, walks[i].outcome) && walks[i].printed == Printed(walks[i].trace)
  {
    walks := [];
    for k := 0 to |ids|
      invariant |walks| == k
      invariant forall i :: 0 <= i < k ==>
        EntireWalk(src, ids[i], walks[i].trace, walks[i].outcome) && walks[i].printed == Printed(walks[i].trace)
    {
      var trace, printed, outcome := GetEntirePlaylist(src, ids[k]);
      walks := walks + [Walk(trace, printed, outcome)];
    }
  }

  /** When the source honours `maxResults`, no more items are printed than
      the requests of the trace asked for. */
  lemma {:induction false} PrintedAtMostRequested(src: Source, t: seq<Exchange>)
    requires Bounded(src) && Executed(src, t)
    ensures |Printed(t)| <= Sum(Sizes(t))
  {
    if t != [] {
      var front := t[..|t| - 1];
      assert Executed(src, front);
      PrintedAtMostRequested(src, front);
      assert Sizes(t) == Sizes(front) + [Last(t).request.size];
      SumConcat(Sizes(front), [Last(t).request.size]);
      assert Last(t).response == src.respond(Last(t).request);
    }
  }

  /** When every response carries a `nextPageToken`, the budgeted walk spends
      its whole budget: the sizes are exactly 50, ..., 50 and the rest, they
      add up to `n`, and there are ceil(n / 50) of them. */
  lemma BudgetWalkExhaustsBudget(src: Source, pid: PlaylistId, n: nat, t: seq<Exchange>, outcome: Outcome)
    requires BudgetWalk(src, pid, n, t, outcome)
    requires forall i :: 0 <= i < |t| ==> t[i].response.Some? && t[i].response.value.next.Some?
    ensures outcome == Completed
    ensures Sizes(t) == Chunks(n) && Sum(Sizes(t)) == n
    ensures |t| == (n + MaxPageSize - 1) / MaxPageSize
  {
    assert Last(t) == t[|t| - 1];
    ChunksSum(n);
    ChunksCount(n);
  }

  /** Two executed, linked traces that start with the same request and ask
      for the same page sizes are the same trace, as far as both go. */
  lemma {:induction false} LinkedTracesAgree(src: Source, t1: seq<Exchange>, t2: seq<Exchange>, k: nat)
    requires Executed(src, t1) && Linked(t1) && Executed(src, t2) && Linked(t2)
    requires 1 <= k <= |t1| && k <= |t2|
    requires t1[0].request == t2[0].request
    requires forall i :: 0 <= i < k ==> t1[i].request.size == t2[i].request.size
    ensures t1[..k] == t2[..k]
  {
    if k > 1 {
      LinkedTracesAgree(src, t1, t2, k - 1);
      assert t1[k - 2] == t1[..k - 1][k - 2] == t2[..k - 1][k - 2] == t2[k - 2];
      assert Follows(t1[k - 2], t1[k - 1]) && Follows(t2[k - 2], t2[k - 1]);
      assert t1[k - 1].request == t2[k - 1].request;
      assert t1[..k] == t1[..k - 1] + [t1[k - 1]];
      assert t2[..k] == t2[..k - 1] + [t2[k - 1]];
    } else {
      assert t1[..k] == [t1[0]];
      assert t2[..k] == [t2[0]];
    }
  }

  /** An exchange after which no walker asks for more: its response is
      missing or has no `nextPageToken`. */
  predicate Ends(e: Exchange)
  {
    e.response.None? || e.response.value.next.None?
  }

  /** A walk to the end goes on after every exchange but its last. */
  lemma EntireWalkStops(src: Source, pid: PlaylistId, t: seq<Exchange>, outcome: Outcome)
    requires EntireWalk(src, pid, t, outcome)
    ensures forall j :: 0 <= j < |t| ==> (Ends(t[j]) <==> j == |t| - 1)
  {
    forall j | 0 <= j < |t| - 1 ensures !Ends(t[j]) {
      assert Follows(t[j], t[j + 1]);
    }
    assert Last(t) == t[|t| - 1];
  }

  /** `get_entire_playlist` has one behaviour per source and playlist: the
      walk its contract describes is unique. */
  lemma EntireWalkUnique(src: Source, pid: PlaylistId, t1: seq<Exchange>, o1: Outcome, t2: seq<Exchange>, o2: Outcome)
    requires EntireWalk(src, pid, t1, o1) && EntireWalk(src, pid, t2, o2)
    ensures t1 == t2 && o1 == o2
  {
    var k := if |t1| <= |t2| then |t1| else |t2|;
    LinkedTracesAgree(src, t1, t2, k);
    assert t1[k - 1] == t1[..k][k - 1] == t2[..k][k - 1] == t2[k - 1];
    EntireWalkStops(src, pid, t1, o1);
    EntireWalkStops(src, pid, t2, o2);
    assert t1 == t1[..k] && t2 == t2[..k];
  }

  /** Exchange `j` of a budgeted walk is one after which the walk does not go
      on: its response is missing, it has no token, or the split is used up. */
  predicate StopsAfter(n: nat, e: Exchange, j: nat)
  {
    Ends(e) || j + 1 >= |Chunks(n)|
  }

  /** A budgeted walk goes on after every exchange but its last. */
  lemma BudgetWalkStops(src: Source, pid: PlaylistId, n: nat, t: seq<Exchange>, outcome: Outcome)
    requires BudgetWalk(src, pid, n, t, outcome)
    ensures forall j :: 0 <= j < |t| ==> (StopsAfter(n, t[j], j) <==> j == |t| - 1)
  {
    forall j | 0 <= j < |t| - 1 ensures !StopsAfter(n, t[j], j) {
      assert Follows(t[j], t[j + 1]);
    }
    assert Last(t) == t[|t| - 1];
  }

  /** Likewise `get_n_playlist_items` with a budget above one page. */
  lemma BudgetWalkUnique(src: Source, pid: PlaylistId, n: nat, t1: seq<Exchange>, o1: Outcome, t2: seq<Exchange>, o2: Outcome)
    requires BudgetWalk(src, pid, n, t1, o1) && BudgetWalk(src, pid, n, t2, o2)
    ensures t1 == t2 && o1 == o2
  {
    var k := if |t1| <= |t2| then |t1| else |t2|;
    forall i | 0 <= i < k ensures t1[i].request.size == t2[i].request.size {
      assert Sizes(t1)[i] == Chunks(n)[i] == Sizes(t2)[i];
    }
    assert t1[0].request.size == t2[0].request.size;
    LinkedTracesAgree(src, t1, t2, k);
    assert t1[k - 1] == t1[..k][k - 1] == t2[..k][k - 1] == t2[k - 1];
    BudgetWalkStops(src, pid, n, t1, o1);
    BudgetWalkStops(src, pid, n, t2, o2);
    assert StopsAfter(n, t1[k - 1], k - 1) == StopsAfter(n, t2[k - 1], k - 1);
    assert t1 == t1[..k] && t2 == t2[..k];
  }

  /** Along a linked trace every step lowers the rank of the page asked for. */
  lemma {:induction false} RankFalls(src: Source, depth: (PlaylistId, Option<Token>) -> nat, t: seq<Exchange>, i: nat)
    requires Ranked(src, depth) && Executed(src, t) && Linked(t)
    requires forall j :: 0 <= j < |t| ==> t[j].request.size == MaxPageSize
    requires i < |t|
    ensures t[i].request.playlist == t[0].request.playlist
    ensures depth(t[0].request.playlist, t[i].request.token) + i <= depth(t[0].request.playlist, t[0].request.token)
  {
    if i > 0 {
      RankFalls(src, depth, t, i - 1);
      assert Follows(t[i - 1], t[i]);
      assert src.respond(t[i - 1].request) == t[i - 1].response;
    }
  }

  /** `get_entire_playlist` terminates on a finite source: a walk issues at
      most one request more than the rank of the playlist's first page. */
  lemma EntireWalkLength(src: Source, depth: (PlaylistId, Option<Token>) -> nat, pid: PlaylistId, t: seq<Exchange>, outcome: Outcome)
    requires Ranked(src, depth) && EntireWalk(src, pid, t, outcome)
    ensures |t| <= depth(pid, None) + 1
  {
    RankFalls(src, depth, t, |t| - 1);
  }

  /** The walk to the end that starts with request `q`, on a ranked source. */
  ghost function WalkFrom(src: Source, depth: (PlaylistId, Option<Token>) -> nat, q: Request): seq<Exchange>
    requires Ranked(src, depth) && q.size == MaxPageSize
    decreases depth(q.playlist, q.token)
  {
    var e := Exchange(q, src.respond(q));
    if Ends(e) then [e]
    else [e] + WalkFrom(src, depth, Request(q.playlist, MaxPageSize, Carried(src.respond(q).value.next)))
  }

  /** `WalkFrom` follows every token with a full page and stops at the first
      exchange that ends a walk. */
  lemma {:induction false} WalkFromFollowsTokens(src: Source, depth: (PlaylistId, Option<Token>) -> nat, q: Request)
    requires Ranked(src, depth) && q.size == MaxPageSize
    ensures var t := WalkFrom(src, depth, q);
      && |t| >= 1 && t[0].request == q
      && Executed(src, t) && Linked(t) && Ends(Last(t))
      && (forall i :: 0 <= i < |t| ==> t[i].request.size == MaxPageSize)
    decreases depth(q.playlist, q.token)
  {
    var e := Exchange(q, src.respond(q));
    if !Ends(e) {
      var q' := Request(q.playlist, MaxPageSize, Carried(src.respond(q).value.next));
      WalkFromFollowsTokens(src, depth, q');
      var rest := WalkFrom(src, depth, q');
      var t := [e] + rest;
      assert WalkFrom(src, depth, q) == t;
      assert Follows(e, rest[0]);
      forall i | 0 <= i < |t| - 1 ensures Follows(t[i], t[i + 1]) {
        if i > 0 {
          assert t[i] == rest[i - 1] && t[i + 1] == rest[i];
        }
      }
      forall i | 0 <= i < |t| ensures t[i].response == src.respond(t[i].request) && t[i].request.size == MaxPageSize {
        if i > 0 {
          assert t[i] == rest[i - 1];
        }
      }
      assert Last(t) == Last(rest);
    }
  }

  /** On a ranked source the walk to the end of every playlist reaches a
      last page, so `get_entire_playlist` terminates there. */
  lemma RankedWalkEnds(src: Source, depth: (PlaylistId, Option<Token>) -> nat, pid: PlaylistId)
    requires Ranked(src, depth)
    ensures WalkEnds(src, pid)
  {
    var t := WalkFrom(src, depth, Request(pid, MaxPageSize, None));
    WalkFromFollowsTokens(src, depth, Request(pid, MaxPageSize, None));
    var outcome := if Last(t).response.None? then NoResponse else Completed;
    assert EntireWalk(src, pid, t, outcome);
  }
}

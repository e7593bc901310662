/** How `get_n_playlist_items` cuts an item budget into page requests:
    full pages of `MaxPageSize` while more than a page remains, then the rest. */
module Budget {
  import opened PlaylistSource

  /** The page sizes that a budget of `n` items is requested in. */
  function Chunks(n: nat): seq<nat>
    decreases n
  {
    if n == 0 then []
    else if n <= MaxPageSize then [n]
    else [MaxPageSize] + Chunks(n - MaxPageSize)
  }

  function Sum(s: seq<nat>): nat
  {
    if s == [] then 0 else s[0] + Sum(s[1..])
  }

  lemma {:induction false} SumConcat(a: seq<nat>, b: seq<nat>)
    ensures Sum(a + b) == Sum(a) + Sum(b)
  {
    if a == [] {
      assert a + b == b;
    } else {
      assert (a + b)[1..] == a[1..] + b;
      SumConcat(a[1..], b);
    }
  }

  /** Every page size in the split is a size `get_playlist_page` accepts. */
  lemma {:induction false} ChunksInRange(n: nat)
    ensures forall i :: 0 <= i < |Chunks(n)| ==> 1 <= Chunks(n)[i] <= MaxPageSize
  {
    if n > MaxPageSize {
      ChunksInRange(n - MaxPageSize);
    }
  }

  /** The page sizes add up to the budget exactly. */
  lemma {:induction false} ChunksSum(n: nat)
    ensures Sum(Chunks(n)) == n
  {
    if n > MaxPageSize {
      ChunksSum(n - MaxPageSize);
      SumConcat([MaxPageSize], Chunks(n - MaxPageSize));
    }
  }

  /** A budget of `n` takes ceil(n / 50) requests. */
  lemma {:induction false} ChunksCount(n: nat)
    ensures |Chunks(n)| == (n + MaxPageSize - 1) / MaxPageSize
  {
    if n > MaxPageSize {
      ChunksCount(n - MaxPageSize);
    }
  }

  /** The split is 50, ..., 50 followed by `n mod 50` when that is not zero. */
  lemma {:induction false} ChunksShape(n: nat)
    requires n > 0
    ensures forall i :: 0 <= i < |Chunks(n)| - 1 ==> Chunks(n)[i] == MaxPageSize
    ensures Chunks(n)[|Chunks(n)| - 1] == if n % MaxPageSize == 0 then MaxPageSize else n % MaxPageSize
  {
    if n > MaxPageSize {
      ChunksShape(n - MaxPageSize);
    }
  }

  /** After issuing `done`, a remaining budget of `rest` is split as `Chunks(rest)`;
      the issued sizes are then a prefix of the whole split and never exceed it. */
  lemma SplitSoFar(n: nat, done: seq<nat>, rest: nat)
    requires done + Chunks(rest) == Chunks(n)
    ensures |done| <= |Chunks(n)| && done == Chunks(n)[..|done|]
    ensures Sum(done) == n - rest
    ensures forall i :: 0 <= i < |done| ==> 1 <= done[i] <= MaxPageSize
  {
    assert Chunks(n)[..|done|] == (done + Chunks(rest))[..|done|];
    SumConcat(done, Chunks(rest));
    ChunksSum(n);
    ChunksSum(rest);
    ChunksInRange(n);
    forall i | 0 <= i < |done| ensures 1 <= done[i] <= MaxPageSize {
      assert done[i] == Chunks(n)[i];
    }
  }
}

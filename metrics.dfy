/** services/metricsService.js: the rolling window of request timestamps that trackRequest
    maintains, and the two counts getMetrics reads off it.  The clock is a parameter: `now`
    is the value of Date.now() in milliseconds. */
module Metrics {
  import opened Seqs

  /** The window: a timestamp t is recent at time now when now - t <= 1000 ms. */
  const WINDOW_MS: int := 1000
  /** MAX_TIMESTAMPS: at most this many timestamps are kept. */
  const MAX_TIMESTAMPS: nat := 1000

  /** The filter's predicate at time `now`. */
  function InWindow(now: int): int -> bool
  {
    t => now - t <= WINDOW_MS
  }

  /** filter(timestamp => now - timestamp <= 1000): the timestamps recent at `now`, in their order. */
  function Recent(ts: seq<int>, now: int): (r: seq<int>)
    ensures forall t :: t in r <==> t in ts && now - t <= WINDOW_MS
    ensures forall t :: multiset(r)[t] == if now - t <= WINDOW_MS then multiset(ts)[t] else 0
    ensures IsSubseq(r, ts)
  {
    WhereIsSubseq(ts, InWindow(now));
    Where(ts, InWindow(now))
  }

  /** The request just pushed is always recent, so it survives the filter as its last entry. */
  lemma RecentOfPushed(ts: seq<int>, now: int)
    ensures Recent(ts + [now], now) == Recent(ts, now) + [now]
  {
  }

  /** slice(-MAX_TIMESTAMPS) when the array is longer than MAX_TIMESTAMPS: the newest entries. */
  function Capped(ts: seq<int>): (r: seq<int>)
    ensures |r| == if |ts| > MAX_TIMESTAMPS then MAX_TIMESTAMPS else |ts|
    ensures r == ts[|ts| - |r|..]
  {
    if |ts| > MAX_TIMESTAMPS then ts[|ts| - MAX_TIMESTAMPS..] else ts
  }

  /** The cap keeps a suffix, which is a subsequence. */
  lemma CappedIsSubseq(ts: seq<int>)
    ensures IsSubseq(Capped(ts), ts)
  {
    SuffixIsSubseq(ts, |ts| - |Capped(ts)|);
  }

  /** Past the cap, what is kept is the last MAX_TIMESTAMPS entries. */
  lemma CappedOverflow(ts: seq<int>)
    ensures |ts| > MAX_TIMESTAMPS ==> Capped(ts) == ts[|ts| - MAX_TIMESTAMPS..]
  {
  }

  /** The cap keeps only entries it was given. */
  lemma CappedKeeps(ts: seq<int>)
    ensures forall t :: t in Capped(ts) ==> t in ts
  {
  }

  /** What the cap keeps of the filtered array is recent, bounded, ends with `now` and keeps the order. */
  lemma CappedRecentShape(ts: seq<int>, now: int)
    ensures forall t :: t in Capped(Recent(ts + [now], now)) ==> now - t <= WINDOW_MS
    ensures |Capped(Recent(ts + [now], now))| <= MAX_TIMESTAMPS
    ensures |Capped(Recent(ts + [now], now))| > 0
    ensures Capped(Recent(ts + [now], now))[|Capped(Recent(ts + [now], now))| - 1] == now
    ensures IsSubseq(Capped(Recent(ts + [now], now)), ts + [now])
  {
    var pushed := ts + [now];
    var recent := Recent(pushed, now);
    RecentOfPushed(ts, now);
    CappedIsSubseq(recent);
    SubseqTransitive(Capped(recent), recent, pushed);
    CappedKeeps(recent);
  }

  /** The array trackRequest leaves behind when it records a request at `now`: every entry is
      recent at `now`, there are at most MAX_TIMESTAMPS of them, the last is `now` itself, and
      they are the newest MAX_TIMESTAMPS of the recent entries (all of them when there are no
      more), in their original order. */
  function Window(ts: seq<int>, now: int): (r: seq<int>)
    ensures forall t :: t in r ==> now - t <= WINDOW_MS
    ensures |r| <= MAX_TIMESTAMPS
    ensures |r| > 0 && r[|r| - 1] == now
    ensures IsSubseq(r, ts + [now])
    ensures |Recent(ts + [now], now)| <= MAX_TIMESTAMPS ==> r == Recent(ts + [now], now)
    ensures |Recent(ts + [now], now)| > MAX_TIMESTAMPS ==>
      r == Recent(ts + [now], now)[|Recent(ts + [now], now)| - MAX_TIMESTAMPS..]
  {
    CappedRecentShape(ts, now);
    CappedOverflow(Recent(ts + [now], now));
    Capped(Recent(ts + [now], now))
  }

  /** Right after trackRequest, every stored timestamp counts as a request in the last second. */
  lemma {:induction false} CountsRightAfterTrack(ts: seq<int>, now: int)
    ensures Recent(Window(ts, now), now) == Window(ts, now)
  {
    WhereKeepsAll(Window(ts, now), InWindow(now));
  }

  /** The counts part of getMetrics' result. */
  datatype Counts = Counts(requestsPerSecond: nat, activeConnections: nat)

  /** The module-level `requestTimestamps` array and the two functions over it. */
  class MetricsService {
    var requestTimestamps: seq<int>

    /** The array never holds more than MAX_TIMESTAMPS entries. */
    ghost predicate Valid()
      reads this
    {
      |requestTimestamps| <= MAX_TIMESTAMPS
    }

    constructor ()
      ensures Valid() && requestTimestamps == []
    {
      requestTimestamps := [];
    }

    /** trackRequest: push `now`, drop what is older than a second, keep the newest MAX_TIMESTAMPS. */
    method TrackRequest(now: int)
      modifies this
      ensures Valid()
      ensures requestTimestamps == Window(old(requestTimestamps), now)
    {
      requestTimestamps := requestTimestamps + [now];
      requestTimestamps := Recent(requestTimestamps, now);
      if |requestTimestamps| > MAX_TIMESTAMPS {
        requestTimestamps := requestTimestamps[|requestTimestamps| - MAX_TIMESTAMPS..];
      }
    }

    /** getMetrics: requestsPerSecond is the number of stored timestamps recent at `now`,
        activeConnections the number stored, so the first never exceeds the second. */
    function GetCounts(now: int): (c: Counts)
      reads this
      ensures c.requestsPerSecond == |Recent(requestTimestamps, now)|
      ensures c.activeConnections == |requestTimestamps|
      ensures c.requestsPerSecond <= c.activeConnections
      ensures Valid() ==> c.activeConnections <= MAX_TIMESTAMPS
    {
      Counts(|Recent(requestTimestamps, now)|, |requestTimestamps|)
    }
  }
}

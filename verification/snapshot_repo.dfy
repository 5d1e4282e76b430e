/**
 * The price log: an append-only record of the implied probabilities after
 * each trade, one row per snapshot, in the order they were written.
 */
module SnapshotRepo {
  import opened Wrappers
  import Seqs

  /** The probabilities and outstanding counts of one market at one moment. */
  datatype PriceSnapshot = PriceSnapshot(
    id: int,
    marketId: int,
    yesProbability: real,
    noProbability: real,
    qYes: real,
    qNo: real,
    createdAt: int)

  /** The snapshots of `marketId`, in log order (oldest first). */
  function History(log: seq<PriceSnapshot>, marketId: int): (r: seq<PriceSnapshot>)
    ensures forall s :: s in r <==> s in log && s.marketId == marketId
    ensures |r| <= |log|
  {
    if |log| == 0 then []
    else if log[|log| - 1].marketId == marketId then History(log[..|log| - 1], marketId) + [log[|log| - 1]]
    else History(log[..|log| - 1], marketId)
  }

  /** Appending a snapshot extends only its own market's history, by exactly that snapshot. */
  lemma {:induction false} HistoryAppend(log: seq<PriceSnapshot>, s: PriceSnapshot, marketId: int)
    ensures s.marketId == marketId ==> History(log + [s], marketId) == History(log, marketId) + [s]
    ensures s.marketId != marketId ==> History(log + [s], marketId) == History(log, marketId)
  {
    assert (log + [s])[..|log|] == log;
  }

  /**
   * The last `limit` snapshots, oldest first, as the store computes them:
   * newest first, keep `limit`, turn back around. A negative limit keeps all.
   */
  function LastOf(h: seq<PriceSnapshot>, limit: int): (r: seq<PriceSnapshot>)
    ensures limit < 0 || limit >= |h| ==> r == h
    ensures 0 <= limit < |h| ==> r == h[|h| - limit..]
  {
    var newestFirst := Seqs.Reverse(h);
    if limit < 0 || limit >= |h| then
      Seqs.ReverseInvolution(h);
      Seqs.Reverse(newestFirst)
    else
      Seqs.ReversePrefix(h, limit);
      Seqs.Reverse(newestFirst[..limit])
  }

  /** The most recent snapshot, taken as the head of the newest-first order. */
  function Latest(h: seq<PriceSnapshot>): (r: Option<PriceSnapshot>)
    ensures r.None? <==> |h| == 0
    ensures r.Some? ==> r.value == h[|h| - 1]
  {
    var newestFirst := Seqs.Reverse(h);
    if |newestFirst| == 0 then None else Some(newestFirst[0])
  }

  /** The latest snapshot is the one that a limit of 1 keeps. */
  lemma LatestIsLastOfOne(h: seq<PriceSnapshot>)
    requires |h| > 0
    ensures LastOf(h, 1) == [Latest(h).value]
  {
  }

  class SnapshotLog {
    var log: seq<PriceSnapshot>

    ghost predicate Valid()
      reads this
    {
      forall i :: 0 <= i < |log| ==> log[i].id == i + 1
    }

    constructor ()
      ensures Valid() && log == []
    {
      log := [];
    }

    /** Appends one snapshot holding exactly the given figures, stamped `now`. */
    method Create(marketId: int, yesProbability: real, noProbability: real, qYes: real, qNo: real, now: int)
      returns (s: PriceSnapshot)
      requires Valid()
      modifies this
      ensures Valid()
      ensures s == PriceSnapshot(|old(log)| + 1, marketId, yesProbability, noProbability, qYes, qNo, now)
      ensures log == old(log) + [s]
      ensures GetHistory(marketId) == old(GetHistory(marketId)) + [s]
      ensures forall other :: other != marketId ==> History(log, other) == History(old(log), other)
    {
      s := PriceSnapshot(|log| + 1, marketId, yesProbability, noProbability, qYes, qNo, now);
      HistoryAppend(log, s, marketId);
      forall other | other != marketId
        ensures History(log + [s], other) == History(log, other)
      {
        HistoryAppend(log, s, other);
      }
      log := log + [s];
    }

    /** Every snapshot of `marketId`, oldest first. */
    function GetHistory(marketId: int): (r: seq<PriceSnapshot>)
      reads this
      ensures forall s :: s in r <==> s in log && s.marketId == marketId
    {
      History(log, marketId)
    }

    /** The last `limit` snapshots of `marketId`, oldest first; a negative limit means no limit. */
    function GetHistoryLimit(marketId: int, limit: int): (r: seq<PriceSnapshot>)
      reads this
      ensures var h := GetHistory(marketId);
        |r| == (if limit < 0 || limit >= |h| then |h| else limit) && r == h[|h| - |r|..]
    {
      LastOf(GetHistory(marketId), limit)
    }

    /** The newest snapshot of `marketId`, or None when it has none. */
    function GetLatest(marketId: int): (r: Option<PriceSnapshot>)
      reads this
      ensures var h := GetHistory(marketId);
        (r.None? <==> |h| == 0) && (r.Some? ==> r.value == h[|h| - 1])
    {
      Latest(GetHistory(marketId))
    }
  }
}

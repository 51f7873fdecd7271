/** The over-time aggregator of datastructure.c: the alignment of a query
    time to the centre of its 10-minute interval (`gettimestamp`), and the
    global `overTime` table, a gap-free ascending grid of 600-second buckets
    that `findOverTimeID` searches and extends. */
module OverTime {
  import opened Common

  /** Width of one bucket, in seconds. */
  const Interval: int := 600

  /** C's `a % b` for b > 0: the remainder truncates toward zero, so it has
      the sign of `a` (Dafny's own `%` is Euclidean). */
  function CRem(a: int, b: int): (r: int)
    requires b > 0
    ensures -b < r < b
    ensures a >= 0 ==> r >= 0
    ensures a < 0 ==> r <= 0
    ensures a - r == (if a >= 0 then a / b else -((-a) / b)) * b
  {
    if a >= 0 then
      assert a == (a / b) * b + a % b;
      a % b
    else
      assert -a == ((-a) / b) * b + (-a) % b;
      -((-a) % b)
  }

  /** The over-time stamp `gettimestamp` derives from a query time `t`:
      `t - t%600 + 300`. For t >= 0 it is the midpoint of the 600-second
      cell holding t; for t < 0 C's truncation rounds toward zero instead. */
  function AlignTimestamp(t: int): (r: int)
    ensures r % Interval == 300
    ensures 0 <= t ==> r - 300 <= t < r + 300
    ensures 0 <= t ==> r == t / Interval * Interval + 300
    ensures t < 0 ==> r - 900 < t <= r - 300
  {
    t - CRem(t, Interval) + 300
  }

  /** For negative times the truncating `%` moves the stamp one cell past the
      floor cell, except at an exact multiple of 600 where no rounding happens. */
  lemma AlignNegative(t: int)
    requires t < 0
    ensures t % Interval == 0 ==> AlignTimestamp(t) == t + 300
    ensures t % Interval != 0 ==> AlignTimestamp(t) == t / Interval * Interval + Interval + 300
  {
    var q := (-t) / Interval;
    assert -t == q * Interval + (-t) % Interval;
    assert t == (t / Interval) * Interval + t % Interval;
    if t % Interval == 0 {
      assert (-t) % Interval == 0;
    } else {
      assert t / Interval == -q - 1;
    }
  }

  /** All non-negative times of one grid cell get the same stamp, and times
      of different cells get different stamps. */
  lemma AlignSameCell(t1: int, t2: int)
    requires 0 <= t1 && 0 <= t2
    ensures AlignTimestamp(t1) == AlignTimestamp(t2) <==> t1 / Interval == t2 / Interval
  {
    var q1, q2 := t1 / Interval, t2 / Interval;
    assert AlignTimestamp(t1) - AlignTimestamp(t2) == (q1 - q2) * Interval;
  }

  /** One entry of `overTime`. Its per-query-type array is static storage
      that this core never writes, and is not modelled. */
  datatype Bucket = Bucket(
    magic: int,
    timestamp: int,
    total: int,
    blocked: int,
    cached: int,
    clientnum: int,
    clientdata: Option<seq<int>>)

  /** The bucket `findOverTimeID` creates for stamp `ts`. */
  function EmptyBucket(ts: int): Bucket
  {
    Bucket(MAGICBYTE, ts, 0, 0, 0, 0, None)
  }

  function Stamps(bs: seq<Bucket>): (r: seq<int>)
    ensures |r| == |bs| && forall k :: 0 <= k < |bs| ==> r[k] == bs[k].timestamp
  {
    seq(|bs|, k requires 0 <= k < |bs| => bs[k].timestamp)
  }

  /** The ordering invariant of the table: each stamp is 600 after the one
      before it. */
  predicate OnGrid(bs: seq<Bucket>)
  {
    forall k :: 0 < k < |bs| ==> bs[k].timestamp == bs[k - 1].timestamp + Interval
  }

  /** On the grid, bucket k sits k intervals after the first, so the stamps
      ascend strictly and never repeat. */
  lemma {:induction false} OnGridStamps(bs: seq<Bucket>, k: nat)
    requires OnGrid(bs) && k < |bs|
    ensures bs[k].timestamp == bs[0].timestamp + k * Interval
  {
    if k > 0 {
      OnGridStamps(bs, k - 1);
    }
  }

  /** A grid whose first stamp is aligned holds only aligned stamps. */
  lemma OnGridAligned(bs: seq<Bucket>, k: nat)
    requires OnGrid(bs) && k < |bs| && bs[0].timestamp % Interval == 300
    ensures bs[k].timestamp % Interval == 300
  {
    OnGridStamps(bs, k);
  }

  /** The stamp the back-fill loop starts from: 600 after the last bucket,
      or the requested stamp itself for an empty table. */
  function NextStamp(bs: seq<Bucket>, ts: int): int
  {
    if bs == [] then ts else bs[|bs| - 1].timestamp + Interval
  }

  /** The buckets the back-fill loop appends when it starts at `next` and
      runs while `ts >= next`. */
  function Backfill(next: int, ts: int): seq<Bucket>
    decreases ts - next
  {
    if ts < next then [] else [EmptyBucket(next)] + Backfill(next + Interval, ts)
  }

  /** The back-fill holds one empty bucket per grid step from `next` up to
      the greatest step not after `ts`. */
  lemma {:induction false} BackfillShape(next: int, ts: int)
    ensures |Backfill(next, ts)| == if ts < next then 0 else (ts - next) / Interval + 1
    ensures forall k :: 0 <= k < |Backfill(next, ts)| ==>
      Backfill(next, ts)[k] == EmptyBucket(next + k * Interval)
    decreases ts - next
  {
    if ts >= next {
      BackfillShape(next + Interval, ts);
      var rest := Backfill(next + Interval, ts);
      if ts - next >= Interval {
        assert (ts - next) / Interval == (ts - next - Interval) / Interval + 1;
      }
      forall k | 0 < k < |Backfill(next, ts)|
        ensures Backfill(next, ts)[k] == EmptyBucket(next + k * Interval)
      {
        assert Backfill(next, ts)[k] == rest[k - 1];
      }
    }
  }

  /** A non-empty back-fill ends at the last grid step not after `ts`. */
  lemma BackfillReaches(next: int, ts: int)
    requires next <= ts
    ensures var b := Backfill(next, ts);
      |b| > 0 && b[|b| - 1].timestamp <= ts < b[|b| - 1].timestamp + Interval
  {
    BackfillShape(next, ts);
    var n := (ts - next) / Interval;
    assert n * Interval <= ts - next < n * Interval + Interval;
  }

  /** Appending the back-fill that starts at NextStamp keeps the grid. */
  lemma BackfillOnGrid(bs: seq<Bucket>, ts: int)
    requires OnGrid(bs)
    ensures OnGrid(bs + Backfill(NextStamp(bs, ts), ts))
  {
    var next := NextStamp(bs, ts);
    var b := Backfill(next, ts);
    BackfillShape(next, ts);
    var all := bs + b;
    forall k | 0 < k < |all| ensures all[k].timestamp == all[k - 1].timestamp + Interval {
      if k > |bs| {
        assert all[k] == b[k - |bs|] && all[k - 1] == b[k - 1 - |bs|];
      } else if k == |bs| {
        assert all[k] == b[0];
      }
    }
  }

  /** Index of the bucket stamped `ts`, or -1. */
  function StampIndex(bs: seq<Bucket>, ts: int): (r: int)
    ensures -1 <= r < |bs|
    ensures 0 <= r ==> bs[r].timestamp == ts && forall k :: 0 <= k < r ==> bs[k].timestamp != ts
    ensures r < 0 ==> forall k :: 0 <= k < |bs| ==> bs[k].timestamp != ts
  {
    Find(Stamps(bs), ts)
  }

  /** A stamp older than the newest bucket that is not in the table: nothing
      is back-filled, so `findOverTimeID` answers -1 and creates nothing. */
  lemma TooOldCreatesNothing(bs: seq<Bucket>, ts: int)
    requires bs != [] && StampIndex(bs, ts) < 0 && ts < bs[|bs| - 1].timestamp + Interval
    ensures Backfill(NextStamp(bs, ts), ts) == []
  {
  }

  /** The global `overTime` array together with `counters.overTime`: the
      sequence holds exactly the buckets in use. */
  class OverTimeTable {
    var buckets: seq<Bucket>

    ghost predicate Valid()
      reads this
    {
      OnGrid(buckets) && forall k :: 0 <= k < |buckets| ==> buckets[k].magic == MAGICBYTE
    }

    /** The table at process start: no buckets. */
    constructor ()
      ensures Valid() && buckets == []
    {
      buckets := [];
    }

    /** `findOverTimeID(ts)`: the index of the bucket stamped `ts`; otherwise
        the empty buckets from NextStamp up to `ts` are appended and the last
        appended index is returned, or -1 when none was appended. */
    method FindOverTimeId(ts: int) returns (idx: int)
      requires Valid()
      modifies this
      ensures Valid()
      ensures StampIndex(old(buckets), ts) >= 0 ==>
        idx == StampIndex(old(buckets), ts) && buckets == old(buckets)
      ensures StampIndex(old(buckets), ts) < 0 ==>
        buckets == old(buckets) + Backfill(NextStamp(old(buckets), ts), ts) &&
        idx == (if |buckets| == |old(buckets)| then -1 else |buckets| - 1)
    {
      idx := -1;
      for i := 0 to |buckets|
        invariant forall k :: 0 <= k < i ==> buckets[k].timestamp != ts
      {
        if buckets[i].timestamp == ts {
          return i;
        }
      }
      var next: int;
      if |buckets| != 0 {
        next := buckets[|buckets| - 1].timestamp + Interval;
      } else {
        next := ts;
      }
      ghost var start := next;
      while ts >= next
        invariant old(buckets) + Backfill(start, ts) == buckets + Backfill(next, ts)
        invariant |buckets| > 0 ==> next == buckets[|buckets| - 1].timestamp + Interval
        invariant |buckets| == 0 ==> next == ts
        invariant Valid()
        invariant idx == if |buckets| == |old(buckets)| then -1 else |buckets| - 1
        invariant |buckets| >= |old(buckets)|
        decreases ts - next
      {
        idx := |buckets|;
        assert Backfill(next, ts) == [EmptyBucket(next)] + Backfill(next + Interval, ts);
        buckets := buckets + [EmptyBucket(next)];
        if |buckets| != 0 {
          next := buckets[|buckets| - 1].timestamp + Interval;
        }
      }
    }
  }

  /** Two queries 1800 s apart leave four buckets, 600 s apart, the three
      later ones empty, and the second lookup answers the fourth. */
  method GapFillScenario(a: int) returns (first: int, second: int, table: seq<Bucket>)
    ensures first == 0 && second == 3
    ensures table == [EmptyBucket(a), EmptyBucket(a + 600), EmptyBucket(a + 1200), EmptyBucket(a + 1800)]
  {
    var t := new OverTimeTable();
    first := t.FindOverTimeId(a);
    assert t.buckets == [EmptyBucket(a)];
    second := t.FindOverTimeId(a + 1800);
    BackfillShape(a + 600, a + 1800);
    table := t.buckets;
  }

  /** A later query followed by an older, unseen one: the second lookup
      answers -1 and the table keeps its single bucket. */
  method OutOfOrderScenario(a: int) returns (first: int, second: int, size: nat)
    ensures first == 0 && second == -1 && size == 1
  {
    var t := new OverTimeTable();
    first := t.FindOverTimeId(a);
    assert t.buckets == [EmptyBucket(a)];
    second := t.FindOverTimeId(a - 600);
    size := |t.buckets|;
  }
}

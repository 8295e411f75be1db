/**
 * `HISTORY` with `addToHistory` and `snapshotHistory`: the records of accepted requests,
 * oldest first, at most `HISTORY_LIMIT` of them, the oldest evicted first.
 */
module HistoryStore {
  import opened Numbers

  /** `HISTORY_LIMIT`. */
  const Limit: nat := 100

  /**
   * A `HitRecord`. The doubles y, r and the processing time are finite here, held as the
   * decimals they print as; the timestamp is the already formatted offset date-time.
   */
  datatype HitRecord = HitRecord(
    x: Decimal, y: Decimal, r: Decimal, hit: bool, currentTime: string, processingTimeMs: Decimal)

  /** The contents after one `addToHistory(rec)`. */
  function Added(h: seq<HitRecord>, rec: HitRecord): seq<HitRecord> {
    var grown := h + [rec];
    if |grown| > Limit then grown[1..] else grown
  }

  /** The contents after adding each of `recs` in turn. */
  function AddedAll(h: seq<HitRecord>, recs: seq<HitRecord>): seq<HitRecord>
    decreases |recs|
  {
    if recs == [] then h else AddedAll(Added(h, recs[0]), recs[1..])
  }

  /** The shared history list. */
  class History {
    var records: seq<HitRecord>

    ghost predicate Valid()
      reads this
    {
      |records| <= Limit
    }

    constructor()
      ensures Valid() && records == []
    {
      records := [];
    }

    /** `addToHistory`: append, then drop index 0 if the list grew past the limit. */
    method Add(rec: HitRecord)
      requires Valid()
      modifies this
      ensures Valid()
      ensures records == Added(old(records), rec)
    {
      records := records + [rec];
      if |records| > Limit {
        records := records[1..];
      }
    }

    /** `snapshotHistory`: a copy of the current contents. */
    method Snapshot() returns (s: seq<HitRecord>)
      ensures s == records
    {
      s := records;
    }
  }

  /**
   * One addition keeps the size within the limit and ends with the new record; below the
   * limit nothing is evicted, at the limit exactly the oldest record is.
   */
  lemma AddedShape(h: seq<HitRecord>, rec: HitRecord)
    requires |h| <= Limit
    ensures |Added(h, rec)| <= Limit
    ensures Added(h, rec)[|Added(h, rec)| - 1] == rec
    ensures |h| < Limit ==> Added(h, rec) == h + [rec]
    ensures |h| == Limit ==> Added(h, rec) == h[1..] + [rec]
  {
    if |h| == Limit {
      assert (h + [rec])[1..] == h[1..] + [rec];
    }
  }

  /** The oldest `Limit` of a sequence are dropped: what remains is its newest `Limit` elements. */
  function Newest(s: seq<HitRecord>): (t: seq<HitRecord>)
    ensures |t| <= Limit
  {
    if |s| > Limit then s[|s| - Limit..] else s
  }

  /**
   * Starting from a history within the limit, any run of additions leaves exactly the
   * newest `Limit` records of everything added, in order.
   */
  lemma {:induction false} AddedAllWindow(h: seq<HitRecord>, recs: seq<HitRecord>)
    requires |h| <= Limit
    ensures AddedAll(h, recs) == Newest(h + recs)
    decreases |recs|
  {
    if recs != [] {
      AddedShape(h, recs[0]);
      var h' := Added(h, recs[0]);
      assert h' == Newest(h + [recs[0]]);
      AddedAllWindow(h', recs[1..]);
      assert h + recs == (h + [recs[0]]) + recs[1..];
      NewestOfNewest(h + [recs[0]], recs[1..]);
    }
  }

  lemma NewestOfNewest(a: seq<HitRecord>, b: seq<HitRecord>)
    ensures Newest(Newest(a) + b) == Newest(a + b)
  {
    if |a| > Limit {
      var k := |a| - Limit;
      assert Newest(a) == a[k..];
      assert a + b == a[..k] + (a[k..] + b);
      assert (a + b)[|a + b| - Limit..] == (a[k..] + b)[|a[k..] + b| - Limit..];
    }
  }
}

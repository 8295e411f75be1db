/**
 * The browser script's history handling: merging the cached, server and current records
 * through a `Map` keyed by `buildHistoryKey`, listing them newest first for the table, and
 * choosing the points for the plot with the newest one flagged.
 */
module ClientHistory {
  import opened Wrappers
  import opened OrderedMaps
  import opened ClientText
  import opened ClientForm

  // ---------------------------------------------------------------------------------------
  // Entries

  /** The records of a list whose entries may be null, in order (`if (!rec) return;`). */
  function Present(entries: seq<Option<JsRecord>>): (recs: seq<JsRecord>)
    ensures |recs| <= |entries|
  {
    if |entries| == 0 then []
    else
      var init := Present(entries[..|entries| - 1]);
      match entries[|entries| - 1]
      case None => init
      case Some(rec) => init + [rec]
  }

  /** Each record paired with its history key, as `put` hands it to `mergedMap.set`. */
  function Keyed(recs: seq<JsRecord>): (kvs: seq<(string, JsRecord)>)
    ensures |kvs| == |recs|
    ensures forall i :: 0 <= i < |recs| ==> kvs[i] == (HistoryKey(recs[i]), recs[i])
  {
    seq(|recs|, i requires 0 <= i < |recs| => (HistoryKey(recs[i]), recs[i]))
  }

  function Reverse<T>(s: seq<T>): (r: seq<T>)
    ensures |r| == |s|
    ensures forall i :: 0 <= i < |s| ==> r[i] == s[|s| - 1 - i]
  {
    seq(|s|, i requires 0 <= i < |s| => s[|s| - 1 - i])
  }

  lemma {:induction false} PresentConcat(a: seq<Option<JsRecord>>, b: seq<Option<JsRecord>>)
    ensures Present(a + b) == Present(a) + Present(b)
  {
    if |b| == 0 {
      assert a + b == a;
    } else {
      assert (a + b)[..|a + b| - 1] == a + b[..|b| - 1];
      PresentConcat(a, b[..|b| - 1]);
    }
  }

  /** A record is present exactly when some entry holds it. */
  lemma {:induction false} PresentMembers(entries: seq<Option<JsRecord>>, rec: JsRecord)
    ensures rec in Present(entries) <==> Some(rec) in entries
  {
    if |entries| > 0 {
      var init := entries[..|entries| - 1];
      PresentMembers(init, rec);
      assert entries == init + [entries[|entries| - 1]];
    }
  }

  /** Reversing the entries reverses the records among them. */
  lemma {:induction false} PresentReverse(entries: seq<Option<JsRecord>>)
    ensures Present(Reverse(entries)) == Reverse(Present(entries))
  {
    if |entries| > 0 {
      var n := |entries|;
      var init := entries[..n - 1];
      assert Reverse(entries) == [entries[n - 1]] + Reverse(init);
      PresentConcat([entries[n - 1]], Reverse(init));
      PresentReverse(init);
      assert [entries[n - 1]][..0] == [];
      assert Present(entries) == Present(init) + Present([entries[n - 1]]);
      ReverseConcat(Present(init), Present([entries[n - 1]]));
    }
  }

  lemma ReverseConcat<T>(a: seq<T>, b: seq<T>)
    requires |b| <= 1
    ensures Reverse(a + b) == b + Reverse(a)
  {
  }

  // ---------------------------------------------------------------------------------------
  // The merge in handleResponse

  /** The map after every non-null record of `entries` was `put`, first to last. */
  function MergedMap(entries: seq<Option<JsRecord>>): (m: OrderedMap<string, JsRecord>)
    ensures WellFormed(m)
  {
    InsertAllWellFormed(Empty(), Keyed(Present(entries)));
    InsertAll(Empty(), Keyed(Present(entries)))
  }

  /** `Array.from(mergedMap.values())` after the cache, the server history and the current record. */
  function Merged(local: seq<Option<JsRecord>>, incoming: seq<Option<JsRecord>>, current: Option<JsRecord>): seq<JsRecord> {
    Values(MergedMap(local + incoming + [current]))
  }

  /** The last non-null record whose key is `k`, scanning from the end. */
  function LastWithKey(entries: seq<Option<JsRecord>>, k: string): Option<JsRecord> {
    if |entries| == 0 then None
    else match entries[|entries| - 1]
      case Some(rec) => if HistoryKey(rec) == k then Some(rec) else LastWithKey(entries[..|entries| - 1], k)
      case None => LastWithKey(entries[..|entries| - 1], k)
  }

  /** `put(rec)`: a null record is skipped, any other is set under its key. */
  method PutRecord(m: LinkedMap<string, JsRecord>, entry: Option<JsRecord>)
    requires m.Valid()
    modifies m
    ensures m.Valid()
    ensures m.Model() == InsertAll(old(m.Model()), Keyed(Present([entry])))
  {
    assert [entry][..0] == [];
    if entry.Some? {
      m.Put(HistoryKey(entry.value), entry.value);
      assert Keyed(Present([entry])) == [(HistoryKey(entry.value), entry.value)];
    }
  }

  /** `list.forEach(put)`. */
  method PutAll(m: LinkedMap<string, JsRecord>, entries: seq<Option<JsRecord>>)
    requires m.Valid()
    modifies m
    ensures m.Valid()
    ensures m.Model() == InsertAll(old(m.Model()), Keyed(Present(entries)))
  {
    for i := 0 to |entries|
      invariant m.Valid()
      invariant m.Model() == InsertAll(old(m.Model()), Keyed(Present(entries[..i])))
    {
      PutAllStep(old(m.Model()), entries, i);
      PutRecord(m, entries[i]);
    }
    assert entries[..|entries|] == entries;
  }

  /** Putting the first `i + 1` entries is putting the first `i`, then entry `i`. */
  lemma PutAllStep(base: OrderedMap<string, JsRecord>, entries: seq<Option<JsRecord>>, i: nat)
    requires i < |entries|
    ensures InsertAll(base, Keyed(Present(entries[..i + 1])))
         == InsertAll(InsertAll(base, Keyed(Present(entries[..i]))), Keyed(Present([entries[i]])))
  {
    PresentConcat(entries[..i], [entries[i]]);
    assert entries[..i + 1] == entries[..i] + [entries[i]];
    assert Keyed(Present(entries[..i + 1])) == Keyed(Present(entries[..i])) + Keyed(Present([entries[i]]));
    InsertAllConcat(base, Keyed(Present(entries[..i])), Keyed(Present([entries[i]])));
  }

  /** The merge block of `handleResponse`: local cache, then server history, then the current record. */
  method MergeHistory(local: seq<Option<JsRecord>>, incoming: seq<Option<JsRecord>>, current: Option<JsRecord>)
    returns (merged: seq<JsRecord>)
    ensures merged == Merged(local, incoming, current)
  {
    var mergedMap := new LinkedMap<string, JsRecord>();
    PutAll(mergedMap, local);
    PutAll(mergedMap, incoming);
    PutRecord(mergedMap, current);
    merged := mergedMap.ValuesInOrder();
    MergedSteps(local, incoming, current);
  }

  /** Putting the three groups one after the other fills the map `MergedMap` describes. */
  lemma MergedSteps(local: seq<Option<JsRecord>>, incoming: seq<Option<JsRecord>>, current: Option<JsRecord>)
    ensures InsertAll(InsertAll(InsertAll(Empty(), Keyed(Present(local))), Keyed(Present(incoming))), Keyed(Present([current])))
         == InsertAll(Empty(), Keyed(Present(local + incoming + [current])))
  {
    var pl, pi, pc := Present(local), Present(incoming), Present([current]);
    PresentConcat(local, incoming);
    PresentConcat(local + incoming, [current]);
    KeyedConcat(pl, pi);
    KeyedConcat(pl + pi, pc);
    InsertAllThree(Empty(), Keyed(pl), Keyed(pi), Keyed(pc));
  }

  lemma KeyedConcat(a: seq<JsRecord>, b: seq<JsRecord>)
    ensures Keyed(a + b) == Keyed(a) + Keyed(b)
  {
  }

  lemma InsertAllThree<K, V>(m: OrderedMap<K, V>, a: seq<(K, V)>, b: seq<(K, V)>, c: seq<(K, V)>)
    ensures InsertAll(m, a + b + c) == InsertAll(InsertAll(InsertAll(m, a), b), c)
  {
    InsertAllConcat(m, a, b);
    InsertAllConcat(m, a + b, c);
  }

  /** Every key in a map filled from `Keyed` holds a record whose own key it is. */
  lemma {:induction false} KeyedEntries(recs: seq<JsRecord>, k: string)
    requires k in InsertAll(Empty(), Keyed(recs)).entries
    ensures HistoryKey(InsertAll(Empty(), Keyed(recs)).entries[k]) == k
  {
    var kvs := Keyed(recs);
    if |recs| > 0 {
      var init := recs[..|recs| - 1];
      assert kvs[..|kvs| - 1] == Keyed(init);
      if kvs[|kvs| - 1].0 != k {
        KeyedEntries(init, k);
      }
    }
  }

  /** The value `put` last stored under a key is the last non-null entry with that key. */
  lemma {:induction false} LastValueIsLastWithKey(entries: seq<Option<JsRecord>>, k: string)
    ensures LastValue(Keyed(Present(entries)), k) == LastWithKey(entries, k)
  {
    if |entries| > 0 {
      var n := |entries|;
      var init := entries[..n - 1];
      LastValueIsLastWithKey(init, k);
      var kvs := Keyed(Present(entries));
      match entries[n - 1]
      case None =>
        assert kvs == Keyed(Present(init));
      case Some(rec) =>
        assert kvs[..|kvs| - 1] == Keyed(Present(init));
    }
  }

  /** No two merged records share a key. */
  lemma MergedDistinct(local: seq<Option<JsRecord>>, incoming: seq<Option<JsRecord>>, current: Option<JsRecord>)
    ensures var merged := Merged(local, incoming, current);
      forall i, j :: 0 <= i < j < |merged| ==> HistoryKey(merged[i]) != HistoryKey(merged[j])
  {
    var m := MergedMap(local + incoming + [current]);
    var merged := Merged(local, incoming, current);
    forall i | 0 <= i < |merged| ensures HistoryKey(merged[i]) == m.keys[i] {
      KeyedEntries(Present(local + incoming + [current]), m.keys[i]);
    }
  }

  /**
   * The merged records are exactly one per key seen: each holds the LAST non-null record
   * supplied under its key, and every non-null record supplied has its key among them.
   */
  lemma MergedLastWins(local: seq<Option<JsRecord>>, incoming: seq<Option<JsRecord>>, current: Option<JsRecord>)
    ensures var all, merged := local + incoming + [current], Merged(local, incoming, current);
      && (forall j :: 0 <= j < |merged| ==> LastWithKey(all, HistoryKey(merged[j])) == Some(merged[j]))
      && (forall rec :: Some(rec) in all ==> exists j :: 0 <= j < |merged| && HistoryKey(merged[j]) == HistoryKey(rec))
  {
    var all := local + incoming + [current];
    var m := MergedMap(all);
    var merged := Merged(local, incoming, current);
    var kvs := Keyed(Present(all));
    forall j | 0 <= j < |merged|
      ensures LastWithKey(all, HistoryKey(merged[j])) == Some(merged[j])
    {
      var k := m.keys[j];
      KeyedEntries(Present(all), k);
      InsertAllValue(Empty(), kvs, k);
      LastValueIsLastWithKey(all, k);
    }
    forall rec | Some(rec) in all
      ensures exists j :: 0 <= j < |merged| && HistoryKey(merged[j]) == HistoryKey(rec)
    {
      PresentMembers(all, rec);
      var i :| 0 <= i < |Present(all)| && Present(all)[i] == rec;
      assert kvs[i].0 == HistoryKey(rec);
      InsertAllKeys(Empty(), kvs);
      var k := HistoryKey(rec);
      assert k in m.entries;
      var j :| 0 <= j < |m.keys| && m.keys[j] == k;
      KeyedEntries(Present(all), k);
    }
  }

  /** The record just computed is shown as it is: nothing supplied after it can replace it. */
  lemma CurrentShown(local: seq<Option<JsRecord>>, incoming: seq<Option<JsRecord>>, rec: JsRecord)
    ensures rec in Merged(local, incoming, Some(rec))
  {
    var all := local + incoming + [Some(rec)];
    var merged := Merged(local, incoming, Some(rec));
    MergedLastWins(local, incoming, Some(rec));
    assert Some(rec) in all by { assert all[|all| - 1] == Some(rec); }
    var j :| 0 <= j < |merged| && HistoryKey(merged[j]) == HistoryKey(rec);
    assert all[..|all| - 1] + [Some(rec)] == all;
  }

  /** Keys stay where they were first seen: the merged keys follow first occurrence in the input. */
  lemma MergedFirstSeenOrder(local: seq<Option<JsRecord>>, incoming: seq<Option<JsRecord>>, current: Option<JsRecord>)
    ensures var merged := Merged(local, incoming, current);
      FirstSeenOrder(KeysOf(Keyed(merged)), KeysOf(Keyed(Present(local + incoming + [current]))))
  {
    var all := local + incoming + [current];
    var m := MergedMap(all);
    var merged := Merged(local, incoming, current);
    var kvs := Keyed(Present(all));
    InsertAllOrder(Empty(), kvs);
    assert Empty<string, JsRecord>().keys + KeysOf(kvs) == KeysOf(kvs);
    forall i | 0 <= i < |merged| ensures HistoryKey(merged[i]) == m.keys[i] {
      KeyedEntries(Present(all), m.keys[i]);
    }
  }

  /** Null entries change nothing. */
  lemma NullIgnored(before: seq<Option<JsRecord>>, after: seq<Option<JsRecord>>)
    ensures MergedMap(before + [None] + after) == MergedMap(before + after)
  {
    PresentConcat(before + [None], after);
    PresentConcat(before, [None]);
    PresentConcat(before, after);
    var nulls: seq<Option<JsRecord>> := [None];
    assert nulls[..0] == [];
  }

  // ---------------------------------------------------------------------------------------
  // renderHistory and updatePlotPoints

  /** JavaScript truthiness of a field value. */
  predicate Truthy(v: JsValue) {
    match v
    case JNull => false
    case JUndefined => false
    case JString(s) => s != ""
    case JNumber(text) => !(JsToNumber(text).NaNValue? || JsToNumber(text) == FiniteValue(0.0))
    case JBool(b) => b
  }

  /** `Number(value)`. */
  function NumberOf(v: JsValue): JsNum {
    match v
    case JNull => FiniteValue(0.0)
    case JUndefined => NaNValue
    case JString(s) => JsToNumber(s)
    case JNumber(text) => JsToNumber(text)
    case JBool(b) => FiniteValue(if b then 1.0 else 0.0)
  }

  /** A table row: its `data-key` and the cells it shows (the time cell is not modelled). */
  datatype Row = Row(key: string, cells: seq<string>)

  function RowOf(rec: JsRecord): Row {
    Row(HistoryKey(rec), [
      FormatNumber(rec.x), FormatNumber(rec.y), FormatNumber(rec.r),
      if Truthy(rec.hit) then "Да" else "Нет",
      FormatNumber(rec.processingTimeMs)])
  }

  function RowsOf(recs: seq<JsRecord>): (rows: seq<Row>)
    ensures |rows| == |recs|
    ensures forall i :: 0 <= i < |recs| ==> rows[i] == RowOf(recs[i])
  {
    seq(|recs|, i requires 0 <= i < |recs| => RowOf(recs[i]))
  }

  const BasePointRadius: real := 3.0
  const LatestPointRadius: real := 4.8

  /** A drawn point: the record's numbers, its radius and its hit and latest classes. */
  datatype PlotPoint = PlotPoint(x: real, y: real, r: real, radius: real, hit: bool, latest: bool)

  /** `appendPlotPoint(fragment, record, isLatest)`: nothing for a null record, a non-finite coordinate or r = 0. */
  function PointOf(entry: Option<JsRecord>, isLatest: bool): Option<PlotPoint> {
    match entry
    case None => None
    case Some(rec) =>
      match (NumberOf(rec.x), NumberOf(rec.y), NumberOf(rec.r))
      case (FiniteValue(x), FiniteValue(y), FiniteValue(r)) =>
        if r == 0.0 then None
        else Some(PlotPoint(x, y, r, if isLatest then LatestPointRadius else BasePointRadius, Truthy(rec.hit), isLatest))
      case _ => None
  }

  function AsSeq<T>(o: Option<T>): seq<T> {
    if o.Some? then [o.value] else []
  }

  /** The points appended for indices `|entries| - 1` down to `i`, in that order. */
  function PointsFrom(entries: seq<Option<JsRecord>>, i: nat): seq<PlotPoint>
    requires i <= |entries|
    decreases |entries| - i
  {
    if i == |entries| then []
    else PointsFrom(entries, i + 1) + AsSeq(PointOf(entries[i], i == 0))
  }

  /** `updatePlotPoints(entries)`: walks from the last index down to 0, flagging index 0. */
  method UpdatePlotPoints(entries: seq<Option<JsRecord>>) returns (points: seq<PlotPoint>)
    ensures points == PointsFrom(entries, 0)
  {
    if |entries| == 0 {
      return [];
    }
    points := [];
    var index: int := |entries| - 1;
    while index >= 0
      invariant -1 <= index < |entries|
      invariant points == PointsFrom(entries, index + 1)
      decreases index
    {
      var point := PointOf(entries[index], index == 0);
      if point.Some? {
        points := points + [point.value];
      }
      index := index - 1;
    }
  }

  /** `renderHistory(entries)`: the rows, newest first, and the points of the same reversed list. */
  method RenderHistory(entries: seq<Option<JsRecord>>) returns (rows: seq<Row>, points: seq<PlotPoint>)
    ensures rows == RowsOf(Present(Reverse(entries)))
    ensures points == PointsFrom(Reverse(entries), 0)
  {
    var ordered := Reverse(entries);
    rows := [];
    for i := 0 to |ordered|
      invariant rows == RowsOf(Present(ordered[..i]))
    {
      assert ordered[..i + 1][..i] == ordered[..i];
      if ordered[i].Some? {
        rows := rows + [RowOf(ordered[i].value)];
      }
    }
    assert ordered[..|ordered|] == ordered;
    points := UpdatePlotPoints(ordered);
  }

  /** The table lists the non-null records newest first: row `i` shows the `i`-th from the end. */
  lemma RowsNewestFirst(entries: seq<Option<JsRecord>>)
    ensures var recs, rows := Present(entries), RowsOf(Present(Reverse(entries)));
      |rows| == |recs| && forall i :: 0 <= i < |rows| ==> rows[i] == RowOf(recs[|recs| - 1 - i])
  {
    PresentReverse(entries);
  }

  /** Points appended before index 0 is reached are never flagged. */
  lemma {:induction false} EarlierPointsNotLatest(entries: seq<Option<JsRecord>>, i: nat)
    requires 1 <= i <= |entries|
    ensures forall k :: 0 <= k < |PointsFrom(entries, i)| ==> !PointsFrom(entries, i)[k].latest
    decreases |entries| - i
  {
    if i < |entries| {
      EarlierPointsNotLatest(entries, i + 1);
    }
  }

  /**
   * At most one point is flagged latest: it is drawn last, and there is one exactly when
   * the entry at index 0 is plottable.
   */
  lemma OnlyNewestFlagged(entries: seq<Option<JsRecord>>)
    ensures var points := PointsFrom(entries, 0);
      && (forall k :: 0 <= k < |points| && points[k].latest ==> k == |points| - 1)
      && ((exists k :: 0 <= k < |points| && points[k].latest)
          <==> |entries| > 0 && PointOf(entries[0], true).Some?)
      && (|entries| > 0 && PointOf(entries[0], true).Some? ==> points[|points| - 1] == PointOf(entries[0], true).value)
  {
    if |entries| > 0 {
      EarlierPointsNotLatest(entries, 1);
      var points := PointsFrom(entries, 0);
      var newest := PointOf(entries[0], true);
      assert points == PointsFrom(entries, 1) + AsSeq(newest);
      if newest.Some? {
        assert points[|points| - 1] == newest.value && newest.value.latest;
      }
    }
  }
}

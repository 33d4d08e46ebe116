/** Query of one item (query.go), and what its points say of the minutes that were committed. */
module ItemQueries {
  import opened Types
  import opened Ordering
  import opened Queries
  import opened RingProtocol
  import opened RingMap
  import Disk
  import RingSafety
  import RingStamps
  import RingRuns
  import RingFiles
  import LiveRings
  import Entries
  import Recorders
  import RecorderRuns
  import RecorderLogs

  datatype Series = Series(key: string, points: seq<Point>)

  /** Part of a key before its first slash. */
  function ChartOf(key: string): string {
    if key == "" || key[0] == '/' then "" else [key[0]] + ChartOf(key[1..])
  }

  /** Shown to callers: not one of the alert series, and not all gaps. */
  predicate Listed(key: string, pts: seq<Point>) {
    ChartOf(key) != "alert" && exists i :: 0 <= i < |pts| && pts[i].value.Some?
  }

  /** What is before the first slash, or all of a key without one. */
  lemma {:induction false} ChartIs(key: string)
    ensures '/' !in ChartOf(key) && ChartOf(key) <= key && (|ChartOf(key)| < |key| ==> key[|ChartOf(key)|] == '/')
  {
    if key != "" && key[0] != '/' {
      ChartIs(key[1..]);
      assert key == [key[0]] + key[1..];
    }
  }

  /** Left out are exactly the chart "alert", series "alert" and "alert/...", and series that are all gaps. */
  lemma ListedIff(key: string, pts: seq<Point>)
    ensures Listed(key, pts) <==> !(key == "alert" || "alert/" <= key) && exists p :: p in pts && p.value.Some?
  {
    ChartIs(key);
    var c := ChartOf(key);
    if "alert/" <= key {
      assert key[5] == '/' && forall i :: 0 <= i < 5 ==> key[i] == "alert"[i];
      NoSlash(c, 5);
      assert c == "alert";
    }
  }

  lemma NoSlash(c: string, i: nat)
    ensures i < |c| && c[i] == '/' ==> '/' in c
  {
  }

  /** series are the listed ones of points, by key. */
  ghost predicate Lists(points: map<string, seq<Point>>, series: seq<Series>) {
    && (forall i, j :: 0 <= i < j < |series| ==> Less(series[i].key, series[j].key))
    && (forall s :: s in series ==> s.key in points && s.points == points[s.key] && Listed(s.key, s.points))
    && (forall k :: k in points && Listed(k, points[k]) ==> Series(k, points[k]) in series)
  }

  method List(points: map<string, seq<Point>>) returns (series: seq<Series>)
    ensures Lists(points, series)
  {
    var keys := Sort(points.Keys);
    series := [];
    hide Listed, Less;
    for i := 0 to |keys|
      invariant forall s :: s in series ==> s.key in keys[..i] && s.key in points && s.points == points[s.key] && Listed(s.key, s.points)
      invariant forall k: nat :: k < i && Listed(keys[k], points[keys[k]]) ==> Series(keys[k], points[keys[k]]) in series
      invariant forall a, b :: 0 <= a < b < |series| ==> Less(series[a].key, series[b].key)
    {
      var k := keys[i];
      if Listed(k, points[k]) {
        forall a | 0 <= a < |series| ensures Less(series[a].key, k) {
          assert series[a] in series;
          var j :| 0 <= j < i && keys[j] == series[a].key;
        }
        series := series + [Series(k, points[k])];
      }
    }
    forall k | k in points && Listed(k, points[k]) ensures Series(k, points[k]) in series {
      var j: nat :| j < |keys| && keys[j] == k;
    }
  }

  // ---------------------------------------------------------------- the live range

  function LivePoint(t: int, v: Float): Point {
    Point(t, if v.Fin? then Some(MinuteValue(v.r, v.r, v.r)) else None)
  }

  /** Points of a live column: each value is its own mean and extremes. */
  method LivePoints(from: int, column: seq<Float>) returns (pts: seq<Point>)
    ensures |pts| == |column| && forall i :: 0 <= i < |pts| ==> pts[i] == LivePoint(from + i * LiveRings.LIVE_STEP, column[i])
  {
    pts := [];
    for i := 0 to |column|
      invariant |pts| == i && forall k :: 0 <= k < i ==> pts[k] == LivePoint(from + k * LiveRings.LIVE_STEP, column[k])
    {
      pts := pts + [LivePoint(from + i * LiveRings.LIVE_STEP, column[i])];
    }
  }

  /** pts shows, slot by slot from first on, what the live ring has of key. */
  ghost predicate ShowsKey(log: seq<LiveRings.Landing>, first: int, key: string, pts: seq<Point>) {
    |pts| == LIVE_SLOTS && forall i: nat :: i < LIVE_SLOTS ==>
      pts[i] == LivePoint((first + i) * LiveRings.LIVE_STEP, LiveRings.Shown(log, first + i, key))
  }

  /** The live points of every key, up to the slot of now. */
  ghost predicate ShowsLive(live: LiveRings.LiveRing, now: int, points: map<string, seq<Point>>)
    reads live
  {
    && points.Keys == live.series.Keys
    && forall k :: k in points ==> ShowsKey(live.log, TruncDiv(now, LiveRings.LIVE_STEP) - (LIVE_SLOTS - 1), k, points[k])
  }

  method QueryKey(live: LiveRings.LiveRing, first: int, key: string, column: seq<Float>) returns (pts: seq<Point>)
    requires live.Shows(key, first, column)
    ensures ShowsKey(live.log, first, key, pts)
  {
    hide LivePoint, LiveRings.Shown;
    pts := LivePoints(first * LiveRings.LIVE_STEP, column);
    forall i: nat | i < LIVE_SLOTS ensures pts[i] == LivePoint((first + i) * LiveRings.LIVE_STEP, LiveRings.Shown(live.log, first + i, key)) {
      assert (first + i) * LiveRings.LIVE_STEP == first * LiveRings.LIVE_STEP + i * LiveRings.LIVE_STEP;
    }
  }

  method QueryLive(live: LiveRings.LiveRing, now: int) returns (points: map<string, seq<Point>>)
    requires live.Valid()
    ensures ShowsLive(live, now, points)
  {
    ghost var first := TruncDiv(now, LiveRings.LIVE_STEP) - (LIVE_SLOTS - 1);
    var from, to, shown := live.Snapshot(now);
    points := EachKey(live, from, first, shown);
  }

  method EachKey(live: LiveRings.LiveRing, from: int, ghost first: int, shown: LiveRings.Grid) returns (points: map<string, seq<Point>>)
    requires live.AllShown(first, shown) && from == first * LiveRings.LIVE_STEP
    ensures points.Keys == live.series.Keys && forall k :: k in points ==> ShowsKey(live.log, first, k, points[k])
  {
    hide ShowsKey, LiveRings.LiveRing.Shows;
    points := map[];
    var todo := shown.Keys;
    while todo != {}
      invariant todo <= shown.Keys && points.Keys == shown.Keys - todo
      invariant forall k :: k in points ==> ShowsKey(live.log, first, k, points[k])
      decreases |todo|
    {
      var k :| k in todo;
      var pts := QueryKey(live, from / LiveRings.LIVE_STEP, k, shown[k]);
      points, todo := points[k := pts], todo - {k};
    }
  }

  // ---------------------------------------------------------------- ranges over minutes

  /** What the file shows for series i over n minutes from fromMin. */
  ghost function CellsIn(img: Disk.Image, i: nat, fromMin: int, n: nat): (cells: seq<Cell>)
    requires Disk.WellFormed(img) && Disk.ValueAt(i + 1, 0, 0) <= |img.vals|
    ensures |cells| == n
  {
    seq(n, j requires 0 <= j => ReadCell(img, i, fromMin + j))
  }

  /** pts fold the minutes of the window as the file shows them for series i. */
  ghost predicate ShowsSpan(img: Disk.Image, i: nat, r: Range, w: Window, pts: seq<Point>)
    requires Disk.WellFormed(img) && r != Live
  {
    && Disk.ValueAt(i + 1, 0, 0) <= |img.vals|
    && FoldedTo(CellsIn(img, i, w.fromMin, PointsOf(r) * (StepOf(r) / 60)), w.from, StepOf(r), PointsOf(r), pts)
  }

  /** The points of every series over the window of a range. */
  ghost predicate ShowsMinutes(ring: RingFiles.RingFile, r: Range, now: int, points: map<string, seq<Point>>)
    requires r != Live
    reads ring, ring.file
  {
    && (forall k :: k in points <==> k in ring.keys)
    && Disk.Sane(ring.file.state)
    && forall i: nat :: i < |ring.keys| ==> ShowsSpan(Disk.Visible(ring.file.state), i, r, WindowOf(r, now), points[ring.keys[i]])
  }

  method FoldAll(cells: map<string, seq<Cell>>, from: int, step: nat, n: nat) returns (points: map<string, seq<Point>>)
    requires step >= 60 && forall k :: k in cells ==> |cells[k]| == n * (step / 60)
    ensures points.Keys == cells.Keys && forall k :: k in points ==> FoldedTo(cells[k], from, step, n, points[k])
  {
    hide FoldedTo;
    points := map[];
    var todo := cells.Keys;
    while todo != {}
      invariant todo <= cells.Keys && points.Keys == cells.Keys - todo
      invariant forall k :: k in points ==> FoldedTo(cells[k], from, step, n, points[k])
      decreases |todo|
    {
      var k :| k in todo;
      var pts := Buckets(cells[k], from, step, n);
      points, todo := points[k := pts], todo - {k};
    }
  }

  method QueryMinutes(ring: RingFiles.RingFile, r: Range, now: int, readable: bool) returns (res: RingFiles.Outcome<map<string, seq<Point>>>)
    requires ring.Valid() && r != Live
    ensures ring.closed ==> res == RingFiles.Failure(RingFiles.Closed)
    ensures !ring.closed && !readable ==> res == RingFiles.Failure(RingFiles.Io)
    ensures !ring.closed && readable ==> res.Done?
    ensures res.Done? ==> ShowsMinutes(ring, r, now, res.value)
  {
    hide FoldedTo, WindowOf, ring.Valid, ring.ShowsSeries;
    WindowFits(r, now);
    var w := WindowOf(r, now);
    var cells := ring.ReadWindow(w.fromMin, w.toMin, [], readable);
    if cells.Failure? {
      return RingFiles.Failure(cells.error);
    }
    ghost var n := PointsOf(r) * (StepOf(r) / 60);
    assert forall k :: k in cells.value <==> k in ring.keys;
    forall k | k in cells.value ensures |cells.value[k]| == n {
      var i: nat :| i < |ring.keys| && ring.keys[i] == k;
      ShownCells(ring, i, w.fromMin, n, cells.value[k]);
    }
    var points := FoldAll(cells.value, w.from, StepOf(r), PointsOf(r));
    SaneRing(ring);
    forall i: nat | i < |ring.keys| ensures ShowsSpan(Disk.Visible(ring.file.state), i, r, w, points[ring.keys[i]]) {
      ShownCells(ring, i, w.fromMin, n, cells.value[ring.keys[i]]);
    }
    res := RingFiles.Done(points);
  }

  lemma SaneRing(ring: RingFiles.RingFile)
    requires ring.Valid()
    ensures Disk.Sane(ring.file.state)
  {
    RingRuns.InvSane(ring.ring);
  }

  lemma ShownCells(ring: RingFiles.RingFile, i: nat, from: int, n: nat, cells: seq<Cell>)
    requires ring.ShowsSeries(i, from, n, cells)
    ensures Disk.Sane(ring.file.state) && Disk.ValueAt(i + 1, 0, 0) <= |Disk.Visible(ring.file.state).vals|
    ensures cells == CellsIn(Disk.Visible(ring.file.state), i, from, n)
  {
    hide Disk.Visible;
  }

  datatype QueryError = StoreClosed | UnknownItem | Unreadable

  /** Times of the first and the last point, and the series. */
  datatype Answer = Answer(from: int, to: int, series: seq<Series>) | NoAnswer(error: QueryError)

  /** What a query of item e answers when it does not fail. */
  ghost predicate Answers(e: Entries.Entry, r: Range, now: int, res: Answer)
    requires res.Answer?
    reads e, e.ring, e.ring.file, e.live
  {
    if r == Live then
      && res.to == LiveRings.LIVE_STEP * TruncDiv(now, LiveRings.LIVE_STEP)
      && res.from == res.to - (LIVE_SLOTS - 1) * LiveRings.LIVE_STEP
      && exists points :: ShowsLive(e.live, now, points) && Lists(points, res.series)
    else
      && res.from == WindowOf(r, now).from && res.to == WindowOf(r, now).to
      && exists points :: ShowsMinutes(e.ring, r, now, points) && Lists(points, res.series)
  }

  /**
   * Query of the store. found and closed are what the lookup saw; a ring closed
   * since then means that the store was closed (closedSince) or the item removed.
   * readable: every read of the file works.
   */
  method Query(found: Option<Entries.Entry>, closed: bool, closedSince: bool, r: Range, now: int, readable: bool) returns (res: Answer)
    requires found.Some? ==> found.value.Valid()
    ensures closed ==> res == NoAnswer(StoreClosed)
    ensures !closed && found.None? ==> res == NoAnswer(UnknownItem)
    ensures !closed && found.Some? && res.Answer? ==> Answers(found.value, r, now, res)
    ensures !closed && found.Some? && r == Live ==> res.Answer?
    ensures !closed && found.Some? && r != Live && found.value.ring.closed ==> res == NoAnswer(if closedSince then StoreClosed else UnknownItem)
    ensures !closed && found.Some? && r != Live && !found.value.ring.closed && !readable ==> res == NoAnswer(Unreadable)
    ensures !closed && found.Some? && r != Live && !found.value.ring.closed && readable ==> res.Answer?
  {
    hide ShowsMinutes, ShowsLive, Lists, WindowOf;
    if closed {
      return NoAnswer(StoreClosed);
    }
    if found.None? {
      return NoAnswer(UnknownItem);
    }
    var e := found.value;
    if r == Live {
      var to := LiveRings.LIVE_STEP * TruncDiv(now, LiveRings.LIVE_STEP);
      var points := QueryLive(e.live, now);
      var series := List(points);
      return Answer(to - (LIVE_SLOTS - 1) * LiveRings.LIVE_STEP, to, series);
    }
    var points := QueryMinutes(e.ring, r, now, readable);
    if points.Failure? {
      return NoAnswer(if points.error != RingFiles.Closed then Unreadable else if closedSince then StoreClosed else UnknownItem);
    }
    var series := List(points.value);
    res := Answer(WindowOf(r, now).from, WindowOf(r, now).to, series);
  }

  /** The newest committed minute, 0 when the ring holds fewer than n, and every series over the n minutes that end there. stamps and columns: these reads of the file work. */
  method RecentMinutes(ring: RingFiles.RingFile, n: nat, stamps: bool, columns: bool) returns (res: RingFiles.Outcome<(nat, map<string, seq<Cell>>)>)
    requires ring.Valid() && 1 <= n <= MINUTES
    ensures ring.closed ==> res == RingFiles.Failure(RingFiles.Closed)
    ensures !ring.closed && !stamps ==> res == RingFiles.Failure(RingFiles.Io)
    ensures !ring.closed && stamps && columns ==> res.Done?
    ensures res.Failure? && !ring.closed && stamps ==> res == RingFiles.Failure(RingFiles.Io) && !columns
    ensures res.Done? ==> Disk.Sane(ring.file.state)
    ensures res.Done? ==> var newest := Newest(Disk.Visible(ring.file.state).stamps);
                          res.value.0 == (if newest < n then 0 else newest)
    ensures res.Done? && res.value.0 == 0 ==> res.value.1 == map[]
    ensures res.Done? && res.value.0 > 0 ==>
              (forall k :: k in res.value.1 <==> k in ring.keys)
              && forall i: nat :: i < |ring.keys| ==> ring.ShowsSeries(i, res.value.0 - n + 1, n, res.value.1[ring.keys[i]])
  {
    hide ring.Valid, ring.ShowsSeries, Disk.Visible, Newest;
    SaneRing(ring);
    var newest := ring.NewestMinute(stamps);
    if newest.Failure? {
      return RingFiles.Failure(newest.error);
    }
    if newest.value < n {
      return RingFiles.Done((0, map[]));
    }
    var cells := ring.ReadWindow(newest.value - n + 1, newest.value, [], columns);
    if cells.Failure? {
      return RingFiles.Failure(cells.error);
    }
    assert forall i: nat :: i < |ring.keys| ==> ring.Asked([], ring.keys[i]);
    res := RingFiles.Done((newest.value, cells.value));
  }

  // ---------------------------------------------------------------- what the points say of the committed minutes

  function PerPoint(r: Range): nat {
    StepOf(r) / 60
  }

  /** The first minute of point b. */
  function SpanStart(r: Range, w: Window, b: nat): int {
    w.fromMin + b * PerPoint(r)
  }

  function MeasureOf(v: MinuteValue, c: nat): real {
    if c == 0 then v.avg else if c == 1 then v.min else v.max
  }

  /** One of average, least and greatest of each minute that holds a value. */
  function Parts(cells: seq<Cell>, c: nat): seq<real> {
    if cells == [] then []
    else
      var n := |cells| - 1;
      Parts(cells[..n], c) + if cells[n].Some? then [MeasureOf(cells[n].value, c)] else []
  }

  /** The mean of the averages, the least of the least and the greatest of the greatest; a gap without any minute. */
  function MeanOf(cells: seq<Cell>): Cell {
    var avgs, mins, maxs := Parts(cells, 0), Parts(cells, 1), Parts(cells, 2);
    if avgs == [] || mins == [] || maxs == [] then None
    else Some(MinuteValue(RecorderRuns.Total(avgs) / |avgs| as real, RecorderRuns.Least(mins), RecorderRuns.Greatest(maxs)))
  }

  /** The fold of the source computes exactly that. */
  lemma FoldedIsMean(cells: seq<Cell>)
    ensures Folded(cells) == MeanOf(cells)
  {
    PresentParts(cells);
  }

  lemma {:induction false} PresentParts(cells: seq<Cell>)
    ensures var vs := Present(cells);
      && |Parts(cells, 0)| == |Parts(cells, 1)| == |Parts(cells, 2)| == |vs|
      && RecorderRuns.Total(Parts(cells, 0)) == Sum(vs)
      && (vs != [] ==> RecorderRuns.Least(Parts(cells, 1)) == Lowest(vs) && RecorderRuns.Greatest(Parts(cells, 2)) == Highest(vs))
  {
    hide Sum, Lowest, Highest, RecorderRuns.Total, RecorderRuns.Least, RecorderRuns.Greatest;
    if cells == [] {
      NoParts();
    } else {
      var init, last := cells[..|cells| - 1], cells[|cells| - 1];
      PresentParts(init);
      if last.Some? {
        NextValues(Present(init), last.value);
        RecorderRuns.NextValue(Parts(init, 0), last.value.avg);
        RecorderRuns.NextValue(Parts(init, 1), last.value.min);
        RecorderRuns.NextValue(Parts(init, 2), last.value.max);
      } else {
        assert Present(cells) == Present(init) && forall c: nat :: Parts(cells, c) == Parts(init, c);
      }
    }
  }

  lemma NoParts()
    ensures Sum([]) == 0.0 == RecorderRuns.Total([])
  {
  }

  lemma NextValues(vs: seq<MinuteValue>, v: MinuteValue)
    ensures Sum(vs + [v]) == Sum(vs) + v.avg
    ensures Lowest(vs + [v]) == if vs == [] then v.min else MinReal(Lowest(vs), v.min)
    ensures Highest(vs + [v]) == if vs == [] then v.max else MaxReal(Highest(vs), v.max)
  {
    assert (vs + [v])[..|vs|] == vs;
  }

  /** Point b of pts is the mean of these minutes. */
  ghost predicate Folds(r: Range, w: Window, pts: seq<Point>, b: nat, cells: seq<Cell>) {
    |pts| == PointsOf(r) && b < |pts| && pts[b] == Point(w.from + b * StepOf(r), MeanOf(cells))
  }

  /** Minutes whose stamps cannot be mistaken: not minute 0, the one an empty slot looks like, and none a stamp cannot hold. */
  predicate Stampable(from: int, n: nat) {
    -STAMP_LIMIT < from && from + n <= STAMP_LIMIT && !(from <= 0 < from + n)
  }

  function KeptCells(kept: map<nat, Entry>, i: nat, from: int, n: nat): (cells: seq<Cell>)
    ensures |cells| == n
  {
    seq(n, j requires 0 <= j => KeptCell(kept, i, from + j))
  }

  /** Each point folds the minutes of its own span, as the file shows them. */
  lemma PointFoldsSpan(img: Disk.Image, i: nat, r: Range, w: Window, pts: seq<Point>, b: nat)
    requires r != Live && b < PointsOf(r) && Disk.WellFormed(img) && ShowsSpan(img, i, r, w, pts)
    ensures Folds(r, w, pts, b, CellsIn(img, i, SpanStart(r, w, b), PerPoint(r)))
  {
    hide Folded, CellsIn, MeanOf;
    FoldedIsMean(CellsIn(img, i, SpanStart(r, w, b), PerPoint(r)));
    SpanOfWindow(img, i, w.fromMin, PerPoint(r), PointsOf(r), b);
  }

  lemma SpanOfWindow(img: Disk.Image, i: nat, from: int, per: nat, n: nat, b: nat)
    requires b < n && Disk.WellFormed(img) && Disk.ValueAt(i + 1, 0, 0) <= |img.vals|
    ensures BucketOf(CellsIn(img, i, from, n * per), per, n, b) == CellsIn(img, i, from + b * per, per)
  {
    hide ReadCell;
    BucketBounds(per, n, b);
    var cells, part := CellsIn(img, i, from, n * per), CellsIn(img, i, from + b * per, per);
    var start := b * per;
    forall j: nat | j < per ensures cells[start..start + per][j] == part[j] {
      assert cells[start..start + per][j] == cells[start + j] == ReadCell(img, i, from + (start + j));
      assert from + (start + j) == from + start + j;
    }
  }

  lemma InFile(ring: RingFiles.RingFile, i: nat)
    requires ring.Valid() && i < |ring.keys|
    ensures Disk.Sane(ring.file.state) && Disk.ValueAt(i + 1, 0, 0) <= |Disk.Visible(ring.file.state).vals|
  {
    SaneRing(ring);
    SeriesInFile(ring.ring, i);
  }

  lemma KeptReads(ring: RingFiles.RingFile, i: nat, x: int)
    requires ring.Valid() && i < |ring.keys| && -STAMP_LIMIT < x < STAMP_LIMIT && x != 0
    requires SlotOf(x) !in RingStamps.Unclean(ring.ring)
    ensures Disk.Sane(ring.file.state) && Disk.ValueAt(i + 1, 0, 0) <= |Disk.Visible(ring.file.state).vals|
    ensures ReadCell(Disk.Visible(ring.file.state), i, x) == KeptCell(ring.ring.kept, i, x)
  {
    hide RingRuns.Inv, RingStamps.Unclean;
    RingRuns.InvSane(ring.ring);
    ReadRefinesMap(ring.ring, i, x);
  }

  /** Point b shows what file reads say minute by minute. */
  lemma PointShows(ring: RingFiles.RingFile, r: Range, now: int, points: map<string, seq<Point>>, i: nat, b: nat, cells: seq<Cell>)
    requires ring.Valid() && r != Live && ShowsMinutes(ring, r, now, points) && i < |ring.keys| && b < PointsOf(r)
    requires Disk.Sane(ring.file.state) && Disk.ValueAt(i + 1, 0, 0) <= |Disk.Visible(ring.file.state).vals|
    requires |cells| == PerPoint(r)
    requires var from := SpanStart(r, WindowOf(r, now), b);
             forall x :: from <= x < from + PerPoint(r) ==> ReadCell(Disk.Visible(ring.file.state), i, x) == cells[x - from]
    ensures ring.keys[i] in points && Folds(r, WindowOf(r, now), points[ring.keys[i]], b, cells)
  {
    hide WindowOf, RingFiles.RingFile.Valid, ReadCell, Disk.Visible, Folds, ShowsSpan, SpanStart;
    var w := WindowOf(r, now);
    PointFoldsSpan(Disk.Visible(ring.file.state), i, r, w, points[ring.keys[i]], b);
    var from, read := SpanStart(r, w, b), CellsIn(Disk.Visible(ring.file.state), i, SpanStart(r, w, b), PerPoint(r));
    forall j: nat | j < PerPoint(r) ensures read[j] == cells[j] {
      assert ReadCell(Disk.Visible(ring.file.state), i, from + j) == cells[from + j - from];
    }
    assert read == cells;
  }

  /**
   * Every point of a query folds exactly the kept minutes of its span, as they
   * were written, when no slot of the span has the traces of a failed commit.
   */
  lemma QueryRefinesMap(ring: RingFiles.RingFile, r: Range, now: int, points: map<string, seq<Point>>, i: nat, b: nat)
    requires ring.Valid() && r != Live && ShowsMinutes(ring, r, now, points) && i < |ring.keys| && b < PointsOf(r)
    requires Stampable(SpanStart(r, WindowOf(r, now), b), PerPoint(r))
    requires var from := SpanStart(r, WindowOf(r, now), b);
             forall x :: from <= x < from + PerPoint(r) ==> SlotOf(x) !in RingStamps.Unclean(ring.ring)
    ensures ring.keys[i] in points
    ensures Folds(r, WindowOf(r, now), points[ring.keys[i]], b, KeptCells(ring.ring.kept, i, SpanStart(r, WindowOf(r, now), b), PerPoint(r)))
  {
    hide WindowOf, RingFiles.RingFile.Valid, ReadCell, Disk.Visible, Folds, KeptCell, RingStamps.Unclean, ShowsMinutes, SpanStart, SlotOf;
    InFile(ring, i);
    var from, n := SpanStart(r, WindowOf(r, now), b), PerPoint(r);
    var kept := KeptCells(ring.ring.kept, i, from, n);
    forall x | from <= x < from + n ensures ReadCell(Disk.Visible(ring.file.state), i, x) == kept[x - from] {
      KeptReads(ring, i, x);
      assert from + (x - from) == x;
    }
    PointShows(ring, r, now, points, i, b, kept);
  }

  /**
   * From samples to disk and back: once the commit of a minute returned, the
   * minute reads back for each key as the exact mean, least and greatest of the
   * values recorded for it, and as a gap for a key without any.
   */
  lemma CommittedReadsBack(ring: RingFiles.RingFile, before: RingSafety.Ring, minute: nat, samples: seq<RecorderRuns.Accepted>, i: nat)
    requires ring.Valid() && 0 < minute < STAMP_LIMIT && i < |ring.keys|
    requires Entries.Wrote(before, ring.ring, minute, RecorderRuns.Gathered(samples), ring.keys)
    ensures Disk.Sane(ring.file.state) && Disk.ValueAt(i + 1, 0, 0) <= |Disk.Visible(ring.file.state).vals|
    ensures ReadCell(Disk.Visible(ring.file.state), i, minute) == RecorderLogs.StatsOf(RecorderRuns.ValuesOf(samples, ring.keys[i]))
  {
    hide RingRuns.Inv, RingStamps.Unclean, Disk.Visible, ReadCell, RecorderRuns.Summary, RecorderRuns.Gathered, RecorderRuns.ValuesOf;
    hide RecorderRuns.Total, RecorderRuns.Least, RecorderRuns.Greatest;
    KeptReads(ring, i, minute);
    RecorderRuns.SummaryExact(samples, ring.keys[i]);
  }

  // ---------------------------------------------------------------- from what was recorded to what a query shows

  /** The last commit of the slot of each of these minutes returned; or none was tried, and the slot was clean when the item was opened. */
  ghost predicate SpanReadable(e: Entries.Entry, from: int, n: nat)
    reads e
  {
    forall x :: from <= x < from + n ==> RecorderLogs.Readable(e.start, e.h.ended, SlotOf(x))
  }

  /**
   * After any run of an item, on any ring it was opened with, clock steps and
   * failed commits included: reading a minute whose slot can be read gives
   * exactly what was last recorded there.
   */
  lemma ItemShowsLast(e: Entries.Entry, i: nat, x: int)
    requires e.Valid() && i < |e.ring.keys| && -STAMP_LIMIT < x < STAMP_LIMIT && x != 0
    requires RecorderLogs.Readable(e.start, e.h.ended, SlotOf(x))
    ensures Disk.Sane(e.ring.file.state) && Disk.ValueAt(i + 1, 0, 0) <= |Disk.Visible(e.ring.file.state).vals|
    ensures ReadCell(Disk.Visible(e.ring.file.state), i, x) ==
            RecorderLogs.LastRecorded(e.start.kept, e.h.ended, e.ring.keys[i], i, x)
  {
    hide RingRuns.Inv, RingStamps.Unclean, Disk.Visible, ReadCell, RecorderRuns.Inv, RecorderLogs.Filed, RecorderLogs.Holds;
    hide RecorderLogs.LastRecorded, RecorderLogs.Readable, Recorders.Fits;
    RecorderLogs.LastRecordedHeld(e.h, e.start, e.ring.ring, i, x);
    KeptReads(e.ring, i, x);
  }

  /** Minute x is within a lap of the last minute that is over, and what the ring held of it when the item was opened does not show. */
  ghost predicate OfThisRun(e: Entries.Entry, x: int)
    reads e
  {
    && (e.h.ended != [] ==> x > e.h.ended[|e.h.ended| - 1].minute - MINUTES)
    && (Lookup(e.start.kept, x).None? || exists b :: b in e.h.ended && b.minute == x)
  }

  /**
   * While the clock does not step back, reading a minute of the last lap gives
   * exactly the mean, least and greatest of the values Record accepted for the
   * key in that minute, once it is over, and a gap where none was.
   */
  lemma ItemShowsRecorded(e: Entries.Entry, i: nat, x: int)
    requires e.Valid() && e.h.era == 0 && i < |e.ring.keys| && -STAMP_LIMIT < x < STAMP_LIMIT && x != 0
    requires RecorderLogs.Readable(e.start, e.h.ended, SlotOf(x)) && OfThisRun(e, x)
    ensures Disk.Sane(e.ring.file.state) && Disk.ValueAt(i + 1, 0, 0) <= |Disk.Visible(e.ring.file.state).vals|
    ensures ReadCell(Disk.Visible(e.ring.file.state), i, x) ==
            RecorderLogs.RecordedCell(RecorderRuns.SamplesOf(e.h.ended), x, e.ring.keys[i])
  {
    hide RingRuns.Inv, Disk.Visible, ReadCell, RecorderRuns.Inv, RecorderLogs.Filed, RecorderLogs.Holds, RecorderLogs.Readable;
    hide RecorderRuns.SamplesOf, RecorderLogs.RecordedCell, RecorderLogs.LastRecorded, Recorders.Fits;
    ItemShowsLast(e, i, x);
    RecorderLogs.LastIsRecorded(e.h, e.start, i, x);
  }

  function LastCells(start: map<nat, Entry>, ended: seq<RecorderRuns.Batch>, key: string, i: nat, from: int, n: nat): (cells: seq<Cell>)
    ensures |cells| == n
  {
    seq(n, j requires 0 <= j => RecorderLogs.LastRecorded(start, ended, key, i, from + j))
  }

  function RecordedCells(samples: seq<RecorderRuns.Accepted>, key: string, from: int, n: nat): (cells: seq<Cell>)
    ensures |cells| == n
  {
    seq(n, j requires 0 <= j => RecorderLogs.RecordedCell(samples, from + j, key))
  }

  /** So every point of a query of any item folds exactly what was last recorded in the minutes of its span. */
  lemma QueryShowsLast(e: Entries.Entry, r: Range, now: int, points: map<string, seq<Point>>, i: nat, b: nat)
    requires e.Valid() && r != Live && ShowsMinutes(e.ring, r, now, points) && i < |e.ring.keys| && b < PointsOf(r)
    requires var from := SpanStart(r, WindowOf(r, now), b); Stampable(from, PerPoint(r)) && SpanReadable(e, from, PerPoint(r))
    ensures e.ring.keys[i] in points
    ensures Folds(r, WindowOf(r, now), points[e.ring.keys[i]], b,
                  LastCells(e.start.kept, e.h.ended, e.ring.keys[i], i, SpanStart(r, WindowOf(r, now), b), PerPoint(r)))
  {
    hide WindowOf, e.Valid, RingFiles.RingFile.Valid, ReadCell, Disk.Visible, Folds, ShowsMinutes, SpanStart, SlotOf;
    hide RecorderLogs.LastRecorded, RecorderLogs.Readable;
    ValidRing(e);
    InFile(e.ring, i);
    var from, n, key := SpanStart(r, WindowOf(r, now), b), PerPoint(r), e.ring.keys[i];
    var last := LastCells(e.start.kept, e.h.ended, key, i, from, n);
    forall x | from <= x < from + n ensures ReadCell(Disk.Visible(e.ring.file.state), i, x) == last[x - from] {
      ItemShowsLast(e, i, x);
      assert from + (x - from) == x;
    }
    PointShows(e.ring, r, now, points, i, b, last);
  }

  /** And exactly what was recorded in those minutes, while the clock does not step back. */
  lemma QueryShowsRecorded(e: Entries.Entry, r: Range, now: int, points: map<string, seq<Point>>, i: nat, b: nat)
    requires e.Valid() && e.h.era == 0 && r != Live && ShowsMinutes(e.ring, r, now, points) && i < |e.ring.keys| && b < PointsOf(r)
    requires var from := SpanStart(r, WindowOf(r, now), b);
      && Stampable(from, PerPoint(r)) && SpanReadable(e, from, PerPoint(r))
      && forall x :: from <= x < from + PerPoint(r) ==> OfThisRun(e, x)
    ensures e.ring.keys[i] in points
    ensures Folds(r, WindowOf(r, now), points[e.ring.keys[i]], b,
                  RecordedCells(RecorderRuns.SamplesOf(e.h.ended), e.ring.keys[i], SpanStart(r, WindowOf(r, now), b), PerPoint(r)))
  {
    hide WindowOf, e.Valid, RingFiles.RingFile.Valid, ReadCell, Disk.Visible, Folds, ShowsMinutes, SpanStart, SlotOf;
    hide RecorderLogs.RecordedCell, RecorderLogs.Readable, RecorderRuns.SamplesOf, OfThisRun;
    ValidRing(e);
    InFile(e.ring, i);
    var from, n, key, samples := SpanStart(r, WindowOf(r, now), b), PerPoint(r), e.ring.keys[i], RecorderRuns.SamplesOf(e.h.ended);
    var recorded := RecordedCells(samples, key, from, n);
    forall x | from <= x < from + n ensures ReadCell(Disk.Visible(e.ring.file.state), i, x) == recorded[x - from] {
      ItemShowsRecorded(e, i, x);
      assert from + (x - from) == x;
    }
    PointShows(e.ring, r, now, points, i, b, recorded);
  }

  lemma ValidRing(e: Entries.Entry)
    requires e.Valid()
    ensures e.ring.Valid()
  {
  }

  /** Every value of the map is ordered: min <= avg <= max. */
  ghost predicate OrderedMap(kept: map<nat, Entry>) {
    forall slot, i: nat :: slot in kept && CellOf(kept[slot], i).Some? ==> OrderedValue(CellOf(kept[slot], i).value)
  }

  /** What an item commits is ordered, so its ring stays so, for whoever opens it next. */
  lemma RingStaysOrdered(e: Entries.Entry)
    requires e.Valid() && OrderedMap(e.start.kept)
    ensures OrderedMap(e.ring.ring.kept)
  {
    hide RingRuns.Inv, RecorderRuns.Inv, RecorderLogs.Filed, RecorderLogs.SlotHolds, Recorders.Fits, OrderedValue, CellOf, RecorderLogs.EntryFor;
    forall slot, i: nat | slot in e.ring.ring.kept && CellOf(e.ring.ring.kept[slot], i).Some?
      ensures OrderedValue(CellOf(e.ring.ring.kept[slot], i).value)
    {
      assert RecorderLogs.SlotFrom(e.start, e.h.ended, e.ring.ring, slot);
      if !RecorderLogs.SameSlot(e.start.kept, e.ring.ring.kept, slot) {
        var b :| b in e.h.ended && b.end == RecorderRuns.Committed && RecorderLogs.EntryFor(b) == e.ring.ring.kept[slot];
        EntryOrdered(b, i);
      }
    }
  }

  lemma EntryOrdered(b: RecorderRuns.Batch, i: nat)
    ensures var c := CellOf(RecorderLogs.EntryFor(b), i); c.Some? ==> OrderedValue(c.value)
  {
    if i < |b.known| {
      RecorderRuns.SummaryExact(b.samples, b.known[i]);
    }
  }

  lemma LastOrdered(start: map<nat, Entry>, ended: seq<RecorderRuns.Batch>, key: string, i: nat, x: int)
    requires OrderedMap(start)
    ensures var c := RecorderLogs.LastRecorded(start, ended, key, i, x); c.Some? ==> OrderedValue(c.value)
  {
    hide RecorderRuns.ValuesOf, RecorderRuns.Gathered, RecorderRuns.Total, RecorderRuns.Least, RecorderRuns.Greatest, OrderedValue, CellOf;
    var last := RecorderLogs.LastTry(ended, SlotOf(x));
    if last.Some? {
      RecorderRuns.SummaryExact(last.value.samples, key);
    }
  }

  predicate AllGaps(cells: seq<Cell>) {
    forall c :: c in cells ==> c == None
  }

  /** Every point of a query has min <= avg <= max, and is a gap exactly when nothing was recorded in its span. */
  lemma PointsOrdered(e: Entries.Entry, r: Range, now: int, points: map<string, seq<Point>>, i: nat, b: nat)
    requires e.Valid() && r != Live && ShowsMinutes(e.ring, r, now, points) && i < |e.ring.keys| && b < PointsOf(r)
    requires var from := SpanStart(r, WindowOf(r, now), b); Stampable(from, PerPoint(r)) && SpanReadable(e, from, PerPoint(r))
    requires OrderedMap(e.start.kept)
    ensures e.ring.keys[i] in points && |points[e.ring.keys[i]]| == PointsOf(r)
    ensures var point := points[e.ring.keys[i]][b];
      && (point.value.Some? ==> OrderedValue(point.value.value))
      && (point.value.None? <==>
            AllGaps(LastCells(e.start.kept, e.h.ended, e.ring.keys[i], i, SpanStart(r, WindowOf(r, now), b), PerPoint(r))))
  {
    QueryShowsLast(e, r, now, points, i, b);
    hide WindowOf, e.Valid, ShowsMinutes, SpanStart, SlotOf, LastCells, Folded, MeanOf, OrderedMap, OrderedValue, Stampable, SpanReadable;
    var cells := LastCells(e.start.kept, e.h.ended, e.ring.keys[i], i, SpanStart(r, WindowOf(r, now), b), PerPoint(r));
    LastCellsOrdered(e.start.kept, e.h.ended, e.ring.keys[i], i, SpanStart(r, WindowOf(r, now), b), PerPoint(r));
    FoldedMeans(cells);
    FoldedIsMean(cells);
  }

  lemma LastCellsOrdered(start: map<nat, Entry>, ended: seq<RecorderRuns.Batch>, key: string, i: nat, from: int, n: nat)
    requires OrderedMap(start)
    ensures forall v :: Some(v) in LastCells(start, ended, key, i, from, n) ==> OrderedValue(v)
  {
    hide RecorderLogs.LastRecorded, OrderedValue, OrderedMap;
    var cells := LastCells(start, ended, key, i, from, n);
    forall j: nat | j < n ensures cells[j].Some? ==> OrderedValue(cells[j].value) {
      LastOrdered(start, ended, key, i, from + j);
    }
  }

  /** The log of an item: what its ring held when it was opened, and the commits since. No commit failed. */
  ghost predicate Logged(e: Entries.Entry, before: seq<Entry>)
    reads e
  {
    && e.start.kept == MapAfter(before) && Clean(e.start)
    && forall b :: b in e.h.ended ==> b.end != RecorderRuns.CommitFailed
  }

  /** The ring of such an item holds its log and shows nothing else; when its minutes increase the newest of the file is the last of them. */
  lemma RingHoldsLog(e: Entries.Entry, before: seq<Entry>)
    requires e.Valid() && Logged(e, before)
    ensures var log := before + RecorderLogs.LogOf(e.h.ended);
      && e.ring.ring.kept == MapAfter(log) && Clean(e.ring.ring) && Disk.Sane(e.ring.file.state)
      && (log != [] && Increasing(log) ==> Newest(Disk.Visible(e.ring.file.state).stamps) == log[|log| - 1].minute)
  {
    hide RingRuns.Inv, RingStamps.Unclean, Disk.Visible, RecorderRuns.Inv, RecorderLogs.Holds, Recorders.Fits;
    hide RecorderLogs.LogOf, MapAfter, Newest, Increasing;
    var log := before + RecorderLogs.LogOf(e.h.ended);
    SaneRing(e.ring);
    RecorderLogs.HoldsLog(e.start, before, e.h.ended, e.ring.ring);
    if log != [] && Increasing(log) {
      NewestIsLast(e.ring.ring, log);
    }
  }
}

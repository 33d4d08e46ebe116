/** Queries (query.go): the window of a range, and the fold of its minutes into points. */
module Queries {
  import opened Types

  // ---------------------------------------------------------------- rounding down

  /** x rounded down to a multiple of m, as the code computes it. */
  function FloorTo(x: int, m: int): int
    requires m > 0
  {
    x - TruncMod(TruncMod(x, m) + m, m)
  }

  lemma Divided(x: int, m: int, q: int, r: int)
    requires 0 <= r < m && x == m * q + r
    ensures q == x / m && r == x % m
  {
    var d := q - x / m;
    assert m * d == x % m - r by {
      assert x == m * (x / m) + x % m;
    }
    assert d >= 1 ==> m * d >= m;
    assert d <= -1 ==> m * d <= -m;
  }

  /** The remainder that truncates differs from the one that floors by m for negative inexact x. */
  lemma TruncModIs(x: int, m: int)
    requires m > 0
    ensures TruncMod(x, m) == if x >= 0 || x % m == 0 then x % m else x % m - m
  {
    if x < 0 {
      var q, r := -x / m, -x % m;
      assert -x == m * q + r;
      if r == 0 {
        Divided(x, m, -q, 0);
      } else {
        assert x == m * (-q - 1) + (m - r);
        Divided(x, m, -q - 1, m - r);
      }
    }
  }

  /** The largest multiple of m up to x, negative x included. */
  lemma FloorToIsFloor(x: int, m: int)
    requires m > 0
    ensures FloorTo(x, m) == m * (x / m)
    ensures FloorTo(x, m) <= x < FloorTo(x, m) + m
  {
    TruncModIs(x, m);
    var r := TruncMod(x, m) + m;
    TruncModIs(r, m);
    Divided(r, m, if r >= m then 1 else 0, if r >= m then r - m else r);
  }

  // ---------------------------------------------------------------- windows

  datatype Range = Live | Last15m | Last1h | Last24h | Last7d

  /** Seconds per point. */
  function StepOf(r: Range): (step: nat)
    ensures r != Live ==> step % 60 == 0 && step >= 60
  {
    match r case Live => 5 case Last15m => 60 case Last1h => 60 case Last24h => 300 case Last7d => 1800
  }

  function PointsOf(r: Range): nat {
    match r case Live => LIVE_SLOTS case Last15m => 15 case Last1h => 60 case Last24h => 288 case Last7d => 336
  }

  /** The ranges in seconds: how far each reaches and how far apart its points are. */
  lemma RangeSpans()
    ensures PointsOf(Live) * StepOf(Live) == 900 && StepOf(Live) == 5
    ensures PointsOf(Last15m) * StepOf(Last15m) == 900 && StepOf(Last15m) == 60
    ensures PointsOf(Last1h) * StepOf(Last1h) == 3600 && StepOf(Last1h) == 60
    ensures PointsOf(Last24h) * StepOf(Last24h) == 86400 && StepOf(Last24h) == 300
    ensures PointsOf(Last7d) * StepOf(Last7d) == 604800 && StepOf(Last7d) == 1800
  {
  }

  /** First and last point in Unix seconds, and the minutes read for them. */
  datatype Window = Window(from: int, to: int, fromMin: int, toMin: int)

  function WindowOf(r: Range, now: int): Window
    requires r != Live
  {
    var step := StepOf(r);
    var to := FloorTo(FloorTo(now, 60) - 60, step);
    var from := to - (PointsOf(r) - 1) * step;
    Window(from, to, TruncDiv(from, 60), TruncDiv(to, 60) + step / 60 - 1)
  }

  /**
   * For every clock and range: the minutes read are exactly those of the points,
   * at most 10 080, and exactly that for seven days; the last point holds the
   * last complete minute and no later point would.
   */
  lemma WindowFits(r: Range, now: int)
    requires r != Live
    ensures var w, per := WindowOf(r, now), StepOf(r) / 60;
      && w.from == 60 * w.fromMin && w.to == w.from + (PointsOf(r) - 1) * StepOf(r)
      && w.toMin - w.fromMin + 1 == PointsOf(r) * per
      && 1 <= PointsOf(r) * per <= MINUTES && (r == Last7d ==> PointsOf(r) * per == MINUTES)
      && w.to <= 60 * (now / 60 - 1) < w.to + StepOf(r)
  {
    var step := StepOf(r);
    var last := FloorTo(now, 60) - 60;
    FloorToIsFloor(now, 60);
    FloorToIsFloor(last, step);
    hide FloorTo;
    MinutesOf(r, FloorTo(last, step), last / step);
  }

  lemma MinutesOf(r: Range, to: int, q: int)
    requires r != Live && to == StepOf(r) * q
    ensures to == 60 * TruncDiv(to, 60)
    ensures var from := to - (PointsOf(r) - 1) * StepOf(r);
            from == 60 * TruncDiv(from, 60) && TruncDiv(to, 60) - TruncDiv(from, 60) == (PointsOf(r) - 1) * (StepOf(r) / 60)
  {
    hide TruncDiv;
    match r {
      case Last15m => Sixtieth(q); Sixtieth(q - 14);
      case Last1h => Sixtieth(q); Sixtieth(q - 59);
      case Last24h => Sixtieth(5 * q); Sixtieth(5 * (q - 287));
      case Last7d => Sixtieth(30 * q); Sixtieth(30 * (q - 335));
    }
  }

  lemma Sixtieth(k: int)
    ensures TruncDiv(60 * k, 60) == k
  {
  }

  // ---------------------------------------------------------------- folding minutes into points

  /** A point of a chart; no value is a gap. */
  datatype Point = Point(t: int, value: Cell)

  /** The minutes that hold a value. */
  function Present(cells: seq<Cell>): seq<MinuteValue> {
    if cells == [] then []
    else Present(cells[..|cells| - 1]) + if cells[|cells| - 1].Some? then [cells[|cells| - 1].value] else []
  }

  function Sum(vs: seq<MinuteValue>): real {
    if vs == [] then 0.0 else Sum(vs[..|vs| - 1]) + vs[|vs| - 1].avg
  }

  function Lowest(vs: seq<MinuteValue>): (lo: real)
    requires vs != []
    ensures (forall v :: v in vs ==> lo <= v.min) && exists v :: v in vs && v.min == lo
  {
    var v := vs[|vs| - 1];
    assert v in vs;
    if |vs| == 1 then v.min else
    var rest := vs[..|vs| - 1];
    assert forall u :: u in rest ==> u in vs;
    MinReal(Lowest(rest), v.min)
  }

  function Highest(vs: seq<MinuteValue>): (hi: real)
    requires vs != []
    ensures (forall v :: v in vs ==> hi >= v.max) && exists v :: v in vs && v.max == hi
  {
    var v := vs[|vs| - 1];
    assert v in vs;
    if |vs| == 1 then v.max else
    var rest := vs[..|vs| - 1];
    assert forall u :: u in rest ==> u in vs;
    MaxReal(Highest(rest), v.max)
  }

  /** Mean of the averages, lowest minimum, highest maximum; a gap without any minute. */
  function Folded(cells: seq<Cell>): Cell {
    var vs := Present(cells);
    if vs == [] then None else Some(MinuteValue(Sum(vs) / |vs| as real, Lowest(vs), Highest(vs)))
  }

  predicate OrderedValue(v: MinuteValue) {
    v.min <= v.avg <= v.max
  }

  lemma {:induction false} PresentIff(cells: seq<Cell>, v: MinuteValue)
    ensures v in Present(cells) <==> Some(v) in cells
  {
    if cells != [] {
      PresentIff(cells[..|cells| - 1], v);
    }
  }

  lemma {:induction false} SumBetween(vs: seq<MinuteValue>, lo: real, hi: real)
    requires forall v :: v in vs ==> lo <= v.avg <= hi
    ensures |vs| as real * lo <= Sum(vs) <= |vs| as real * hi
  {
    if vs != [] {
      SumBetween(vs[..|vs| - 1], lo, hi);
      var n := (|vs| - 1) as real;
      assert |vs| as real == n + 1.0;
      assert (n + 1.0) * lo == n * lo + lo && (n + 1.0) * hi == n * hi + hi;
    }
  }

  /** A point is a gap exactly when none of its minutes is there; else its extremes are those of its minutes and enclose its mean. */
  lemma FoldedMeans(cells: seq<Cell>)
    requires forall v :: Some(v) in cells ==> OrderedValue(v)
    ensures Folded(cells) == None <==> forall c :: c in cells ==> c == None
    ensures Folded(cells).Some? ==>
              && OrderedValue(Folded(cells).value)
              && (forall v :: Some(v) in cells ==> Folded(cells).value.min <= v.min && v.max <= Folded(cells).value.max)
              && (exists v :: Some(v) in cells && v.min == Folded(cells).value.min)
              && (exists v :: Some(v) in cells && v.max == Folded(cells).value.max)
  {
    var vs := Present(cells);
    forall v ensures v in vs <==> Some(v) in cells {
      PresentIff(cells, v);
    }
    forall c | c in cells ensures c.Some? ==> |vs| > 0 {
      if c.Some? {
        assert c.value in vs;
      }
    }
    if vs != [] {
      assert vs[0] in vs && Some(vs[0]) in cells;
      hide Present, Sum;
      assert forall v :: v in vs ==> OrderedValue(v);
      FoldedOrdered(vs);
    }
  }

  lemma FoldedOrdered(vs: seq<MinuteValue>)
    requires vs != [] && forall v :: v in vs ==> OrderedValue(v)
    ensures Lowest(vs) <= Sum(vs) / |vs| as real <= Highest(vs)
  {
    hide Lowest, Highest, Sum;
    var lo, hi := Lowest(vs), Highest(vs);
    forall v | v in vs ensures lo <= v.avg <= hi {
      assert OrderedValue(v);
    }
    SumBetween(vs, lo, hi);
    Divide(Sum(vs), |vs| as real, lo, hi);
  }

  lemma Divide(sum: real, n: real, lo: real, hi: real)
    requires n > 0.0 && n * lo <= sum <= n * hi
    ensures lo <= sum / n <= hi
  {
    var m := sum / n;
    assert sum == n * m;
    assert m < lo ==> n * m < n * lo;
    assert m > hi ==> n * m > n * hi;
  }

  /** Point b of a window takes minutes b * per up to (b + 1) * per. */
  predicate FoldedTo(cells: seq<Cell>, from: int, step: nat, n: nat, pts: seq<Point>)
    requires step >= 60 && |cells| == n * (step / 60)
  {
    |pts| == n && forall b: nat :: b < n ==> pts[b] == Point(from + b * step, Folded(BucketOf(cells, step / 60, n, b)))
  }

  function BucketOf(cells: seq<Cell>, per: nat, n: nat, b: nat): seq<Cell>
    requires b < n && |cells| == n * per
  {
    BucketBounds(per, n, b);
    cells[b * per..(b + 1) * per]
  }

  lemma BucketBounds(per: nat, n: nat, b: nat)
    requires b < n
    ensures 0 <= b * per <= (b + 1) * per <= n * per
    ensures (b + 1) * per == b * per + per
  {
    var rest := n - b - 1;
    assert (b + 1 + rest) * per == (b + 1) * per + rest * per;
  }

  /** Every minute of the window falls in exactly one point. */
  lemma EachMinuteOnce(per: nat, n: nat, j: nat, b: nat)
    requires per > 0 && j < n * per
    ensures j / per < n
    ensures b * per <= j < (b + 1) * per <==> b == j / per
  {
    var q := j / per;
    assert j == per * q + j % per;
    assert q >= n ==> per * q >= per * n;
    if b * per <= j < (b + 1) * per {
      Divided(j, per, b, j - b * per);
    }
  }

  /** And that is the point whose span of time holds the minute. */
  lemma MinuteInSpan(w: Window, r: Range, now: int, j: nat, b: nat)
    requires r != Live && w == WindowOf(r, now) && j < PointsOf(r) * (StepOf(r) / 60) && b < PointsOf(r)
    ensures w.from + b * StepOf(r) <= 60 * (w.fromMin + j) < w.from + b * StepOf(r) + StepOf(r) <==> b == j / (StepOf(r) / 60)
  {
    WindowFits(r, now);
    hide WindowOf;
    EachMinuteOnce(StepOf(r) / 60, PointsOf(r), j, b);
  }

  /** The fold of the source: sums and extremes kept while the minutes of each point are walked. */
  method Buckets(cells: seq<Cell>, from: int, step: nat, n: nat) returns (pts: seq<Point>)
    requires step >= 60 && |cells| == n * (step / 60)
    ensures FoldedTo(cells, from, step, n, pts)
  {
    var per := step / 60;
    pts := [];
    for b := 0 to n
      invariant |pts| == b
      invariant forall k: nat :: k < b ==> pts[k] == Point(from + k * step, Folded(BucketOf(cells, per, n, k)))
    {
      BucketBounds(per, n, b);
      var value := Bucket(cells[b * per..(b + 1) * per]);
      pts := pts + [Point(from + b * step, value)];
    }
  }

  method Bucket(cells: seq<Cell>) returns (value: Cell)
    ensures value == Folded(cells)
  {
    var sum, lo, hi := 0.0, 0.0, 0.0;
    var cnt := 0;
    for i := 0 to |cells|
      invariant cnt == |Present(cells[..i])| && sum == Sum(Present(cells[..i]))
      invariant cnt > 0 ==> lo == Lowest(Present(cells[..i])) && hi == Highest(Present(cells[..i]))
    {
      NextPresent(cells, i);
      if cells[i].None? {
        continue;
      }
      var c := cells[i].value;
      if cnt == 0 {
        lo, hi := c.min, c.max;
      }
      sum, lo, hi := sum + c.avg, MinReal(lo, c.min), MaxReal(hi, c.max);
      cnt := cnt + 1;
    }
    assert cells[..|cells|] == cells;
    value := if cnt > 0 then Some(MinuteValue(sum / cnt as real, lo, hi)) else None;
  }

  lemma NextPresent(cells: seq<Cell>, i: nat)
    requires i < |cells|
    ensures var before, after := Present(cells[..i]), Present(cells[..i + 1]);
      if cells[i].None? then after == before
      else after == before + [cells[i].value] && Sum(after) == Sum(before) + cells[i].value.avg
           && Lowest(after) == (if before == [] then cells[i].value.min else MinReal(Lowest(before), cells[i].value.min))
           && Highest(after) == (if before == [] then cells[i].value.max else MaxReal(Highest(before), cells[i].value.max))
  {
    assert cells[..i + 1][..i] == cells[..i];
    var before := Present(cells[..i]);
    if cells[i].Some? {
      assert (before + [cells[i].value])[..|before|] == before;
    }
  }
}

/** The last 15 minutes of an item at 5 s, in memory (live.go). */
module LiveRings {
  import opened Types

  const LIVE_STEP := 5   // seconds per slot

  type Sample = map<string, Float>

  /** One put: the slot of its time and the values it stored. */
  datatype Landing = Landing(slot: nat, shown: Sample)

  function IndexOf(slot: int): (i: nat)
    ensures i < LIVE_SLOTS
  {
    slot % LIVE_SLOTS
  }

  /** The last put that landed on ring index i. */
  function LastOn(log: seq<Landing>, i: nat): Option<Landing> {
    if log == [] then None
    else if IndexOf(log[|log| - 1].slot) == i then Some(log[|log| - 1])
    else LastOn(log[..|log| - 1], i)
  }

  function StampOf(log: seq<Landing>, i: nat): int {
    match LastOn(log, i) case None => 0 case Some(p) => p.slot
  }

  function StampsOf(log: seq<Landing>): (stamps: seq<int>)
    ensures |stamps| == LIVE_SLOTS && forall i: nat :: i < LIVE_SLOTS ==> stamps[i] == StampOf(log, i)
  {
    seq(LIVE_SLOTS, i requires 0 <= i => StampOf(log, i))
  }

  function StoredAt(log: seq<Landing>, i: nat, key: string): Float {
    match LastOn(log, i)
    case None => NaN
    case Some(p) => if key in p.shown then p.shown[key] else NaN
  }

  /** What a snapshot shows of key in a slot, a gap being NaN. */
  function Shown(log: seq<Landing>, slot: int, key: string): Float {
    match LastOn(log, IndexOf(slot))
    case None => NaN
    case Some(p) => if p.slot == slot && key in p.shown then p.shown[key] else NaN
  }

  /** log[j] is the last put whose slot falls on the ring index of slot. */
  ghost predicate LastAt(log: seq<Landing>, j: nat, slot: int) {
    && j < |log| && IndexOf(log[j].slot) == IndexOf(slot)
    && forall l :: j < l < |log| ==> IndexOf(log[l].slot) != IndexOf(slot)
  }

  lemma {:induction false} LastOnIff(log: seq<Landing>, slot: int, p: Landing)
    ensures LastOn(log, IndexOf(slot)) == Some(p) <==> exists j: nat :: LastAt(log, j, slot) && log[j] == p
  {
    if log != [] {
      var last := |log| - 1;
      if IndexOf(log[last].slot) == IndexOf(slot) {
        assert LastAt(log, last, slot);
      } else {
        LastOnIff(log[..last], slot, p);
        forall j: nat ensures LastAt(log, j, slot) <==> LastAt(log[..last], j, slot) {
        }
        if exists j: nat :: LastAt(log[..last], j, slot) && log[..last][j] == p {
          var j: nat :| LastAt(log[..last], j, slot) && log[..last][j] == p;
          assert LastAt(log, j, slot) && log[j] == p;
        }
      }
    }
  }

  /**
   * A snapshot shows a value exactly when the last put on the ring index of the
   * slot was for that very slot and stored that value for the key: nothing of an
   * earlier lap, nothing of an earlier put to the same slot.
   */
  lemma ShownIff(log: seq<Landing>, slot: int, key: string, v: Float)
    requires v != NaN
    ensures Shown(log, slot, key) == v <==>
            exists j: nat :: LastAt(log, j, slot) && log[j].slot == slot && key in log[j].shown && log[j].shown[key] == v
  {
    var last := LastOn(log, IndexOf(slot));
    if last.Some? {
      LastOnIff(log, slot, last.value);
    }
    if exists j: nat :: LastAt(log, j, slot) && log[j].slot == slot && key in log[j].shown && log[j].shown[key] == v {
      var j: nat :| LastAt(log, j, slot) && log[j].slot == slot && key in log[j].shown && log[j].shown[key] == v;
      LastOnIff(log, slot, log[j]);
    }
  }

  /** While times do not go back, every slot of the window shows its last put, the window being shorter than a lap. */
  lemma WindowShowsLastPut(log: seq<Landing>, j: nat, last: nat, key: string)
    requires j < |log| && key in log[j].shown
    requires forall k, l :: 0 <= k < l < |log| ==> log[k].slot <= log[l].slot
    requires forall l :: j < l < |log| ==> log[l].slot != log[j].slot
    requires log[|log| - 1].slot <= last && last - LIVE_SLOTS < log[j].slot
    ensures Shown(log, log[j].slot, key) == log[j].shown[key]
  {
    forall l | j < l < |log| ensures IndexOf(log[l].slot) != IndexOf(log[j].slot) {
      assert log[l].slot <= log[|log| - 1].slot;
      LapsApart(log[j].slot, log[l].slot);
    }
    assert LastAt(log, j, log[j].slot);
    LastOnIff(log, log[j].slot, log[j]);
  }

  lemma LapsApart(a: int, b: int)
    ensures a < b < a + LIVE_SLOTS ==> IndexOf(a) != IndexOf(b)
  {
  }

  /** The grid of a snapshot ends at the slot boundary at or before the clock, as documented, exactly for a clock from 1970 on or on a boundary. */
  lemma GridEndsAtFloorIff(now: int)
    ensures TruncDiv(now, LIVE_STEP) * LIVE_STEP == LIVE_STEP * (now / LIVE_STEP) <==> now >= 0 || now % LIVE_STEP == 0
  {
  }

  /** One second before 1970 the grid ends at 0, after the clock; the boundary before it is at -5. */
  lemma GridEndsAfterClock()
    ensures TruncDiv(-1, LIVE_STEP) * LIVE_STEP == 0 && LIVE_STEP * (-1 / LIVE_STEP) == -5
  {
  }

  /** A time before 1970 is never put, so the stamp 0 of an empty index shows nothing under clocks below a lap. */
  lemma NegativeSlotsEmpty(log: seq<Landing>, slot: int, key: string)
    requires slot < 0
    ensures Shown(log, slot, key) == NaN
  {
  }

  // ---------------------------------------------------------------- columns as values

  type Grid = map<string, seq<Float>>

  function Blank(): (col: seq<Float>)
    ensures |col| == LIVE_SLOTS && forall i :: 0 <= i < LIVE_SLOTS ==> col[i] == NaN
  {
    seq(LIVE_SLOTS, _ => NaN)
  }

  predicate Columns(g: Grid) {
    forall k :: k in g ==> |g[k]| == LIVE_SLOTS
  }

  function ColumnIn(g: Grid, key: string): (col: seq<Float>)
    requires Columns(g)
    ensures |col| == LIVE_SLOTS
  {
    if key in g then g[key] else Blank()
  }

  /** g with the values of shown at index i, and nothing else there. */
  function Replaced(g: Grid, i: nat, shown: Sample): (res: Grid)
    requires Columns(g) && i < LIVE_SLOTS
    ensures Columns(res) && res.Keys == g.Keys + shown.Keys
  {
    map k | k in g.Keys + shown.Keys :: ColumnIn(g, k)[i := if k in shown then shown[k] else NaN]
  }

  /** One more value at index i. */
  lemma ReplacedOne(g: Grid, i: nat, shown: Sample, key: string, v: Float)
    requires Columns(g) && i < LIVE_SLOTS && key !in shown
    ensures var r := Replaced(g, i, shown);
            Replaced(g, i, shown[key := v]) == r[key := ColumnIn(r, key)[i := v]]
  {
    var r := Replaced(g, i, shown);
    assert Replaced(g, i, shown[key := v])[key] == ColumnIn(r, key)[i := v];
  }

  /** The columns after log. */
  function GridOf(log: seq<Landing>, keys: set<string>): (res: Grid)
    ensures Columns(res) && res.Keys == keys
  {
    map k | k in keys :: seq(LIVE_SLOTS, i requires 0 <= i => StoredAt(log, i, k))
  }

  predicate KeysOf(log: seq<Landing>, keys: set<string>) {
    forall p :: p in log ==> p.shown.Keys <= keys
  }

  lemma PutOn(log: seq<Landing>, p: Landing, i: nat)
    ensures LastOn(log + [p], i) == if i == IndexOf(p.slot) then Some(p) else LastOn(log, i)
  {
    assert (log + [p])[..|log|] == log;
  }

  lemma {:induction false} UnknownKey(log: seq<Landing>, keys: set<string>, i: nat, key: string)
    requires KeysOf(log, keys) && key !in keys
    ensures StoredAt(log, i, key) == NaN
  {
    if log != [] {
      UnknownKey(log[..|log| - 1], keys, i, key);
    }
  }

  /** Replacing what an index holds is one more put. */
  lemma ReplacedIsPut(log: seq<Landing>, keys: set<string>, p: Landing)
    requires KeysOf(log, keys)
    ensures Replaced(GridOf(log, keys), IndexOf(p.slot), p.shown) == GridOf(log + [p], keys + p.shown.Keys)
  {
    var r, g := Replaced(GridOf(log, keys), IndexOf(p.slot), p.shown), GridOf(log + [p], keys + p.shown.Keys);
    forall k | k in keys + p.shown.Keys ensures r[k] == g[k] {
      forall i: nat | i < LIVE_SLOTS ensures r[k][i] == g[k][i] {
        PutOn(log, p, i);
        if k !in keys {
          UnknownKey(log, keys, i, k);
        }
      }
    }
  }

  // ---------------------------------------------------------------- the ring itself

  class LiveRing {
    const stamp: array<int>                  // slot held by each ring index; 0 = empty
    var series: map<string, array<Float>>    // by key, a value per ring index; NaN = none
    ghost var repr: set<array<Float>>        // the columns
    ghost var log: seq<Landing>              // puts since the last reset

    ghost predicate Shaped()
      reads `series, `repr
    {
      && stamp.Length == LIVE_SLOTS && |series| <= MAX_SERIES
      && (forall k :: k in series ==> series[k] in repr && series[k].Length == LIVE_SLOTS)
      && (forall j, k :: j in series && k in series && j != k ==> series[j] != series[k])
    }

    /** Every column was in before or is new. */
    twostate predicate NewColumns(before: set<array<Float>>)
      reads `repr
    {
      forall o :: o in repr ==> o in before || fresh(o)
    }

    /** What the columns hold. */
    ghost function Held(): (g: Grid)
      requires Shaped()
      reads `series, `repr, repr
      ensures Columns(g) && g.Keys == series.Keys
    {
      map k | k in series :: series[k][..]
    }

    ghost predicate Valid()
      reads this, stamp, repr
    {
      && Shaped() && KeysOf(log, series.Keys)
      && stamp[..] == StampsOf(log)
      && Held() == GridOf(log, series.Keys)
    }

    constructor ()
      ensures Valid() && log == [] && series == map[] && repr == {} && fresh(stamp)
    {
      stamp := new int[LIVE_SLOTS](_ => 0);
      series, repr, log := map[], {}, [];
    }

    /** A new column, without a value. */
    static method NanColumn() returns (a: array<Float>)
      ensures fresh(a) && a.Length == LIVE_SLOTS && a[..] == Blank()
    {
      a := new Float[LIVE_SLOTS](_ => NaN);
    }

    /** Removes the values every column has at index i. */
    method Clear(i: nat)
      requires Shaped() && i < LIVE_SLOTS
      modifies repr
      ensures forall k :: k in series ==> series[k][i] == NaN
      ensures forall k, j :: k in series && 0 <= j < LIVE_SLOTS && j != i ==> series[k][j] == old(series[k][j])
    {
      var todo := series.Keys;
      while todo != {}
        invariant todo <= series.Keys
        invariant forall k :: k in series && k !in todo ==> series[k][i] == NaN
        invariant forall k, j :: k in series && 0 <= j < LIVE_SLOTS && j != i ==> series[k][j] == old(series[k][j])
        decreases |todo|
      {
        var k :| k in todo;
        series[k][i] := NaN;
        todo := todo - {k};
      }
    }

    /** The same, as columns. */
    method ClearIndex(i: nat)
      requires Shaped() && i < LIVE_SLOTS
      modifies repr
      ensures Held() == Replaced(old(Held()), i, map[])
    {
      ghost var g := Held();
      Clear(i);
      forall k | k in series ensures Held()[k] == g[k][i := NaN] {
        assert Held()[k] == series[k][..];
      }
      hide Held, Shaped;
      ClearedIsReplaced(g, Held(), i);
    }

    static lemma ClearedIsReplaced(g: Grid, r: Grid, i: nat)
      requires Columns(g) && i < LIVE_SLOTS && r.Keys == g.Keys
      requires forall k :: k in r ==> r[k] == g[k][i := NaN]
      ensures r == Replaced(g, i, map[])
    {
      hide Blank;
    }

    /** A column for a key that has none. */
    method AddColumn(key: string)
      requires Shaped() && key !in series && |series| < MAX_SERIES
      modifies `series, `repr
      ensures Shaped() && NewColumns(old(repr)) && key in series && series == old(series)[key := series[key]]
      ensures fresh(series[key]) && series[key][..] == Blank()
    {
      hide Blank;
      var col := NanColumn();
      OneMore(series, key, col);
      ghost var before := series;
      series, repr := series[key := col], repr + {col};
      assert forall k :: k in series ==> series[k] == if k == key then col else before[k];
    }

    /** The same, as columns. */
    method AddBlank(key: string)
      requires Shaped() && key !in series && |series| < MAX_SERIES
      modifies `series, `repr
      ensures Shaped() && NewColumns(old(repr))
      ensures series.Keys == old(series.Keys) + {key}
      ensures Held() == old(Held())[key := Blank()]
    {
      hide Blank, Columns;
      ghost var g := Held();
      AddColumn(key);
      assert forall k :: k in series ==> Held()[k] == series[k][..];
    }

    static lemma OneMore(m: map<string, array<Float>>, key: string, col: array<Float>)
      requires key !in m
      ensures |m[key := col]| == |m| + 1
    {
      assert m[key := col] - {key} == m;
    }

    /** Overwrites one value. */
    method Overwrite(i: nat, key: string, v: Float)
      requires Shaped() && i < LIVE_SLOTS && key in series
      modifies repr
      ensures Held() == old(Held())[key := old(Held())[key][i := v]]
    {
      series[key][i] := v;
    }

    /** Stores one value at index i, in a new column if the key has none and the cap allows it. */
    method Store(i: nat, key: string, v: Float) returns (stored: bool)
      requires Shaped() && i < LIVE_SLOTS
      modifies `series, `repr, repr
      ensures Shaped() && NewColumns(old(repr))
      ensures !stored ==> key !in series && |series| == MAX_SERIES && series.Keys == old(series.Keys) && Held() == old(Held())
      ensures stored ==> series.Keys == old(series.Keys) + {key}
      ensures stored ==> Held() == old(Held())[key := ColumnIn(old(Held()), key)[i := v]]
      ensures |old(series)| == MAX_SERIES ==> |series| == MAX_SERIES
    {
      hide Columns, Blank, Held;
      stored := true;
      ghost var g := Held();
      if key !in series {
        if |series| >= MAX_SERIES {
          return false;
        }
        AddBlank(key);
        UpdatedTwice(g, key, Blank(), Blank()[i := v]);
      }
      hide Shaped;
      assert |series| <= MAX_SERIES;
      Overwrite(i, key, v);
    }

    static lemma UpdatedTwice(g: Grid, key: string, a: seq<Float>, b: seq<Float>)
      ensures g[key := a][key := b] == g[key := b]
    {
    }

    /** One more key of a sample. */
    method StoreNext(i: nat, key: string, v: Float, ghost g: Grid, ghost before: Sample) returns (stored: bool)
      requires Shaped() && i < LIVE_SLOTS && Columns(g) && key !in before && Held() == Replaced(g, i, before)
      modifies `series, `repr, repr
      ensures Shaped() && NewColumns(old(repr))
      ensures stored ==> Held() == Replaced(g, i, before[key := v]) && series.Keys == old(series.Keys) + {key}
      ensures !stored ==> Held() == Replaced(g, i, before) && series.Keys == old(series.Keys) && key !in series && |series| == MAX_SERIES
      ensures |old(series)| == MAX_SERIES ==> |series| == MAX_SERIES
    {
      hide Replaced, Columns, Shaped, Held;
      stored := Store(i, key, v);
      ReplacedOne(g, i, before, key, v);
    }

    /** Stores what the cap allows of smp at index i; shown is what that was. */
    method Fill(i: nat, smp: Sample, ghost g: Grid) returns (ghost shown: Sample)
      requires Shaped() && i < LIVE_SLOTS && Columns(g) && Held() == Replaced(g, i, map[])
      modifies `series, `repr, repr
      ensures Shaped() && NewColumns(old(repr))
      ensures Held() == Replaced(g, i, shown) && Admitted(smp, smp.Keys, shown, series.Keys, |series| == MAX_SERIES)
    {
      hide Replaced, Columns, Admitted, Held, Shaped;
      var todo := smp.Keys;
      ghost var done: set<string> := {};
      shown := map[];
      NoneAdmitted(smp, series.Keys, |series| == MAX_SERIES);
      while todo != {}
        invariant todo <= smp.Keys && done <= smp.Keys && forall k :: k in smp ==> (k in todo) != (k in done)
        invariant Shaped() && NewColumns(old(repr))
        invariant Held() == Replaced(g, i, shown)
        invariant Admitted(smp, done, shown, series.Keys, |series| == MAX_SERIES)
        decreases |todo|
      {
        var k :| k in todo;
        ghost var keys, full := series.Keys, |series| == MAX_SERIES;
        AdmittedKeys(smp, done, shown, keys, full);
        var stored := StoreNext(i, k, smp[k], g, shown);
        AdmittedNext(smp, done, shown, k, keys, full, stored, |series| == MAX_SERIES);
        if stored {
          shown := shown[k := smp[k]];
        }
        done, todo := done + {k}, todo - {k};
      }
      assert done == smp.Keys;
    }

    /** What a put stores of the keys done: every value but those of keys past the cap. */
    static ghost predicate Admitted(smp: Sample, done: set<string>, shown: Sample, keys: set<string>, full: bool) {
      && (forall k :: k in shown ==> k in done && k in smp && shown[k] == smp[k])
      && (forall k :: k in done && k !in shown ==> k !in keys && full)
    }

    static lemma NoneAdmitted(smp: Sample, keys: set<string>, full: bool)
      ensures Admitted(smp, {}, map[], keys, full)
    {
    }

    static lemma AdmittedKeys(smp: Sample, done: set<string>, shown: Sample, keys: set<string>, full: bool)
      requires Admitted(smp, done, shown, keys, full)
      ensures shown.Keys <= done
    {
    }

    static lemma AdmittedNext(smp: Sample, done: set<string>, shown: Sample, key: string, keys: set<string>, full: bool, stored: bool, full': bool)
      requires Admitted(smp, done, shown, keys, full) && key in smp && key !in done && (full ==> full')
      ensures stored ==> Admitted(smp, done + {key}, shown[key := smp[key]], keys + {key}, full')
      ensures !stored && key !in keys && full' ==> Admitted(smp, done + {key}, shown, keys, full')
    {
    }

    /** Stores a sample in the slot of a time in Unix seconds. Which new keys the cap keeps out is not determined. */
    method Put(at: int, smp: Sample)
      requires Valid()
      modifies this, stamp, repr
      ensures Valid() && NewColumns(old(repr))
      ensures at < 0 ==> log == old(log) && series == old(series)
      ensures at >= 0 ==> Landed(old(log), at / LIVE_STEP, smp)
    {
      hide Valid, Landed;
      if at >= 0 {
        PutSlot(at / LIVE_STEP, smp);
      }
    }

    method PutSlot(slot: nat, smp: Sample)
      requires Valid()
      modifies this, stamp, repr
      ensures Valid() && NewColumns(old(repr))
      ensures Landed(old(log), slot, smp)
    {
      hide GridOf, StampsOf, StampOf, Admitted, Replaced, Held, Columns, Shaped, KeysOf, IndexOf;
      ghost var keys := series.Keys;
      ghost var shown := Write(slot, smp);
      ghost var p := Landing(slot, shown);
      ReplacedIsPut(log, keys, p);
      StampsPut(log, p);
      KeysPut(log, keys, p);
      log := log + [p];
    }

    /** Replaces what the index of slot holds. */
    method Write(slot: nat, smp: Sample) returns (ghost shown: Sample)
      requires Shaped()
      modifies `series, `repr, stamp, repr
      ensures Shaped() && NewColumns(old(repr))
      ensures Held() == Replaced(old(Held()), IndexOf(slot), shown) && series.Keys == old(series.Keys) + shown.Keys
      ensures Admitted(smp, smp.Keys, shown, series.Keys, |series| == MAX_SERIES)
      ensures stamp[..] == old(stamp[..])[IndexOf(slot) := slot]
    {
      hide Admitted, Replaced, Held, Columns;
      var i := IndexOf(slot);
      ghost var g := Held();
      ClearIndex(i);
      stamp[i] := slot;
      shown := Fill(i, smp, g);
      assert Held().Keys == series.Keys;
    }

    /** One more put, with every value but those of keys past the cap. */
    ghost predicate Landed(before: seq<Landing>, slot: nat, smp: Sample)
      reads this
    {
      && |log| == |before| + 1 && log[..|before|] == before && log[|before|].slot == slot
      && Admitted(smp, smp.Keys, log[|before|].shown, series.Keys, |series| == MAX_SERIES)
    }

    static lemma KeysPut(log: seq<Landing>, keys: set<string>, p: Landing)
      requires KeysOf(log, keys)
      ensures KeysOf(log + [p], keys + p.shown.Keys)
    {
    }

    static lemma StampsPut(log: seq<Landing>, p: Landing)
      ensures StampsOf(log + [p]) == StampsOf(log)[IndexOf(p.slot) := p.slot]
    {
      forall i: nat | i < LIVE_SLOTS ensures StampOf(log + [p], i) == if i == IndexOf(p.slot) then p.slot else StampOf(log, i) {
        PutOn(log, p, i);
      }
    }

    /** The 180 slots that end at the slot of now, oldest first. */
    method Snapshot(now: int) returns (from: int, to: int, shown: Grid)
      requires Valid()
      ensures to == TruncDiv(now, LIVE_STEP) * LIVE_STEP && from == to - (LIVE_SLOTS - 1) * LIVE_STEP
      ensures AllShown(TruncDiv(now, LIVE_STEP) - (LIVE_SLOTS - 1), shown)
    {
      var last := TruncDiv(now, LIVE_STEP);
      var first := last - (LIVE_SLOTS - 1);
      shown := AllColumns(first);
      return first * LIVE_STEP, last * LIVE_STEP, shown;
    }

    /** Every key there is, from slot first on. */
    ghost predicate AllShown(first: int, shown: Grid)
      reads this
    {
      shown.Keys == series.Keys && forall k :: k in shown ==> Shows(k, first, shown[k])
    }

    method AllColumns(first: int) returns (shown: Grid)
      requires Valid()
      ensures AllShown(first, shown)
    {
      hide Shows, Valid;
      shown := map[];
      var todo := series.Keys;
      while todo != {}
        invariant todo <= series.Keys && shown.Keys == series.Keys - todo
        invariant forall k :: k in shown ==> Shows(k, first, shown[k])
        decreases |todo|
      {
        var k :| k in todo;
        var out := Column(k, first);
        shown := shown[k := out];
        todo := todo - {k};
      }
    }

    /** out is what key shows from slot first on. */
    ghost predicate Shows(key: string, first: int, out: seq<Float>)
      reads `log
    {
      |out| == LIVE_SLOTS && forall i: nat :: i < LIVE_SLOTS ==> out[i] == Shown(log, first + i, key)
    }

    /** One key from slot first on. */
    method Column(key: string, first: int) returns (out: seq<Float>)
      requires Valid() && key in series
      ensures Shows(key, first, out)
    {
      out := [];
      for i := 0 to LIVE_SLOTS
        invariant |out| == i && forall j: nat :: j < i ==> out[j] == Shown(log, first + j, key)
      {
        var s := first + i;
        var idx := IndexOf(s);
        assert Held()[key][idx] == series[key][idx] && stamp[..][idx] == StampOf(log, idx);
        EmptyIndex(log, s, key);
        out := out + [if stamp[idx] == s then series[key][idx] else NaN];
      }
    }

    /** An index that holds no put shows nothing, even where the slot is 0 as its stamp is. */
    static lemma EmptyIndex(log: seq<Landing>, slot: int, key: string)
      ensures Shown(log, slot, key) == if StampOf(log, IndexOf(slot)) == slot then StoredAt(log, IndexOf(slot), key) else NaN
    {
    }

    method Reset()
      requires Valid()
      modifies this, stamp
      ensures Valid() && log == [] && series == map[] && repr == {}
    {
      forall i | 0 <= i < stamp.Length {
        stamp[i] := 0;
      }
      series, repr, log := map[], {}, [];
    }
  }
}

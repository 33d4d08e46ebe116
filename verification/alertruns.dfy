/**
 * The alert engine over whole histories: folding minutes one by one agrees
 * with the one-shot recount, and a restart is invisible in the event stream.
 */
module AlertRuns {
  import opened Types
  import opened Rules
  import opened AlertModel
  import opened AlertViews

  /** What one minute of an item holds, by series. */
  type Row = map<string, MinuteValue>

  /** The alert values the evaluator reads from a committed minute. */
  function ValsOf(row: Row): map<string, real> {
    map k | k in {CPU, MEM} && SeriesOf(k) in row :: row[SeriesOf(k)].avg
  }

  /** Number of rows at the end of rows that are high for r. */
  function Trailing(rows: seq<Row>, r: Rule): nat {
    if rows == [] || !HighValue(ValueOf(ValsOf(rows[|rows| - 1]), r.key), r) then 0
    else 1 + Trailing(rows[..|rows| - 1], r)
  }

  function CellAt(rows: seq<Row>, series: string, i: int): Cell {
    if 0 <= i < |rows| && series in rows[i] then Some(rows[i][series]) else None
  }

  /** The last n cells of series, gaps before the first row. */
  function LastCells(rows: seq<Row>, series: string, n: nat): (cells: seq<Cell>)
    ensures |cells| == n
  {
    seq(n, j requires 0 <= j < n => CellAt(rows, series, |rows| - n + j))
  }

  /** hist is what the ring shows of rows: their last 120 cells, or nothing for a series none of them holds. */
  ghost predicate Shows(hist: map<string, seq<Cell>>, rows: seq<Row>) {
    forall key :: KnownKey(key) ==>
      || HistoryOf(hist, key) == LastCells(rows, SeriesOf(key), MAX_RUN)
      || (HistoryOf(hist, key) == [] && forall i :: 0 <= i < |rows| ==> SeriesOf(key) !in rows[i])
  }

  lemma {:induction false} TrailingOfCells(rows: seq<Row>, r: Rule, n: nat, limit: nat)
    requires ValidRule(r) && r.enabled && limit <= n
    ensures TrailingRun(LastCells(rows, SeriesOf(r.key), n), r.threshold, limit) == Min(Trailing(rows, r), limit)
  {
    var cells := LastCells(rows, SeriesOf(r.key), n);
    if limit > 0 {
      var c := cells[n - 1];
      assert c == CellAt(rows, SeriesOf(r.key), |rows| - 1);
      if rows != [] {
        var rest := rows[..|rows| - 1];
        assert High(c, r.threshold) <==> HighValue(ValueOf(ValsOf(rows[|rows| - 1]), r.key), r);
        TrailingOfCells(rest, r, n - 1, limit - 1);
        var prior := LastCells(rest, SeriesOf(r.key), n - 1);
        forall j | 0 <= j < n - 1 ensures cells[j] == prior[j] {
          assert cells[j] == CellAt(rows, SeriesOf(r.key), |rows| - n + j);
          assert prior[j] == CellAt(rest, SeriesOf(r.key), |rest| - (n - 1) + j);
        }
        assert cells[..n - 1] == prior;
      }
    }
  }

  lemma {:induction false} NoTrailingWithoutSeries(rows: seq<Row>, r: Rule)
    requires ValidRule(r) && forall i :: 0 <= i < |rows| ==> SeriesOf(r.key) !in rows[i]
    ensures Trailing(rows, r) == 0
  {
    if rows != [] {
      assert SeriesOf(r.key) !in rows[|rows| - 1];
    }
  }

  /** The run that counts for r after rows. */
  function TrueRun(rows: seq<Row>, r: Rule): nat {
    if r.enabled then Trailing(rows, r) else 0
  }

  /** A recount from the 120 cells the ring shows finds the true run, up to the rule's window. */
  lemma RecountFindsRun(hist: map<string, seq<Cell>>, rows: seq<Row>, r: Rule)
    requires Shows(hist, rows) && ValidRule(r)
    ensures RecountedRun(HistoryOf(hist, r.key), r, true) == Min(TrueRun(rows, r), r.minutes)
  {
    if r.enabled {
      if HistoryOf(hist, r.key) == LastCells(rows, SeriesOf(r.key), MAX_RUN) {
        TrailingOfCells(rows, r, MAX_RUN, r.minutes);
      } else {
        NoTrailingWithoutSeries(rows, r);
      }
    }
  }

  // ---------------------------------------------------------------- agreement of a state with its history

  /** The alert of r is active exactly when the run of rows reaches its window, and the run agrees up to that window. */
  ghost predicate Agrees(k: KeyState, r: Rule, rows: seq<Row>) {
    && 0 <= k.run <= MAX_RUN
    && Min(k.run, r.minutes) == Min(TrueRun(rows, r), r.minutes)
    && (k.alert.Some? <==> TrueRun(rows, r) >= r.minutes)
  }

  lemma TrueRunStep(rows: seq<Row>, row: Row, r: Rule)
    ensures TrueRun(rows + [row], r) == if HighValue(ValueOf(ValsOf(row), r.key), r) then TrueRun(rows, r) + 1 else 0
  {
    var grown := rows + [row];
    assert grown[..|grown| - 1] == rows;
  }

  /** One more minute keeps the agreement, and what it emits depends on the history and the alert only, not on the run counter. */
  lemma MinuteAgrees(k: KeyState, other: KeyState, item: string, r: Rule, m: int, rows: seq<Row>, row: Row)
    requires ValidRule(r) && Agrees(k, r, rows) && Agrees(other, r, rows) && k.alert == other.alert
    ensures var (k', evs) := KeyMinute(k, item, r, m, ValueOf(ValsOf(row), r.key));
      var (o', oevs) := KeyMinute(other, item, r, m, ValueOf(ValsOf(row), r.key));
      && Agrees(k', r, rows + [row]) && Agrees(o', r, rows + [row])
      && k'.alert == o'.alert && evs == oevs
  {
    TrueRunStep(rows, row, r);
  }

  /** A recount of a state that agrees with its history emits nothing and keeps its alert. */
  lemma RecountAgrees(k: KeyState, item: string, r: Rule, newest: int, hist: map<string, seq<Cell>>, rows: seq<Row>)
    requires ValidRule(r) && Agrees(k, r, rows) && Shows(hist, rows)
    ensures var (k', evs) := RecountStep(k.alert, item, r, newest, hist, true);
      evs == [] && k'.alert == k.alert && Agrees(k', r, rows)
  {
    RecountFindsRun(hist, rows, r);
  }

  // ---------------------------------------------------------------- items

  /** st is the state of an item whose minutes up to newest, none of them missing, are rows. */
  ghost predicate ItemAgrees(st: ItemState, rows: seq<Row>, newest: int) {
    && ValidItem(st)
    && Agrees(View(st, CPU), RuleFor(st.rules, CPU), rows)
    && Agrees(View(st, MEM), RuleFor(st.rules, MEM), rows)
    && st.last == (if st.runs == map[] then 0 else newest)
  }

  lemma NextMinute(st: ItemState, rows: seq<Row>, newest: int)
    requires ItemAgrees(st, rows, newest) && newest >= 0
    ensures newest + 1 != st.last && RunsAt(st, newest + 1) == st.runs
  {
  }

  /** A new item, whatever its rules, agrees with the empty history. */
  lemma FreshAgrees(rules: seq<Rule>, newest: int)
    requires ValidRules(rules)
    ensures ItemAgrees(FRESH.(rules := rules), [], newest)
  {
    TwoRules(rules);
  }

  /** Same rules and same alerts: what two states of one item share whatever their run counters. */
  ghost predicate SameAlerts(a: ItemState, b: ItemState) {
    && a.rules == b.rules
    && View(a, CPU).alert == View(b, CPU).alert
    && View(a, MEM).alert == View(b, MEM).alert
  }

  lemma TickAgrees(item: string, a: ItemState, b: ItemState, rows: seq<Row>, newest: int, row: Row)
    requires ItemAgrees(a, rows, newest) && ItemAgrees(b, rows, newest) && SameAlerts(a, b) && newest >= 0
    ensures var (a', ea) := OnMinute(item, a, newest + 1, ValsOf(row));
      var (b', eb) := OnMinute(item, b, newest + 1, ValsOf(row));
      && ItemAgrees(a', rows + [row], newest + 1) && ItemAgrees(b', rows + [row], newest + 1)
      && SameAlerts(a', b') && ea == eb && a'.rules == a.rules
  {
    NextMinute(a, rows, newest);
    NextMinute(b, rows, newest);
    OnMinuteByKey(item, a, newest + 1, ValsOf(row));
    OnMinuteByKey(item, b, newest + 1, ValsOf(row));
    TwoRules(a.rules);
    MinuteAgrees(View(a, CPU), View(b, CPU), item, RuleFor(a.rules, CPU), newest + 1, rows, row);
    MinuteAgrees(View(a, MEM), View(b, MEM), item, RuleFor(a.rules, MEM), newest + 1, rows, row);
  }

  /** The last complete minute of the clock is at most 2 minutes after newest. */
  predicate UpToDate(newest: int, now: int) {
    newest > 0 && now < 60 * (newest + 4)
  }

  lemma FreshIff(newest: int, now: int)
    ensures IsFresh(newest, now) <==> UpToDate(newest, now)
  {
  }

  /** What an event reports of the newest row: the average, 0 without one. */
  function LastValue(rows: seq<Row>, series: string): real {
    var c := CellAt(rows, series, |rows| - 1);
    if c.Some? then c.value.avg else 0.0
  }

  lemma NewestIsLastValue(hist: map<string, seq<Cell>>, rows: seq<Row>, key: string)
    requires Shows(hist, rows) && KnownKey(key)
    ensures NewestValue(HistoryOf(hist, key), true) == LastValue(rows, SeriesOf(key))
  {
    if HistoryOf(hist, key) == LastCells(rows, SeriesOf(key), MAX_RUN) {
      assert LastCells(rows, SeriesOf(key), MAX_RUN)[MAX_RUN - 1] == CellAt(rows, SeriesOf(key), |rows| - MAX_RUN + MAX_RUN - 1);
    }
  }

  lemma RestartAgrees(item: string, st: ItemState, rows: seq<Row>, newest: int, hist: map<string, seq<Cell>>, now: int)
    requires ItemAgrees(st, rows, newest) && Shows(hist, rows) && UpToDate(newest, now)
    ensures var (st', evs) := Reconcile(item, st, Recent(newest, hist), now);
      ItemAgrees(st', rows, newest) && SameAlerts(st, st') && evs == []
  {
    FreshIff(newest, now);
    ReconcileByKey(item, st, newest, hist, now);
    TwoRules(st.rules);
    RecountAgrees(View(st, CPU), item, RuleFor(st.rules, CPU), newest, hist, rows);
    RecountAgrees(View(st, MEM), item, RuleFor(st.rules, MEM), newest, hist, rows);
  }

  // ---------------------------------------------------------------- lives with restarts

  /** Either the next minute is committed and evaluated, or the service starts again and recounts from the ring. */
  datatype Act = Tick(row: Row) | Restart(hist: map<string, seq<Cell>>, now: int)

  /** The events of a life that starts in st after the minutes rows, the last of them newest. */
  function Life(item: string, st: ItemState, newest: int, acts: seq<Act>): (ItemState, seq<Event>)
    decreases |acts|
  {
    if acts == [] then (st, [])
    else
      var (st1, e1) := match acts[0]
        case Tick(row) => OnMinute(item, st, newest + 1, ValsOf(row))
        case Restart(hist, now) => Reconcile(item, st, Recent(newest, hist), now);
      var (st2, e2) := Life(item, st1, if acts[0].Tick? then newest + 1 else newest, acts[1..]);
      (st2, e1 + e2)
  }

  /** Every restart finds the ring readable, within 2 minutes of its newest minute, and that minute at least 120. */
  ghost predicate Undisturbed(rows: seq<Row>, newest: int, acts: seq<Act>)
    decreases |acts|
  {
    acts == [] ||
    match acts[0]
    case Tick(row) => Undisturbed(rows + [row], newest + 1, acts[1..])
    case Restart(hist, now) =>
      Shows(hist, rows) && UpToDate(newest, now) && newest >= MAX_RUN && Undisturbed(rows, newest, acts[1..])
  }

  function TicksOf(acts: seq<Act>): seq<Act> {
    if acts == [] then [] else (if acts[0].Tick? then [acts[0]] else []) + TicksOf(acts[1..])
  }

  /**
   * Restarts are invisible: a life with restarts anywhere and the same life
   * without them emit the same events, Since and Value included, from any two
   * states that agree with the same history and hold the same alerts.
   */
  lemma {:induction false} RestartsInvisible(item: string, a: ItemState, b: ItemState, rows: seq<Row>, newest: int, acts: seq<Act>)
    requires ItemAgrees(a, rows, newest) && ItemAgrees(b, rows, newest) && SameAlerts(a, b)
    requires newest >= 0 && Undisturbed(rows, newest, acts)
    ensures Life(item, a, newest, acts).1 == Life(item, b, newest, TicksOf(acts)).1
    ensures SameAlerts(Life(item, a, newest, acts).0, Life(item, b, newest, TicksOf(acts)).0)
    decreases |acts|
  {
    hide OnMinute, Reconcile, ItemAgrees, Shows;
    if acts != [] {
      match acts[0] {
        case Tick(row) =>
          TickAgrees(item, a, b, rows, newest, row);
          var a1 := OnMinute(item, a, newest + 1, ValsOf(row)).0;
          var b1 := OnMinute(item, b, newest + 1, ValsOf(row)).0;
          RestartsInvisible(item, a1, b1, rows + [row], newest + 1, acts[1..]);
          var ticks := TicksOf(acts);
          assert ticks[0] == acts[0] && ticks[1..] == TicksOf(acts[1..]);
        case Restart(hist, now) =>
          RestartAgrees(item, a, rows, newest, hist, now);
          var a1 := Reconcile(item, a, Recent(newest, hist), now).0;
          RestartsInvisible(item, a1, b, rows, newest, acts[1..]);
          assert TicksOf(acts) == TicksOf(acts[1..]);
      }
    }
  }

  // ---------------------------------------------------------------- recount equals fold

  function TicksFor(rows: seq<Row>): seq<Act> {
    seq(|rows|, i requires 0 <= i < |rows| => Tick(rows[i]))
  }

  lemma {:induction false} FoldAgrees(item: string, st: ItemState, before: seq<Row>, newest: int, rows: seq<Row>)
    requires ItemAgrees(st, before, newest) && newest >= 0
    ensures ItemAgrees(Life(item, st, newest, TicksFor(rows)).0, before + rows, newest + |rows|)
    ensures Life(item, st, newest, TicksFor(rows)).0.rules == st.rules
    decreases |rows|
  {
    hide OnMinute, Reconcile, ItemAgrees;
    if rows == [] {
      assert before + rows == before;
    } else {
      TickAgrees(item, st, st, before, newest, rows[0]);
      FoldAgrees(item, OnMinute(item, st, newest + 1, ValsOf(rows[0])).0, before + [rows[0]], newest + 1, rows[1..]);
      assert TicksFor(rows)[1..] == TicksFor(rows[1..]);
      assert before + [rows[0]] + rows[1..] == before + rows;
    }
  }

  /**
   * Folding the minutes of a history without a missing minute, from idle, makes
   * the alert of a key active exactly when the rule is enabled and the run of
   * high minutes at the end reaches the rule's window.
   */
  lemma FoldActivatesExactly(item: string, rules: seq<Rule>, first: nat, rows: seq<Row>, key: string)
    requires ValidRules(rules) && KnownKey(key)
    ensures var st := Life(item, FRESH.(rules := rules), first, TicksFor(rows)).0;
      var r := RuleFor(rules, key);
      View(st, key).alert.Some? <==> r.enabled && Trailing(rows, r) >= r.minutes
  {
    FreshAgrees(rules, first);
    FoldAgrees(item, FRESH.(rules := rules), [], first, rows);
    assert [] + rows == rows;
    TwoRules(rules);
  }

  /**
   * From any prior alerts, a recount of the same history reaches the same
   * active set as the fold, and emits for each key exactly the difference.
   */
  lemma RecountReachesFold(item: string, st: ItemState, rows: seq<Row>, newest: int, hist: map<string, seq<Cell>>, now: int, key: string)
    requires ValidItem(st) && Shows(hist, rows) && UpToDate(newest, now) && KnownKey(key)
    ensures var r := RuleFor(st.rules, key);
      var st' := Reconcile(item, st, Recent(newest, hist), now).0;
      var held := View(st, key).alert;
      var due := r.enabled && Trailing(rows, r) >= r.minutes;
      && (View(st', key).alert.Some? <==> due)
      && (held.Some? && due ==> View(st', key).alert == held)
      && RecountOf(item, st, key, newest, hist, now).1 ==
           (if held.Some? && !due then [Event(item, key, Resolved, LastValue(rows, SeriesOf(key)), held.value.since)]
            else if held.None? && due then
              [Event(item, key, Firing, LastValue(rows, SeriesOf(key)), (newest - r.minutes + 1) * 60)]
            else [])
    ensures Reconcile(item, st, Recent(newest, hist), now).1 ==
              RecountOf(item, st, CPU, newest, hist, now).1 + RecountOf(item, st, MEM, newest, hist, now).1
  {
    hide Reconcile, RuleFor, FindAlert, Trailing, HistoryOf, NewestValue, RecountedRun, RunOf, Shows, LastValue;
    FreshIff(newest, now);
    NewestIsLastValue(hist, rows, key);
    ReconcileByKey(item, st, newest, hist, now);
    TwoRules(st.rules);
    RecountFindsRun(hist, rows, RuleFor(st.rules, key));
  }

  /** An item that was down longer than 2 minutes loses its runs: every active alert resolves, none fires. */
  lemma StaleRecountResolves(item: string, st: ItemState, newest: int, hist: map<string, seq<Cell>>, now: int, key: string)
    requires ValidItem(st) && !UpToDate(newest, now) && KnownKey(key)
    ensures View(Reconcile(item, st, Recent(newest, hist), now).0, key) == KeyState(None, 0)
    ensures RecountOf(item, st, key, newest, hist, now).1 ==
              if View(st, key).alert.Some? then [Event(item, key, Resolved, 0.0, View(st, key).alert.value.since)] else []
  {
    FreshIff(newest, now);
    ReconcileByKey(item, st, newest, hist, now);
    TwoRules(st.rules);
  }

  // ---------------------------------------------------------------- where restarts are visible

  /**
   * Whatever happened before, a recount is silent exactly when each alert is
   * held if and only if its true run reaches the window.
   */
  lemma RecountSilentIff(item: string, st: ItemState, rows: seq<Row>, newest: int, hist: map<string, seq<Cell>>, now: int)
    requires ValidItem(st) && Shows(hist, rows) && UpToDate(newest, now)
    ensures Reconcile(item, st, Recent(newest, hist), now).1 == [] <==>
              forall key :: KnownKey(key) ==>
                (View(st, key).alert.Some? <==> TrueRun(rows, RuleFor(st.rules, key)) >= RuleFor(st.rules, key).minutes)
  {
    hide Reconcile, RuleFor, FindAlert, Trailing, HistoryOf, NewestValue, RecountOf, RunOf, Shows;
    RecountReachesFold(item, st, rows, newest, hist, now, CPU);
    RecountReachesFold(item, st, rows, newest, hist, now, MEM);
    TwoRules(st.rules);
  }

  /**
   * A minute that was never evaluated makes a restart visible: evaluating the
   * next high minute keeps an active alert, recounting the same minutes resolves it.
   */
  lemma MissedMinuteShows(item: string, since: int, m: int)
    requires m >= MAX_RUN
    ensures var st := ItemState([], [Alert(CPU, since, 95.0)], map[CPU := 10], m - 2);
      var row: Row := map[SeriesOf(CPU) := MinuteValue(95.0, 95.0, 95.0)];
      var hist := map[SeriesOf(CPU) := LastCells([row], SeriesOf(CPU), MAX_RUN)];
      var (kept, none) := OnMinute(item, st, m, ValsOf(row));
      && ValidItem(st) && none == [] && View(kept, CPU).alert.Some?
      && Reconcile(item, kept, Recent(m, hist), m * 60 + 60).1 == [Event(item, CPU, Resolved, 95.0, since)]
  {
    var st := ItemState([], [Alert(CPU, since, 95.0)], map[CPU := 10], m - 2);
    var row: Row := map[SeriesOf(CPU) := MinuteValue(95.0, 95.0, 95.0)];
    var hist := map[SeriesOf(CPU) := LastCells([row], SeriesOf(CPU), MAX_RUN)];
    assert CPU != MEM by { assert CPU[0] != MEM[0]; }
    assert SeriesOf(CPU) != SeriesOf(MEM) by { assert SeriesOf(CPU)[6] != SeriesOf(MEM)[6]; }
    OnMinuteByKey(item, st, m, ValsOf(row));
    var kept := OnMinute(item, st, m, ValsOf(row)).0;
    ShownByOneRow(row, hist);
    MissedMinuteRecount(item, kept, since, m, row, hist);
  }

  lemma MissedMinuteRecount(item: string, st: ItemState, since: int, m: int, row: Row, hist: map<string, seq<Cell>>)
    requires ValidItem(st) && st.rules == [] && m >= MAX_RUN && CPU != MEM && SeriesOf(CPU) != SeriesOf(MEM)
    requires View(st, CPU).alert.Some? && View(st, CPU).alert.value.since == since && View(st, MEM).alert.None?
    requires row == map[SeriesOf(CPU) := MinuteValue(95.0, 95.0, 95.0)]
    requires hist == map[SeriesOf(CPU) := LastCells([row], SeriesOf(CPU), MAX_RUN)] && Shows(hist, [row])
    ensures Reconcile(item, st, Recent(m, hist), m * 60 + 60).1 == [Event(item, CPU, Resolved, 95.0, since)]
  {
    hide Reconcile, FindAlert, RecountOf, Shows;
    RecountReachesFold(item, st, [row], m, hist, m * 60 + 60, CPU);
    RecountReachesFold(item, st, [row], m, hist, m * 60 + 60, MEM);
    assert RuleFor([], CPU) == DefaultRules()[0] && RuleFor([], MEM) == DefaultRules()[1];
    TrueRunStep([], row, RuleFor([], CPU));
    TrueRunStep([], row, RuleFor([], MEM));
    assert [] + [row] == [row];
    assert HistoryOf(hist, CPU)[MAX_RUN - 1] == CellAt([row], SeriesOf(CPU), |[row]| - MAX_RUN + MAX_RUN - 1);
  }

  lemma ShownByOneRow(row: Row, hist: map<string, seq<Cell>>)
    requires hist == map[SeriesOf(CPU) := LastCells([row], SeriesOf(CPU), MAX_RUN)]
    requires SeriesOf(MEM) !in row && SeriesOf(CPU) != SeriesOf(MEM)
    ensures Shows(hist, [row])
  {
  }
}

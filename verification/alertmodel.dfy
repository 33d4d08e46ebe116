/**
 * What one call of the evaluator does, on values: the state of an item, the
 * judgement of a committed minute and the recount from history (evaluator.go).
 */
module AlertModel {
  import opened Types
  import opened Rules
  import opened Ordering

  datatype Alert = Alert(key: string, since: int, value: real)  // since in Unix seconds

  /** What differs from defaults and idle for one item. */
  datatype ItemState = ItemState(rules: seq<Rule>, active: seq<Alert>, runs: map<string, int>, last: int)

  const FRESH := ItemState([], [], map[], 0)

  datatype Transition = Firing | Resolved

  datatype Event = Event(item: string, key: string, state: Transition, value: real, since: int)

  predicate Idle(st: ItemState) {
    st.rules == [] && st.active == [] && st.runs == map[]
  }

  // ---------------------------------------------------------------- rules

  /** out with the rule of r's key replaced by r. */
  function Overlay(out: seq<Rule>, r: Rule): (res: seq<Rule>)
    ensures |res| == |out|
  {
    seq(|out|, i requires 0 <= i < |out| => if out[i].key == r.key then r else out[i])
  }

  function OverlayAll(out: seq<Rule>, rules: seq<Rule>): (res: seq<Rule>)
    ensures |res| == |out|
  {
    if rules == [] then out
    else Overlay(OverlayAll(out, rules[..|rules| - 1]), rules[|rules| - 1])
  }

  /** The rules in force: both keys, cpu_high then mem_high, defaults unless overridden. */
  function Effective(overrides: seq<Rule>): seq<Rule> {
    OverlayAll(DefaultRules(), overrides)
  }

  function Merged(overrides: seq<Rule>, rules: seq<Rule>): seq<Rule> {
    var merged := OverlayAll(Effective(overrides), rules);
    if merged == DefaultRules() then [] else merged
  }

  // ---------------------------------------------------------------- alerts

  function AlertIndex(active: seq<Alert>, key: string): (i: int)
    ensures -1 <= i < |active|
    ensures i >= 0 ==> active[i].key == key && forall j :: 0 <= j < i ==> active[j].key != key
    ensures i < 0 ==> forall j :: 0 <= j < |active| ==> active[j].key != key
  {
    if active == [] then -1
    else if active[0].key == key then 0
    else var i := AlertIndex(active[1..], key); if i < 0 then -1 else i + 1
  }

  function Without(active: seq<Alert>, i: nat): seq<Alert>
    requires i < |active|
  {
    active[..i] + active[i + 1..]
  }

  function InsertByKey(active: seq<Alert>, a: Alert): seq<Alert> {
    if active == [] || Less(a.key, active[0].key) then [a] + active
    else [active[0]] + InsertByKey(active[1..], a)
  }

  /** Stable sort by key. */
  function SortByKey(active: seq<Alert>): seq<Alert> {
    if active == [] then []
    else InsertByKey(SortByKey(active[..|active| - 1]), active[|active| - 1])
  }

  // ---------------------------------------------------------------- judging a minute

  /** Running result of a loop over the rules: the alerts, the runs and the events so far. */
  datatype Judged = Judged(active: seq<Alert>, runs: map<string, int>, events: seq<Event>)

  /** v < t of the source. */
  predicate Below(v: real, t: Float) {
    match t
    case Fin(x) => v < x
    case PosInf => true
    case NegInf => false
    case NaN => false
  }

  function RunOf(runs: map<string, int>, key: string): int {
    if key in runs then runs[key] else 0
  }

  function Fired(j: Judged, item: string, key: string, sinceMin: int, v: real): Judged {
    j.(active := SortByKey(j.active + [Alert(key, sinceMin * 60, v)]),
       events := j.events + [Event(item, key, Firing, v, sinceMin * 60)])
  }

  /** The alert of key, if any, ends with value v. */
  function Ended(j: Judged, item: string, key: string, v: real): Judged {
    var i := AlertIndex(j.active, key);
    if i < 0 then j
    else j.(active := Without(j.active, i), events := j.events + [Event(item, key, Resolved, v, j.active[i].since)])
  }

  function JudgeRule(j: Judged, item: string, r: Rule, m: int, vals: map<string, real>): Judged {
    var present := r.enabled && r.key in vals;
    var v := if present then vals[r.key] else 0.0;
    if !present || Below(v, r.threshold) then
      Ended(j, item, r.key, v).(runs := j.runs - {r.key})
    else
      var n := Min(RunOf(j.runs, r.key) + 1, MAX_RUN);
      var j' := j.(runs := j.runs[r.key := n]);
      if n >= r.minutes && AlertIndex(j.active, r.key) < 0 then Fired(j', item, r.key, m - n + 1, v) else j'
  }

  function JudgeRules(j: Judged, item: string, rules: seq<Rule>, m: int, vals: map<string, real>): Judged {
    if rules == [] then j
    else JudgeRule(JudgeRules(j, item, rules[..|rules| - 1], m, vals), item, rules[|rules| - 1], m, vals)
  }

  /** The minute last evaluated is kept only while a run counts. */
  function Settled(st: ItemState): ItemState {
    if st.runs == map[] then st.(last := 0) else st
  }

  /** The runs a minute m continues: none when minutes were missed. */
  function RunsAt(st: ItemState, m: int): map<string, int> {
    if m != st.last + 1 then map[] else st.runs
  }

  function OnMinute(item: string, st: ItemState, m: int, vals: map<string, real>): (ItemState, seq<Event>) {
    if m == st.last then (st, [])
    else
      var j := JudgeRules(Judged(st.active, RunsAt(st, m), []), item, Effective(st.rules), m, vals);
      (Settled(ItemState(st.rules, j.active, j.runs, m)), j.events)
  }

  // ---------------------------------------------------------------- recounting from history

  /** What the Store answers about the newest minutes of an item. */
  datatype Recent = Unreadable | Recent(newest: int, hist: map<string, seq<Cell>>)

  predicate High(c: Cell, t: Float) {
    c.Some? && !Below(c.value.avg, t)
  }

  /** Length of the run of high cells at the end of cells, counted up to limit. */
  function TrailingRun(cells: seq<Cell>, t: Float, limit: nat): (n: nat)
    ensures n <= limit && n <= |cells|
  {
    if limit == 0 || cells == [] || !High(cells[|cells| - 1], t) then 0
    else 1 + TrailingRun(cells[..|cells| - 1], t, limit - 1)
  }

  function SeriesOf(key: string): string {
    "alert/" + key
  }

  function HistoryOf(hist: map<string, seq<Cell>>, key: string): seq<Cell> {
    if SeriesOf(key) in hist then hist[SeriesOf(key)] else []
  }

  /** The newest minute is at most 2 minutes older than the clock's last complete minute. */
  predicate IsFresh(newest: int, now: int) {
    newest > 0 && newest >= TruncDiv(now, 60) - 1 - 2
  }

  function NewestValue(cells: seq<Cell>, current: bool): real {
    if current && cells != [] && cells[|cells| - 1].Some? then cells[|cells| - 1].value.avg else 0.0
  }

  function RecountedRun(cells: seq<Cell>, r: Rule, current: bool): nat {
    if current && r.enabled && r.minutes >= 0 then TrailingRun(cells, r.threshold, r.minutes) else 0
  }

  /** The recount of one rule; j.runs holds the runs recounted so far. */
  function RecountRule(j: Judged, item: string, r: Rule, newest: int, hist: map<string, seq<Cell>>, current: bool): Judged {
    var cells := HistoryOf(hist, r.key);
    var v := NewestValue(cells, current);
    var n := RecountedRun(cells, r, current);
    var i := AlertIndex(j.active, r.key);
    var j' := if i >= 0 && n < r.minutes then Ended(j, item, r.key, v)
              else if i < 0 && n >= r.minutes then Fired(j, item, r.key, newest - n + 1, v)
              else j;
    if n > 0 then j'.(runs := j.runs[r.key := n]) else j'
  }

  function RecountRules(j: Judged, item: string, rules: seq<Rule>, newest: int, hist: map<string, seq<Cell>>, current: bool): Judged {
    if rules == [] then j
    else RecountRule(RecountRules(j, item, rules[..|rules| - 1], newest, hist, current), item, rules[|rules| - 1], newest, hist, current)
  }

  function Reconcile(item: string, st: ItemState, recent: Recent, now: int): (ItemState, seq<Event>) {
    match recent
    case Unreadable => (Settled(st), [])
    case Recent(newest, hist) =>
      var j := RecountRules(Judged(st.active, map[], []), item, Effective(st.rules), newest, hist, IsFresh(newest, now));
      (Settled(ItemState(st.rules, j.active, j.runs, newest)), j.events)
  }

  /** Every active alert ends with value 0, in the order they are held. */
  function ResolvedEvents(item: string, active: seq<Alert>): (evs: seq<Event>)
    ensures |evs| == |active|
  {
    if active == [] then []
    else ResolvedEvents(item, active[..|active| - 1])
         + [Event(item, active[|active| - 1].key, Resolved, 0.0, active[|active| - 1].since)]
  }

  // ---------------------------------------------------------------- the evaluator

  type Items = map<string, ItemState>

  function StateOf(s: Items, item: string): ItemState {
    if item in s then s[item] else FRESH
  }

  /** Stores st for item, or drops the item when nothing differs from defaults and idle. */
  function Put(s: Items, item: string, st: ItemState): Items {
    if Idle(st) then s - {item} else s[item := st]
  }

  /** One public call; what the Store and the clock answer are its parameters. */
  datatype Op =
    | Minute(item: string, m: int, vals: map<string, real>)
    | Change(item: string, rules: seq<Rule>, recent: Recent, now: int)
    | Rebuild(item: string, recent: Recent, now: int)
    | Resolve(item: string)
    | Prune(keep: set<string>)

  function Apply(s: Items, op: Op): (Items, seq<Event>) {
    match op
    case Minute(item, m, vals) =>
      var (st, evs) := OnMinute(item, StateOf(s, item), m, vals);
      (Put(s, item, st), evs)
    case Change(item, rules, recent, now) =>
      if !ValidUtf8(item) || !Validate(rules).Accepted? then (s, [])
      else
        var st0 := StateOf(s, item);
        var (st, evs) := Reconcile(item, st0.(rules := Merged(st0.rules, rules)), recent, now);
        (Put(s, item, st), evs)
    case Rebuild(item, recent, now) =>
      var (st, evs) := Reconcile(item, StateOf(s, item), recent, now);
      (Put(s, item, st), evs)
    case Resolve(item) =>
      if item !in s then (s, [])
      else (Put(s, item, ItemState(s[item].rules, [], map[], 0)), ResolvedEvents(item, s[item].active))
    case Prune(keep) =>
      (map k | k in s && k in keep :: s[k], [])
  }

  /** A run of calls: the final state and all events in the order of the state changes. */
  function Run(s: Items, ops: seq<Op>): (Items, seq<Event>) {
    if ops == [] then (s, [])
    else
      var (s1, e1) := Run(s, ops[..|ops| - 1]);
      var (s2, e2) := Apply(s1, ops[|ops| - 1]);
      (s2, e1 + e2)
  }
}

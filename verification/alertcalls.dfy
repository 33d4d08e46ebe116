/**
 * What calls of the evaluator do to one item, said of the calls and the values
 * they carry: when an alert fires and since when, which rules are in force
 * afterwards, and what no call touches.
 */
module AlertCalls {
  import opened Types
  import opened Rules
  import opened AlertModel
  import opened AlertViews
  import opened AlertLog
  import AlertRuns

  // ---------------------------------------------------------------- minutes, with gaps

  /** Calls that evaluate minutes of item, later and later ones; minutes in between may be missing. */
  ghost predicate MinutesOf(item: string, ops: seq<Op>) {
    && (forall i :: 0 <= i < |ops| ==> ops[i].Minute? && ops[i].item == item && ops[i].m > 0)
    && (forall i, j :: 0 <= i < j < |ops| ==> ops[i].m < ops[j].m)
  }

  /** The minute was high for r: the rule is on, the series is there, and the value reaches the threshold. */
  predicate IsHigh(op: Op, r: Rule)
    requires op.Minute?
  {
    r.enabled && r.threshold.Fin? && r.key in op.vals && op.vals[r.key] >= r.threshold.r
  }

  /** How many high minutes, each one after the other, end with the last call. */
  ghost function Unbroken(ops: seq<Op>, r: Rule): nat
    requires forall i :: 0 <= i < |ops| ==> ops[i].Minute?
  {
    if ops == [] || !IsHigh(ops[|ops| - 1], r) then 0
    else
      var n := |ops| - 1;
      if n > 0 && ops[n - 1].m + 1 == ops[n].m then 1 + Unbroken(ops[..n], r) else 1
  }

  /** Minute x was evaluated and high. */
  ghost predicate WasHigh(ops: seq<Op>, r: Rule, x: int)
    requires forall i :: 0 <= i < |ops| ==> ops[i].Minute?
  {
    exists i :: 0 <= i < |ops| && ops[i].m == x && IsHigh(ops[i], r)
  }

  /** Each of the unbroken minutes was evaluated and high, and the one before them was not. */
  lemma {:induction false} UnbrokenMinutes(item: string, ops: seq<Op>, r: Rule)
    requires MinutesOf(item, ops) && ops != []
    ensures var n, m := Unbroken(ops, r), ops[|ops| - 1].m;
      (forall x :: m - n < x <= m ==> WasHigh(ops, r, x)) && !WasHigh(ops, r, m - n)
  {
    var last := |ops| - 1;
    var n, m := Unbroken(ops, r), ops[last].m;
    hide IsHigh;
    if n > 0 && last > 0 && ops[last - 1].m + 1 == m {
      UnbrokenMinutes(item, ops[..last], r);
      HighLater(item, ops, r, m - n);
      forall x | m - n < x <= m ensures WasHigh(ops, r, x) {
        if x < m {
          HighLater(item, ops, r, x);
        }
      }
    }
  }

  /** An earlier minute was high exactly if it was high before the last call. */
  lemma HighLater(item: string, ops: seq<Op>, r: Rule, x: int)
    requires MinutesOf(item, ops) && ops != [] && x < ops[|ops| - 1].m
    ensures WasHigh(ops, r, x) <==> WasHigh(ops[..|ops| - 1], r, x)
  {
    var init := ops[..|ops| - 1];
    if WasHigh(ops, r, x) {
      var i :| 0 <= i < |ops| && ops[i].m == x && IsHigh(ops[i], r);
      assert init[i] == ops[i];
    }
  }

  /** An item whose runs start with these calls. */
  ghost predicate Starts(s: Items, item: string, ops: seq<Op>) {
    && ValidItems(s) && ValidUtf8(item) && MinutesOf(item, ops)
    && StateOf(s, item).runs == map[] && (ops != [] ==> ops[0].m != StateOf(s, item).last)
  }

  lemma StartsInit(s: Items, item: string, ops: seq<Op>)
    requires Starts(s, item, ops) && ops != []
    ensures Starts(s, item, ops[..|ops| - 1])
  {
  }

  lemma PutState(s: Items, item: string, st: ItemState)
    requires st.runs == map[] ==> st.last == 0
    ensures StateOf(Put(s, item, st), item) == st
    ensures OthersSame(s, Put(s, item, st), item)
  {
  }

  /** No item but this one was touched. */
  ghost predicate OthersSame(s: Items, s': Items, item: string) {
    forall k :: k != item ==> (k in s <==> k in s') && StateOf(s', k) == StateOf(s, k)
  }

  /** The runs of st are the unbroken high minutes of the calls, counted up to 120. */
  ghost predicate RunsMatch(st: ItemState, item: string, ops: seq<Op>)
    requires MinutesOf(item, ops)
  {
    && (forall key :: KnownKey(key) ==> RunOf(st.runs, key) == Min(Unbroken(ops, RuleFor(st.rules, key)), 120))
    && (ops != [] ==> st.last == if st.runs == map[] then 0 else ops[|ops| - 1].m)
  }

  /** What the calls made of an item: its runs, with its rules and every other item untouched. */
  ghost predicate Counted(s: Items, item: string, ops: seq<Op>)
    requires MinutesOf(item, ops)
  {
    && ValidItems(Run(s, ops).0) && StateOf(Run(s, ops).0, item).rules == StateOf(s, item).rules
    && RunsMatch(StateOf(Run(s, ops).0, item), item, ops)
    && OthersSame(s, Run(s, ops).0, item)
  }

  lemma {:induction false} RunsCounted(s: Items, item: string, ops: seq<Op>)
    requires Starts(s, item, ops)
    ensures Counted(s, item, ops)
  {
    if ops == [] {
      FreshValid();
    } else {
      var n := |ops| - 1;
      StartsInit(s, item, ops);
      RunsCounted(s, item, ops[..n]);
      MinuteCounted(s, item, ops);
    }
  }

  /** One call of a minute not yet evaluated. */
  lemma MinuteMoves(s: Items, item: string, op: Op)
    requires ValidItems(s) && ValidUtf8(item) && op.Minute? && op.item == item && op.m != StateOf(s, item).last
    ensures var (s', evs) := Apply(s, op);
      var st, st' := StateOf(s, item), StateOf(s', item);
      && ValidItems(s') && OthersSame(s, s', item)
      && st'.rules == st.rules && st'.last == (if st'.runs == map[] then 0 else op.m)
      && View(st', CPU) == MinuteAt(item, st, CPU, op.m, op.vals).0 && View(st', MEM) == MinuteAt(item, st, MEM, op.m, op.vals).0
      && evs == MinuteAt(item, st, CPU, op.m, op.vals).1 + MinuteAt(item, st, MEM, op.m, op.vals).1
  {
    var st := StateOf(s, item);
    StateValid(s, item);
    OnMinuteByKey(item, st, op.m, op.vals);
    ApplyTracksIff(s, op);
    hide OnMinute, Tracks, ValidItems, ValidItem, MinuteAt, View;
    PutState(s, item, OnMinute(item, st, op.m, op.vals).0);
  }

  lemma MinuteCounted(s: Items, item: string, ops: seq<Op>)
    requires Starts(s, item, ops) && ops != [] && Counted(s, item, ops[..|ops| - 1])
    ensures Counted(s, item, ops)
  {
    hide ValidItems, ValidItem, MinuteAt, Apply, RunsMatch, View, StateOf;
    var n := |ops| - 1;
    var before, op := Run(s, ops[..n]).0, ops[n];
    LastBefore(s, item, ops);
    StateValid(before, item);
    MinuteMoves(before, item, op);
    FirstRuns(s, item, ops);
    MinuteMatches(item, StateOf(before, item), StateOf(Apply(before, op).0, item), ops);
  }

  lemma FirstRuns(s: Items, item: string, ops: seq<Op>)
    requires Starts(s, item, ops) && ops != []
    ensures |ops| == 1 ==> StateOf(Run(s, ops[..|ops| - 1]).0, item).runs == map[]
  {
  }

  lemma MinuteMatches(item: string, st: ItemState, st': ItemState, ops: seq<Op>)
    requires MinutesOf(item, ops) && ops != [] && ValidItem(st) && RunsMatch(st, item, ops[..|ops| - 1])
    requires |ops| == 1 ==> st.runs == map[]
    requires var op := ops[|ops| - 1];
      && st'.rules == st.rules && st'.last == (if st'.runs == map[] then 0 else op.m)
      && View(st', CPU) == MinuteAt(item, st, CPU, op.m, op.vals).0 && View(st', MEM) == MinuteAt(item, st, MEM, op.m, op.vals).0
    ensures RunsMatch(st', item, ops)
  {
    hide MinuteAt, RuleFor, RunsAt, Unbroken, ValidItem;
    var op := ops[|ops| - 1];
    forall key | KnownKey(key) ensures RunOf(st'.runs, key) == Min(Unbroken(ops, RuleFor(st.rules, key)), 120) {
      RunBefore(item, st, ops, key);
      RunOfMinute(item, st, op, key);
      UnbrokenNext(ops, RuleFor(st.rules, key));
    }
  }

  lemma UnbrokenNext(ops: seq<Op>, r: Rule)
    requires ops != [] && forall i :: 0 <= i < |ops| ==> ops[i].Minute?
    ensures var n := |ops| - 1;
      Unbroken(ops, r) == if !IsHigh(ops[n], r) then 0 else if n > 0 && ops[n - 1].m + 1 == ops[n].m then 1 + Unbroken(ops[..n], r) else 1
  {
  }

  lemma RunOfMinute(item: string, st: ItemState, op: Op, key: string)
    requires ValidItem(st) && op.Minute? && KnownKey(key)
    ensures MinuteAt(item, st, key, op.m, op.vals).0.run ==
            if IsHigh(op, RuleFor(st.rules, key)) then Min(RunOf(RunsAt(st, op.m), key) + 1, 120) else 0
  {
    TwoRules(st.rules);
    hide RuleFor;
  }

  lemma LastBefore(s: Items, item: string, ops: seq<Op>)
    requires Starts(s, item, ops) && ops != [] && Counted(s, item, ops[..|ops| - 1])
    ensures ops[|ops| - 1].m != StateOf(Run(s, ops[..|ops| - 1]).0, item).last
  {
  }

  /** The run a minute continues: the unbroken one if it follows the last evaluated minute, none after a gap. */
  lemma RunBefore(item: string, st: ItemState, ops: seq<Op>, key: string)
    requires MinutesOf(item, ops) && ops != [] && RunsMatch(st, item, ops[..|ops| - 1]) && KnownKey(key)
    requires |ops| == 1 ==> st.runs == map[]
    ensures var n, r := |ops| - 1, RuleFor(st.rules, key);
      RunOf(RunsAt(st, ops[n].m), key) ==
      if n > 0 && ops[n - 1].m + 1 == ops[n].m then Min(Unbroken(ops[..n], r), 120) else 0
  {
  }

  // ---------------------------------------------------------------- what the last minute emits

  /** The events of one key of the last call: it fires when the unbroken minutes reach the window, and resolves when it is not high. */
  ghost function KeyEvents(held: Option<Alert>, item: string, ops: seq<Op>, r: Rule): seq<Event>
    requires MinutesOf(item, ops) && ops != []
  {
    var op := ops[|ops| - 1];
    if !IsHigh(op, r) then
      if held.Some? then [Event(item, r.key, Resolved, if r.enabled && r.key in op.vals then op.vals[r.key] else 0.0, held.value.since)] else []
    else if held.None? && Unbroken(ops, r) >= r.minutes then
      [Event(item, r.key, Firing, op.vals[r.key], 60 * (op.m - Min(Unbroken(ops, r), 120) + 1))]
    else []
  }

  /**
   * After any minutes of an item, evaluated with whatever gaps, the next one
   * emits exactly this, cpu_high first.
   */
  lemma MinuteEmits(s: Items, item: string, ops: seq<Op>)
    requires Starts(s, item, ops) && ops != []
    ensures var n := |ops| - 1;
      var st := StateOf(Run(s, ops[..n]).0, item);
      && st.rules == StateOf(s, item).rules
      && Apply(Run(s, ops[..n]).0, ops[n]).1 ==
         KeyEvents(FindAlert(st.active, CPU), item, ops, RuleFor(st.rules, CPU))
         + KeyEvents(FindAlert(st.active, MEM), item, ops, RuleFor(st.rules, MEM))
  {
    hide ValidItems, ValidItem, MinuteAt, Apply, RunsMatch, View, KeyEvents, StateOf;
    var n := |ops| - 1;
    var before, op := Run(s, ops[..n]).0, ops[n];
    StartsInit(s, item, ops);
    RunsCounted(s, item, ops[..n]);
    LastBefore(s, item, ops);
    StateValid(before, item);
    MinuteMoves(before, item, op);
    FirstRuns(s, item, ops);
    KeyEmits(item, StateOf(before, item), ops, CPU);
    KeyEmits(item, StateOf(before, item), ops, MEM);
  }

  lemma KeyEmits(item: string, st: ItemState, ops: seq<Op>, key: string)
    requires MinutesOf(item, ops) && ops != [] && ValidItem(st) && RunsMatch(st, item, ops[..|ops| - 1]) && KnownKey(key)
    requires |ops| == 1 ==> st.runs == map[]
    ensures var op := ops[|ops| - 1];
      MinuteAt(item, st, key, op.m, op.vals).1 == KeyEvents(FindAlert(st.active, key), item, ops, RuleFor(st.rules, key))
  {
    TwoRules(st.rules);
    RunBefore(item, st, ops, key);
    UnbrokenNext(ops, RuleFor(st.rules, key));
    hide RuleFor, RunsAt, Unbroken, FindAlert, RunsMatch, ValidItem;
  }

  /**
   * So a firing event means what it says: each of the last minutes of the rule's
   * window was evaluated and high, and Since is the first minute of the run, not
   * more than 120 minutes back; a run that is shorter starts after a minute that
   * was not high or not evaluated at all.
   */
  lemma FiringMeansHigh(s: Items, item: string, ops: seq<Op>, e: Event)
    requires Starts(s, item, ops) && ops != []
    requires e in Apply(Run(s, ops[..|ops| - 1]).0, ops[|ops| - 1]).1 && e.state == Firing
    ensures e.item == item && KnownKey(e.key) && FiredRightly(item, ops, RuleFor(StateOf(s, item).rules, e.key), e)
  {
    hide ValidItems, ValidItem, Apply, Run, KeyEvents, RuleFor, FindAlert, FiredRightly, Unbroken, StateOf;
    var n, rules := |ops| - 1, StateOf(s, item).rules;
    MinuteEmits(s, item, ops);
    StateValid(s, item);
    TwoRules(rules);
    var active := StateOf(Run(s, ops[..n]).0, item).active;
    if e in KeyEvents(FindAlert(active, CPU), item, ops, RuleFor(rules, CPU)) {
      KeyFires(FindAlert(active, CPU), item, ops, RuleFor(rules, CPU), e);
    } else {
      KeyFires(FindAlert(active, MEM), item, ops, RuleFor(rules, MEM), e);
    }
  }

  ghost predicate FiredRightly(item: string, ops: seq<Op>, r: Rule, e: Event)
    requires MinutesOf(item, ops) && ops != []
  {
    var op, first := ops[|ops| - 1], e.since / 60;
    && e.since == 60 * first && op.m - 120 < first <= op.m - r.minutes + 1
    && (forall x :: first <= x <= op.m ==> WasHigh(ops, r, x))
    && (first > op.m - 119 ==> !WasHigh(ops, r, first - 1))
    && e.key in op.vals && e.value == op.vals[e.key]
  }

  lemma KeyFires(held: Option<Alert>, item: string, ops: seq<Op>, r: Rule, e: Event)
    requires MinutesOf(item, ops) && ops != [] && ValidRule(r)
    requires e in KeyEvents(held, item, ops, r) && e.state == Firing
    ensures e.item == item && e.key == r.key && FiredRightly(item, ops, r, e)
  {
    UnbrokenMinutes(item, ops, r);
    hide Unbroken, WasHigh;
  }

  /** A minute that was the last one evaluated is not evaluated again. */
  lemma RepeatedMinute(s: Items, op: Op)
    requires ValidItems(s) && op.Minute? && op.m == StateOf(s, op.item).last
    ensures Apply(s, op) == (s, [])
  {
    PutHeld(s, op.item);
  }

  // ---------------------------------------------------------------- rules, and what no call touches

  /** The same rule is in force for each key. */
  ghost predicate SameRules(s: Items, s': Items, item: string) {
    forall key :: KnownKey(key) ==> RuleFor(StateOf(s', item).rules, key) == RuleFor(StateOf(s, item).rules, key)
  }

  /** Evaluating a minute, recounting and resolving change no rule and no other item. */
  lemma RulesKept(s: Items, op: Op)
    requires ValidItems(s) && StoreItem(op) && (op.Minute? || op.Rebuild? || op.Resolve?)
    ensures SameRules(s, Apply(s, op).0, op.item) && OthersSame(s, Apply(s, op).0, op.item)
  {
    var st := StateOf(s, op.item);
    StateValid(s, op.item);
    match op {
      case Minute(item, m, vals) =>
        if m == st.last {
          PutHeld(s, item);
        } else {
          MinuteMoves(s, item, op);
        }
      case Rebuild(item, recent, now) => RecountPuts(s, item, st, recent, now);
      case Resolve(item) =>
        if item in s {
          PutState(s, item, ItemState(st.rules, [], map[], 0));
        }
    }
  }

  lemma PutHeld(s: Items, item: string)
    requires ValidItems(s)
    ensures Put(s, item, StateOf(s, item)) == s
  {
  }

  /** What is kept of a recounted state is that state, whole. */
  lemma RecountPuts(s: Items, item: string, st: ItemState, recent: Recent, now: int)
    requires ValidItem(st)
    ensures var st' := Reconcile(item, st, recent, now).0;
      && st'.rules == st.rules && StateOf(Put(s, item, st'), item) == st' && OthersSame(s, Put(s, item, st'), item)
      && (recent.Unreadable? ==> st'.active == st.active && st'.runs == st.runs && Reconcile(item, st, recent, now).1 == [])
  {
    if recent.Recent? {
      ReconcileByKey(item, st, recent.newest, recent.hist, now);
    }
    hide Put, RecountRules;
    PutState(s, item, Reconcile(item, st, recent, now).0);
  }

  /** A change that is accepted puts exactly the listed rules in force and leaves the other key as it was; one that is not changes nothing. */
  lemma ChangeSetsRules(s: Items, item: string, rules: seq<Rule>, recent: Recent, now: int)
    requires ValidItems(s)
    ensures var s' := Apply(s, Change(item, rules, recent, now)).0;
      if ValidUtf8(item) && ValidRules(rules)
      then OthersSame(s, s', item) && RulesSet(s, s', item, rules)
      else s' == s
  {
    ValidateExact(rules);
    if ValidUtf8(item) && ValidRules(rules) {
      StateValid(s, item);
      var st0 := StateOf(s, item);
      var st := st0.(rules := Merged(st0.rules, rules));
      forall key | KnownKey(key) ensures ValidRules(st.rules) && RuleFor(st.rules, key) == LastWith(rules, key, RuleFor(st0.rules, key)) {
        MergedRules(st0.rules, rules, key);
      }
      assert KnownKey(CPU);
      hide Reconcile, Put, Merged, Validate, RuleFor, LastWith, ValidRules, ValidUtf8;
      RecountPuts(s, item, st, recent, now);
    }
  }

  ghost predicate RulesSet(s: Items, s': Items, item: string, rules: seq<Rule>) {
    forall key :: KnownKey(key) ==> RuleFor(StateOf(s', item).rules, key) == LastWith(rules, key, RuleFor(StateOf(s, item).rules, key))
  }

  lemma {:induction false} ResolvedEach(item: string, active: seq<Alert>)
    ensures var evs := ResolvedEvents(item, active);
      forall i :: 0 <= i < |evs| ==> evs[i] == Event(item, active[i].key, Resolved, 0.0, active[i].since)
  {
    if active != [] {
      ResolvedEach(item, active[..|active| - 1]);
    }
  }

  /** Resolving ends each alert with one event, value 0, and leaves no alert and no run; the next alert takes a full new run. */
  lemma ResolveEnds(s: Items, item: string)
    requires ValidItems(s) && item in s
    ensures var st := StateOf(Apply(s, Op.Resolve(item)).0, item); st.active == [] && st.runs == map[] && st.last == 0
    ensures var active, evs := s[item].active, Apply(s, Op.Resolve(item)).1;
      |evs| == |active| && forall i :: 0 <= i < |evs| ==> evs[i] == Event(item, active[i].key, Resolved, 0.0, active[i].since)
  {
    ResolvedEach(item, s[item].active);
    PutState(s, item, ItemState(s[item].rules, [], map[], 0));
  }

  /** Pruning keeps the items named as they are, rules included, and no other. */
  lemma PruneKeeps(s: Items, keep: set<string>, k: string)
    ensures var s' := Apply(s, Op.Prune(keep)).0;
      (k in s' <==> k in s && k in keep) && (k in keep ==> StateOf(s', k) == StateOf(s, k))
  {
  }

  /** A restart from what was saved has every item with the same rules, alerts and runs. */
  lemma ReloadKeeps(s: Items, k: string)
    requires ValidItems(s)
    ensures Loaded(State(s)).Some? && StateOf(Loaded(State(s)).value, k) == StateOf(s, k)
  {
    SavedIsLoadable(s, []);
  }

  // ---------------------------------------------------------------- recounts

  /** The rule is on, the ring is up to date, and the high minutes at the end of its rows reach the window. */
  ghost predicate IsDue(r: Rule, rows: seq<AlertRuns.Row>, newest: int, now: int) {
    AlertRuns.UpToDate(newest, now) && r.enabled && AlertRuns.Trailing(rows, r) >= r.minutes
  }

  /** What a recount emits for a key: the difference between the alert held and the one due. */
  ghost function RecountEvents(held: Option<Alert>, item: string, r: Rule, rows: seq<AlertRuns.Row>, newest: int, now: int): seq<Event> {
    if held.Some? && !IsDue(r, rows, newest, now) then
      [Event(item, r.key, Resolved, if AlertRuns.UpToDate(newest, now) then AlertRuns.LastValue(rows, SeriesOf(r.key)) else 0.0, held.value.since)]
    else if held.None? && IsDue(r, rows, newest, now) then
      [Event(item, r.key, Firing, AlertRuns.LastValue(rows, SeriesOf(r.key)), 60 * (newest - r.minutes + 1))]
    else []
  }

  /** An alert is held exactly when it is due, the one there was if there was one, and its run is counted again. */
  ghost predicate KeyRecounted(before: ItemState, after: ItemState, key: string, rows: seq<AlertRuns.Row>, newest: int, now: int) {
    var held, r := FindAlert(before.active, key), RuleFor(after.rules, key);
    && (FindAlert(after.active, key).Some? <==> IsDue(r, rows, newest, now))
    && (held.Some? && IsDue(r, rows, newest, now) ==> FindAlert(after.active, key) == held)
    && RunOf(after.runs, key) == if AlertRuns.UpToDate(newest, now) then Min(AlertRuns.TrueRun(rows, r), r.minutes) else 0
  }

  /** So do both calls that recount, a start and an accepted change, the latter by the rules in force after it. */
  lemma CallRecounts(s: Items, op: Op, rows: seq<AlertRuns.Row>)
    requires ValidItems(s) && (op.Rebuild? || (op.Change? && ValidUtf8(op.item) && ValidRules(op.rules)))
    requires op.recent.Recent? && AlertRuns.Shows(op.recent.hist, rows)
    ensures var (s', evs) := Apply(s, op);
      var before, after := StateOf(s, op.item), StateOf(s', op.item);
      && KeyRecounted(before, after, CPU, rows, op.recent.newest, op.now) && KeyRecounted(before, after, MEM, rows, op.recent.newest, op.now)
      && evs == RecountEvents(FindAlert(before.active, CPU), op.item, RuleFor(after.rules, CPU), rows, op.recent.newest, op.now)
                + RecountEvents(FindAlert(before.active, MEM), op.item, RuleFor(after.rules, MEM), rows, op.recent.newest, op.now)
  {
    var before := StateOf(s, op.item);
    StateValid(s, op.item);
    var st := before;
    if op.Change? {
      ValidateExact(op.rules);
      MergedRules(before.rules, op.rules, CPU);
      st := before.(rules := Merged(before.rules, op.rules));
    }
    hide Reconcile, Put, Merged, Validate, RuleFor, ValidRules, ValidUtf8, FindAlert, KeyRecounted, RecountEvents, AlertRuns.Shows;
    RecountPuts(s, op.item, st, op.recent, op.now);
    StateRecounts(op.item, st, rows, op.recent.newest, op.recent.hist, op.now);
  }

  lemma StateRecounts(item: string, st: ItemState, rows: seq<AlertRuns.Row>, newest: int, hist: map<string, seq<Cell>>, now: int)
    requires ValidItem(st) && AlertRuns.Shows(hist, rows)
    ensures var (after, evs) := Reconcile(item, st, Recent(newest, hist), now);
      && after.rules == st.rules
      && KeyRecounted(st, after, CPU, rows, newest, now) && KeyRecounted(st, after, MEM, rows, newest, now)
      && evs == RecountEvents(FindAlert(st.active, CPU), item, RuleFor(st.rules, CPU), rows, newest, now)
                + RecountEvents(FindAlert(st.active, MEM), item, RuleFor(st.rules, MEM), rows, newest, now)
  {
    hide Reconcile, RuleFor, FindAlert, AlertRuns.Shows, RecountOf, KeyRecounted, RecountEvents, RunOf;
    ReconcileByKey(item, st, newest, hist, now);
    KeyRecounts(item, st, Reconcile(item, st, Recent(newest, hist), now).0, rows, newest, hist, now, CPU);
    KeyRecounts(item, st, Reconcile(item, st, Recent(newest, hist), now).0, rows, newest, hist, now, MEM);
  }

  lemma KeyRecounts(item: string, st: ItemState, after: ItemState, rows: seq<AlertRuns.Row>, newest: int, hist: map<string, seq<Cell>>, now: int, key: string)
    requires ValidItem(st) && AlertRuns.Shows(hist, rows) && KnownKey(key)
    requires after.rules == st.rules && View(after, key) == RecountOf(item, st, key, newest, hist, now).0
    ensures KeyRecounted(st, after, key, rows, newest, now)
    ensures RecountOf(item, st, key, newest, hist, now).1 ==
            RecountEvents(FindAlert(st.active, key), item, RuleFor(st.rules, key), rows, newest, now)
  {
    TwoRules(st.rules);
    var r := RuleFor(st.rules, key);
    hide RuleFor, FindAlert, AlertRuns.Shows, HistoryOf, AlertRuns.Trailing, AlertRuns.LastValue, ValidItem;
    AlertRuns.FreshIff(newest, now);
    if AlertRuns.UpToDate(newest, now) {
      hide RecountedRun, NewestValue;
      AlertRuns.RecountFindsRun(hist, rows, r);
      AlertRuns.NewestIsLastValue(hist, rows, key);
    }
  }

  /** A recount that cannot read the ring changes no alert, no run and no rule, and emits nothing. */
  lemma UnreadableKeeps(s: Items, item: string, now: int)
    requires ValidItems(s)
    ensures var (s', evs) := Apply(s, Op.Rebuild(item, Unreadable, now));
      var st, st' := StateOf(s, item), StateOf(s', item);
      && evs == [] && st'.rules == st.rules && st'.active == st.active && st'.runs == st.runs && OthersSame(s, s', item)
  {
    StateValid(s, item);
    RecountPuts(s, item, StateOf(s, item), Unreadable, now);
  }
}

/**
 * The judgement of one item seen one rule key at a time. Both loops over the
 * rules of AlertModel act on each key on its own; everything proved about
 * alerts afterwards is proved on these views.
 */
module AlertViews {
  import opened Types
  import opened Rules
  import opened Ordering
  import opened AlertModel

  /** What an item state holds for one key. */
  datatype KeyState = KeyState(alert: Option<Alert>, run: int)

  function FindAlert(active: seq<Alert>, key: string): Option<Alert> {
    var i := AlertIndex(active, key);
    if i < 0 then None else Some(active[i])
  }

  function View(st: ItemState, key: string): KeyState {
    KeyState(FindAlert(st.active, key), RunOf(st.runs, key))
  }

  function Project(j: Judged, key: string): KeyState {
    KeyState(FindAlert(j.active, key), RunOf(j.runs, key))
  }

  ghost predicate DistinctKeys(active: seq<Alert>) {
    forall i, j :: 0 <= i < j < |active| ==> active[i].key != active[j].key
  }

  ghost predicate KnownKeys(active: seq<Alert>) {
    forall i :: 0 <= i < |active| ==> KnownKey(active[i].key)
  }

  ghost predicate ValidRuns(runs: map<string, int>) {
    forall k :: k in runs ==> KnownKey(k) && 0 <= runs[k] <= MAX_RUN
  }

  /** What load demands of an item and every call keeps. */
  ghost predicate ValidItem(st: ItemState) {
    ValidRules(st.rules) && DistinctKeys(st.active) && KnownKeys(st.active) && ValidRuns(st.runs)
  }

  ghost predicate ValidJudged(j: Judged) {
    DistinctKeys(j.active) && KnownKeys(j.active) && ValidRuns(j.runs)
  }

  // ---------------------------------------------------------------- alert lists

  lemma FindUnique(active: seq<Alert>, a: Alert)
    requires DistinctKeys(active)
    ensures a in active <==> FindAlert(active, a.key) == Some(a)
  {
  }

  lemma WithoutMembers(active: seq<Alert>, i: nat, a: Alert)
    requires i < |active| && DistinctKeys(active)
    ensures a in Without(active, i) <==> a in active && a.key != active[i].key
  {
    var w := Without(active, i);
    if a in w {
      var j :| 0 <= j < |w| && w[j] == a;
      assert w[j] == active[if j < i then j else j + 1];
    }
    if a in active && a.key != active[i].key {
      var j :| 0 <= j < |active| && active[j] == a;
      assert w[if j < i then j else j - 1] == a;
    }
  }

  lemma WithoutDistinct(active: seq<Alert>, i: nat)
    requires i < |active| && DistinctKeys(active)
    ensures DistinctKeys(Without(active, i))
    ensures KnownKeys(active) ==> KnownKeys(Without(active, i))
  {
    var w := Without(active, i);
    assert forall j :: 0 <= j < |w| ==> w[j] == active[if j < i then j else j + 1];
  }

  lemma WithoutFinds(active: seq<Alert>, i: nat, key: string)
    requires i < |active| && DistinctKeys(active)
    ensures DistinctKeys(Without(active, i))
    ensures KnownKeys(active) ==> KnownKeys(Without(active, i))
    ensures FindAlert(Without(active, i), key) == if key == active[i].key then None else FindAlert(active, key)
  {
    var w := Without(active, i);
    WithoutDistinct(active, i);
    if FindAlert(active, key).Some? {
      WithoutMembers(active, i, FindAlert(active, key).value);
      FindUnique(w, FindAlert(active, key).value);
    }
    if FindAlert(w, key).Some? {
      WithoutMembers(active, i, FindAlert(w, key).value);
      FindUnique(active, FindAlert(w, key).value);
    }
  }

  lemma {:induction false} InsertKeeps(active: seq<Alert>, a: Alert)
    ensures forall x :: x in InsertByKey(active, a) <==> x in active || x == a
    ensures DistinctKeys(active) && AlertIndex(active, a.key) < 0 ==> DistinctKeys(InsertByKey(active, a))
  {
    if active != [] && !Less(a.key, active[0].key) {
      var rest := InsertByKey(active[1..], a);
      InsertKeeps(active[1..], a);
      assert active == [active[0]] + active[1..];
      if DistinctKeys(active) && AlertIndex(active, a.key) < 0 {
        forall i | 0 <= i < |rest| ensures rest[i].key != active[0].key {
          assert rest[i] in active[1..] || rest[i] == a;
        }
      }
    }
  }

  lemma {:induction false} SortKeeps(active: seq<Alert>)
    requires DistinctKeys(active)
    ensures forall x :: x in SortByKey(active) <==> x in active
    ensures DistinctKeys(SortByKey(active))
  {
    if active != [] {
      var rest := active[..|active| - 1];
      var a := active[|active| - 1];
      SortKeeps(rest);
      InsertKeeps(SortByKey(rest), a);
      assert active == rest + [a];
      forall i | 0 <= i < |SortByKey(rest)| ensures SortByKey(rest)[i].key != a.key {
        assert SortByKey(rest)[i] in rest;
      }
    }
  }

  lemma SortFinds(active: seq<Alert>, key: string)
    requires DistinctKeys(active)
    ensures DistinctKeys(SortByKey(active))
    ensures KnownKeys(active) ==> KnownKeys(SortByKey(active))
    ensures FindAlert(SortByKey(active), key) == FindAlert(active, key)
  {
    var s := SortByKey(active);
    SortKeeps(active);
    forall i | 0 <= i < |s| ensures s[i] in active {
    }
    if FindAlert(active, key).Some? {
      FindUnique(s, FindAlert(active, key).value);
    } else if FindAlert(s, key).Some? {
      FindUnique(active, FindAlert(s, key).value);
    }
  }

  // ---------------------------------------------------------------- the rules in force

  lemma OverlayShape(out: seq<Rule>, r: Rule)
    requires |out| == 2 && out[0].key == CPU && out[1].key == MEM
    requires ValidRule(out[0]) && ValidRule(out[1]) && ValidRule(r)
    ensures var o := Overlay(out, r);
      && o[0].key == CPU && o[1].key == MEM && ValidRule(o[0]) && ValidRule(o[1])
      && o[0] == (if r.key == CPU then r else out[0])
      && o[1] == (if r.key == MEM then r else out[1])
  {
  }

  /** The last rule of rules with the given key, otherwise d. */
  function LastWith(rules: seq<Rule>, key: string, d: Rule): Rule {
    if rules == [] then d
    else if rules[|rules| - 1].key == key then rules[|rules| - 1]
    else LastWith(rules[..|rules| - 1], key, d)
  }

  lemma {:induction false} OverlayAllShape(out: seq<Rule>, rules: seq<Rule>)
    requires |out| == 2 && out[0].key == CPU && out[1].key == MEM
    requires ValidRule(out[0]) && ValidRule(out[1]) && forall i :: 0 <= i < |rules| ==> ValidRule(rules[i])
    ensures var o := OverlayAll(out, rules);
      && o[0].key == CPU && o[1].key == MEM && ValidRule(o[0]) && ValidRule(o[1])
      && o[0] == LastWith(rules, CPU, out[0])
      && o[1] == LastWith(rules, MEM, out[1])
  {
    if rules != [] {
      OverlayAllShape(out, rules[..|rules| - 1]);
      OverlayShape(OverlayAll(out, rules[..|rules| - 1]), rules[|rules| - 1]);
    }
  }

  /**
   * For any valid overrides the rules in force are exactly one valid rule per
   * key, cpu_high first: the override of that key, or its default.
   */
  lemma EffectiveShape(overrides: seq<Rule>)
    requires ValidRules(overrides)
    ensures var e := Effective(overrides);
      && |e| == 2 && e[0].key == CPU && e[1].key == MEM && ValidRule(e[0]) && ValidRule(e[1])
      && e[0] == LastWith(overrides, CPU, DefaultRules()[0])
      && e[1] == LastWith(overrides, MEM, DefaultRules()[1])
  {
    OverlayAllShape(DefaultRules(), overrides);
  }

  /** The rule in force for key. */
  function RuleFor(overrides: seq<Rule>, key: string): Rule {
    LastWith(overrides, key, DefaultRules()[if key == CPU then 0 else 1])
  }

  lemma TwoRules(overrides: seq<Rule>)
    requires ValidRules(overrides)
    ensures Effective(overrides) == [RuleFor(overrides, CPU), RuleFor(overrides, MEM)]
    ensures RuleFor(overrides, CPU).key == CPU && RuleFor(overrides, MEM).key == MEM
    ensures ValidRule(RuleFor(overrides, CPU)) && ValidRule(RuleFor(overrides, MEM))
  {
    EffectiveShape(overrides);
    assert CPU != MEM by { assert CPU[0] != MEM[0]; }
  }

  /** Changing rules changes exactly the keys listed; the others keep theirs. */
  lemma MergedRules(overrides: seq<Rule>, rules: seq<Rule>, key: string)
    requires ValidRules(overrides) && ValidRules(rules) && KnownKey(key)
    ensures ValidRules(Merged(overrides, rules))
    ensures RuleFor(Merged(overrides, rules), key) == LastWith(rules, key, RuleFor(overrides, key))
  {
    EffectiveShape(overrides);
    OverlayAllShape(Effective(overrides), rules);
    var o := OverlayAll(Effective(overrides), rules);
    assert CPU != MEM by { assert CPU[0] != MEM[0]; }
    assert o == [o[0], o[1]];
    assert ValidRules(o);
    assert o[..1] == [o[0]] && [o[0]][..0] == [];
    assert LastWith(o, key, DefaultRules()[if key == CPU then 0 else 1]) == o[if key == CPU then 0 else 1] by {
      if key == CPU {
        assert LastWith(o[..1], CPU, DefaultRules()[0]) == o[0];
      }
    }
    if o == DefaultRules() {
      assert LastWith([], key, o[0]) == o[0] && LastWith([], key, o[1]) == o[1];
    }
  }

  // ---------------------------------------------------------------- one key of one minute

  function ValueOf(vals: map<string, real>, key: string): Option<real> {
    if key in vals then Some(vals[key]) else None
  }

  predicate HighValue(v: Option<real>, r: Rule) {
    r.enabled && v.Some? && !Below(v.value, r.threshold)
  }

  /** The value an event reports: 0 when the rule is off or the minute lacks the series. */
  function Reported(v: Option<real>, r: Rule): real {
    if r.enabled && v.Some? then v.value else 0.0
  }

  /** What a minute m with value v does to one key. */
  function KeyMinute(k: KeyState, item: string, r: Rule, m: int, v: Option<real>): (KeyState, seq<Event>) {
    if !HighValue(v, r) then
      (KeyState(None, 0),
       if k.alert.Some? then [Event(item, r.key, Resolved, Reported(v, r), k.alert.value.since)] else [])
    else
      var n := Min(k.run + 1, MAX_RUN);
      if n >= r.minutes && k.alert.None? then
        (KeyState(Some(Alert(r.key, (m - n + 1) * 60, v.value)), n),
         [Event(item, r.key, Firing, v.value, (m - n + 1) * 60)])
      else (KeyState(k.alert, n), [])
  }

  /** What a recount to a run of n ending at minute newest, whose value is v, does to one key. */
  function KeyRecount(alert: Option<Alert>, item: string, r: Rule, newest: int, n: nat, v: real): (KeyState, seq<Event>) {
    if alert.Some? && n < r.minutes then
      (KeyState(None, n), [Event(item, r.key, Resolved, v, alert.value.since)])
    else if alert.None? && n >= r.minutes then
      (KeyState(Some(Alert(r.key, (newest - n + 1) * 60, v)), n),
       [Event(item, r.key, Firing, v, (newest - n + 1) * 60)])
    else (KeyState(alert, n), [])
  }

  lemma EndedByKey(j: Judged, item: string, key: string, v: real, other: string)
    requires ValidJudged(j)
    ensures var j' := Ended(j, item, key, v);
      && ValidJudged(j') && j'.runs == j.runs
      && FindAlert(j'.active, other) == (if other == key then None else FindAlert(j.active, other))
      && j'.events == j.events + (if FindAlert(j.active, key).Some?
                                  then [Event(item, key, Resolved, v, FindAlert(j.active, key).value.since)] else [])
  {
    var i := AlertIndex(j.active, key);
    if i >= 0 {
      WithoutFinds(j.active, i, other);
    } else {
      assert j.events + [] == j.events;
    }
  }

  lemma FiredByKey(j: Judged, item: string, key: string, sinceMin: int, v: real, other: string)
    requires ValidJudged(j) && FindAlert(j.active, key).None? && KnownKey(key)
    ensures var j' := Fired(j, item, key, sinceMin, v);
      && ValidJudged(j') && j'.runs == j.runs
      && FindAlert(j'.active, other) == (if other == key then Some(Alert(key, sinceMin * 60, v)) else FindAlert(j.active, other))
      && j'.events == j.events + [Event(item, key, Firing, v, sinceMin * 60)]
  {
    var a := Alert(key, sinceMin * 60, v);
    var grown := j.active + [a];
    assert DistinctKeys(grown) && KnownKeys(grown);
    SortFinds(grown, other);
    assert a in grown;
    FindUnique(grown, a);
    if other != key {
      if FindAlert(j.active, other).Some? {
        FindUnique(j.active, FindAlert(j.active, other).value);
        assert FindAlert(j.active, other).value in grown;
        FindUnique(grown, FindAlert(j.active, other).value);
      } else if FindAlert(grown, other).Some? {
        FindUnique(grown, FindAlert(grown, other).value);
        FindUnique(j.active, FindAlert(grown, other).value);
      }
    }
  }

  lemma LowByKey(j: Judged, item: string, r: Rule, m: int, vals: map<string, real>, other: string)
    requires ValidJudged(j) && ValidRule(r) && !HighValue(ValueOf(vals, r.key), r)
    ensures JudgedAs(j, JudgeRule(j, item, r, m, vals), r.key, KeyMinute(Project(j, r.key), item, r, m, ValueOf(vals, r.key)), other)
  {
    var v := Reported(ValueOf(vals, r.key), r);
    EndedByKey(j, item, r.key, v, other);
    DropRun(j, Ended(j, item, r.key, v), r.key, other);
  }

  lemma DropRun(j: Judged, ended: Judged, key: string, other: string)
    requires ValidJudged(j) && ValidJudged(ended) && ended.runs == j.runs
    ensures ValidJudged(ended.(runs := j.runs - {key}))
    ensures RunOf(j.runs - {key}, other) == if other == key then 0 else RunOf(j.runs, other)
  {
  }

  lemma SetRun(j: Judged, key: string, n: nat, other: string)
    requires ValidJudged(j) && KnownKey(key) && n <= MAX_RUN
    ensures ValidJudged(j.(runs := j.runs[key := n]))
    ensures RunOf(j.runs[key := n], other) == if other == key then n else RunOf(j.runs, other)
  {
  }

  lemma FiresByKey(j: Judged, item: string, r: Rule, m: int, vals: map<string, real>, other: string)
    requires ValidJudged(j) && ValidRule(r) && HighValue(ValueOf(vals, r.key), r)
    requires Min(RunOf(j.runs, r.key) + 1, MAX_RUN) >= r.minutes && FindAlert(j.active, r.key).None?
    ensures JudgedAs(j, JudgeRule(j, item, r, m, vals), r.key, KeyMinute(Project(j, r.key), item, r, m, ValueOf(vals, r.key)), other)
  {
    hide SortByKey, Without;
    var n := Min(RunOf(j.runs, r.key) + 1, MAX_RUN);
    var counted := j.(runs := j.runs[r.key := n]);
    SetRun(j, r.key, n, other);
    var fired := Fired(counted, item, r.key, m - n + 1, vals[r.key]);
    assert JudgeRule(j, item, r, m, vals) == fired;
    FiredByKey(counted, item, r.key, m - n + 1, vals[r.key], other);
    assert fired.runs == counted.runs;
  }

  lemma CountsByKey(j: Judged, item: string, r: Rule, m: int, vals: map<string, real>, other: string)
    requires ValidJudged(j) && ValidRule(r) && HighValue(ValueOf(vals, r.key), r)
    requires Min(RunOf(j.runs, r.key) + 1, MAX_RUN) < r.minutes || FindAlert(j.active, r.key).Some?
    ensures JudgedAs(j, JudgeRule(j, item, r, m, vals), r.key, KeyMinute(Project(j, r.key), item, r, m, ValueOf(vals, r.key)), other)
  {
    SetRun(j, r.key, Min(RunOf(j.runs, r.key) + 1, MAX_RUN), other);
    assert j.events + [] == j.events;
  }

  /** j' is j after its key moved as step says, every other key left alone. */
  ghost predicate JudgedAs(j: Judged, j': Judged, key: string, step: (KeyState, seq<Event>), other: string) {
    && ValidJudged(j') && j'.events == j.events + step.1
    && Project(j', other) == (if other == key then step.0 else Project(j, other))
  }

  /** Judging one rule moves its own key as KeyMinute says and leaves every other key alone. */
  lemma JudgeRuleByKey(j: Judged, item: string, r: Rule, m: int, vals: map<string, real>, other: string)
    requires ValidJudged(j) && ValidRule(r)
    ensures JudgedAs(j, JudgeRule(j, item, r, m, vals), r.key, KeyMinute(Project(j, r.key), item, r, m, ValueOf(vals, r.key)), other)
  {
    if HighValue(ValueOf(vals, r.key), r) {
      if Min(RunOf(j.runs, r.key) + 1, MAX_RUN) >= r.minutes && FindAlert(j.active, r.key).None? {
        FiresByKey(j, item, r, m, vals, other);
      } else {
        CountsByKey(j, item, r, m, vals, other);
      }
    } else {
      LowByKey(j, item, r, m, vals, other);
    }
  }

  /** The events so far only go in front of those of the next rule. */
  lemma JudgeRuleAppends(active: seq<Alert>, runs: map<string, int>, evs: seq<Event>, item: string, r: Rule, m: int, vals: map<string, real>)
    ensures var j := JudgeRule(Judged(active, runs, []), item, r, m, vals);
      JudgeRule(Judged(active, runs, evs), item, r, m, vals) == j.(events := evs + j.events)
  {
    hide SortByKey, Without;
    assert evs + [] == evs;
  }

  lemma RecountRuleAppends(active: seq<Alert>, runs: map<string, int>, evs: seq<Event>, item: string, r: Rule, newest: int, hist: map<string, seq<Cell>>, current: bool)
    ensures var j := RecountRule(Judged(active, runs, []), item, r, newest, hist, current);
      RecountRule(Judged(active, runs, evs), item, r, newest, hist, current) == j.(events := evs + j.events)
  {
    hide SortByKey, Without, RecountedRun, NewestValue;
    assert evs + [] == evs;
  }

  lemma JudgePair(active: seq<Alert>, runs: map<string, int>, item: string, a: Rule, b: Rule, m: int, vals: map<string, real>)
    requires ValidJudged(Judged(active, runs, [])) && ValidRule(a) && ValidRule(b) && a.key != b.key
    ensures var j0 := Judged(active, runs, []);
      var j := JudgeRules(j0, item, [a, b], m, vals);
      var sa := KeyMinute(Project(j0, a.key), item, a, m, ValueOf(vals, a.key));
      var sb := KeyMinute(Project(j0, b.key), item, b, m, ValueOf(vals, b.key));
      ValidJudged(j) && Project(j, a.key) == sa.0 && Project(j, b.key) == sb.0 && j.events == sa.1 + sb.1
  {
    hide JudgeRule, KeyMinute;
    var j0 := Judged(active, runs, []);
    var j1 := JudgeRule(j0, item, a, m, vals);
    assert [a, b][..1] == [a] && [a][..0] == [];
    assert JudgeRules(j0, item, [a], m, vals) == j1 by {
      assert JudgeRules(j0, item, [], m, vals) == j0;
    }
    assert JudgeRules(j0, item, [a, b], m, vals) == JudgeRule(j1, item, b, m, vals);
    JudgeRuleByKey(j0, item, a, m, vals, a.key);
    JudgeRuleByKey(j0, item, a, m, vals, b.key);
    JudgeRuleByKey(j1, item, b, m, vals, a.key);
    JudgeRuleByKey(j1, item, b, m, vals, b.key);
  }

  function MinuteAt(item: string, st: ItemState, key: string, m: int, vals: map<string, real>): (KeyState, seq<Event>) {
    KeyMinute(KeyState(FindAlert(st.active, key), RunOf(RunsAt(st, m), key)), item, RuleFor(st.rules, key), m, ValueOf(vals, key))
  }

  /** A minute acts on an item exactly as KeyMinute on each key, events of cpu_high first. */
  lemma OnMinuteByKey(item: string, st: ItemState, m: int, vals: map<string, real>)
    requires ValidItem(st) && m != st.last
    ensures var (st', evs) := OnMinute(item, st, m, vals);
      && ValidItem(st') && st'.rules == st.rules
      && View(st', CPU) == MinuteAt(item, st, CPU, m, vals).0
      && View(st', MEM) == MinuteAt(item, st, MEM, m, vals).0
      && evs == MinuteAt(item, st, CPU, m, vals).1 + MinuteAt(item, st, MEM, m, vals).1
      && st'.last == (if st'.runs == map[] then 0 else m)
  {
    hide JudgeRules, KeyMinute, RuleFor, FindAlert;
    TwoRules(st.rules);
    assert CPU != MEM by { assert CPU[0] != MEM[0]; }
    JudgePair(st.active, RunsAt(st, m), item, RuleFor(st.rules, CPU), RuleFor(st.rules, MEM), m, vals);
  }

  function RecountStep(alert: Option<Alert>, item: string, r: Rule, newest: int, hist: map<string, seq<Cell>>, current: bool): (KeyState, seq<Event>) {
    KeyRecount(alert, item, r, newest, RecountedRun(HistoryOf(hist, r.key), r, current), NewestValue(HistoryOf(hist, r.key), current))
  }

  lemma AddRun(j: Judged, moved: Judged, key: string, n: nat, other: string)
    requires ValidJudged(j) && ValidJudged(moved) && moved.runs == j.runs && key !in j.runs && KnownKey(key) && n <= MAX_RUN
    ensures var j' := if n > 0 then moved.(runs := j.runs[key := n]) else moved;
      && ValidJudged(j') && j'.active == moved.active && j'.events == moved.events
      && RunOf(j'.runs, other) == (if other == key then n else RunOf(j.runs, other))
      && forall x :: x in j'.runs ==> x in j.runs || x == key
  {
  }

  /** What a recount to a run of n minutes, the newest value being v, makes of a rule. */
  function Moved(j: Judged, item: string, r: Rule, newest: int, n: nat, v: real): Judged {
    var held := FindAlert(j.active, r.key);
    if held.Some? && n < r.minutes then Ended(j, item, r.key, v)
    else if held.None? && n >= r.minutes then Fired(j, item, r.key, newest - n + 1, v)
    else j
  }

  lemma MovedByKey(j: Judged, item: string, r: Rule, newest: int, n: nat, v: real, other: string)
    requires ValidJudged(j) && ValidRule(r)
    ensures var moved, step := Moved(j, item, r, newest, n, v), KeyRecount(FindAlert(j.active, r.key), item, r, newest, n, v);
      && ValidJudged(moved) && moved.runs == j.runs && moved.events == j.events + step.1
      && FindAlert(moved.active, other) == (if other == r.key then step.0.alert else FindAlert(j.active, other))
  {
    var held := FindAlert(j.active, r.key);
    hide FindAlert, Ended, Fired;
    if held.Some? && n < r.minutes {
      EndedByKey(j, item, r.key, v, other);
    } else if held.None? && n >= r.minutes {
      FiredByKey(j, item, r.key, newest - n + 1, v, other);
    } else {
      assert j.events + [] == j.events;
    }
  }

  lemma RecountIsMove(j: Judged, item: string, r: Rule, newest: int, hist: map<string, seq<Cell>>, current: bool)
    requires ValidRule(r)
    ensures var n := RecountedRun(HistoryOf(hist, r.key), r, current);
      var moved := Moved(j, item, r, newest, n, NewestValue(HistoryOf(hist, r.key), current));
      n <= MAX_RUN && RecountRule(j, item, r, newest, hist, current) == if n > 0 then moved.(runs := j.runs[r.key := n]) else moved
  {
    hide HistoryOf, NewestValue, Ended, Fired;
  }

  /** Recounting one rule moves its own key as KeyRecount says and leaves every other key alone. */
  lemma RecountRuleByKey(j: Judged, item: string, r: Rule, newest: int, hist: map<string, seq<Cell>>, current: bool, other: string)
    requires ValidJudged(j) && ValidRule(r) && r.key !in j.runs
    ensures JudgedAs(j, RecountRule(j, item, r, newest, hist, current), r.key,
                     RecountStep(FindAlert(j.active, r.key), item, r, newest, hist, current), other)
    ensures forall x :: x in RecountRule(j, item, r, newest, hist, current).runs ==> x in j.runs || x == r.key
  {
    var n := RecountedRun(HistoryOf(hist, r.key), r, current);
    var v := NewestValue(HistoryOf(hist, r.key), current);
    hide HistoryOf, RecountedRun, NewestValue, RecountRule, Moved, FindAlert, ValidJudged;
    RecountIsMove(j, item, r, newest, hist, current);
    MovedByKey(j, item, r, newest, n, v, other);
    AddRun(j, Moved(j, item, r, newest, n, v), r.key, n, other);
  }

  lemma RecountPair(active: seq<Alert>, item: string, a: Rule, b: Rule, newest: int, hist: map<string, seq<Cell>>, current: bool)
    requires ValidJudged(Judged(active, map[], [])) && ValidRule(a) && ValidRule(b) && a.key != b.key
    ensures var j := RecountRules(Judged(active, map[], []), item, [a, b], newest, hist, current);
      var sa := RecountStep(FindAlert(active, a.key), item, a, newest, hist, current);
      var sb := RecountStep(FindAlert(active, b.key), item, b, newest, hist, current);
      ValidJudged(j) && Project(j, a.key) == sa.0 && Project(j, b.key) == sb.0 && j.events == sa.1 + sb.1
  {
    hide RecountRule, RecountStep;
    var j0 := Judged(active, map[], []);
    var j1 := RecountRule(j0, item, a, newest, hist, current);
    assert [a, b][..1] == [a] && [a][..0] == [];
    assert RecountRules(j0, item, [a], newest, hist, current) == j1 by {
      assert RecountRules(j0, item, [], newest, hist, current) == j0;
    }
    assert RecountRules(j0, item, [a, b], newest, hist, current) == RecountRule(j1, item, b, newest, hist, current);
    RecountRuleByKey(j0, item, a, newest, hist, current, a.key);
    RecountRuleByKey(j0, item, a, newest, hist, current, b.key);
    RecountRuleByKey(j1, item, b, newest, hist, current, a.key);
    RecountRuleByKey(j1, item, b, newest, hist, current, b.key);
  }

  function RecountOf(item: string, st: ItemState, key: string, newest: int, hist: map<string, seq<Cell>>, now: int): (KeyState, seq<Event>) {
    RecountStep(FindAlert(st.active, key), item, RuleFor(st.rules, key), newest, hist, IsFresh(newest, now))
  }

  /** A recount acts on an item exactly as KeyRecount on each key, events of cpu_high first. */
  lemma ReconcileByKey(item: string, st: ItemState, newest: int, hist: map<string, seq<Cell>>, now: int)
    requires ValidItem(st)
    ensures var (st', evs) := Reconcile(item, st, Recent(newest, hist), now);
      && ValidItem(st') && st'.rules == st.rules
      && View(st', CPU) == RecountOf(item, st, CPU, newest, hist, now).0
      && View(st', MEM) == RecountOf(item, st, MEM, newest, hist, now).0
      && evs == RecountOf(item, st, CPU, newest, hist, now).1 + RecountOf(item, st, MEM, newest, hist, now).1
      && st'.last == (if st'.runs == map[] then 0 else newest)
  {
    hide RecountRules, RecountStep, RuleFor, FindAlert;
    TwoRules(st.rules);
    assert CPU != MEM by { assert CPU[0] != MEM[0]; }
    RecountPair(st.active, item, RuleFor(st.rules, CPU), RuleFor(st.rules, MEM), newest, hist, IsFresh(newest, now));
  }
}

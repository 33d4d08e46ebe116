/**
 * The whole event stream: alerts of every item and key alternate, and every
 * state a run of calls reaches is one that load accepts unchanged.
 */
module AlertLog {
  import opened Types
  import opened Rules
  import opened AlertModel
  import opened AlertViews

  const NOTHING: seq<Event> := []

  // ---------------------------------------------------------------- reading the stream

  /** What a reader of the stream believes about one alert; Broken once the stream made no sense. */
  datatype Track = Off | On(since: int, value: real) | Broken

  /** firing is allowed only when off, resolved only when on and with the Since of its firing. */
  function Follow(t: Track, e: Event, item: string, key: string): Track {
    if e.item != item || e.key != key then t
    else match t
      case Off => if e.state.Firing? then On(e.since, e.value) else Broken
      case On(since, _) => if e.state.Resolved? && e.since == since then Off else Broken
      case Broken => Broken
  }

  function FollowAll(t: Track, evs: seq<Event>, item: string, key: string): Track {
    if evs == [] then t
    else Follow(FollowAll(t, evs[..|evs| - 1], item, key), evs[|evs| - 1], item, key)
  }

  function TrackOfAlert(a: Option<Alert>): Track {
    match a
    case None => Off
    case Some(x) => On(x.since, x.value)
  }

  /** What the evaluator holds. */
  function TrackOf(s: Items, item: string, key: string): Track {
    TrackOfAlert(FindAlert(StateOf(s, item).active, key))
  }

  lemma {:induction false} FollowConcat(t: Track, a: seq<Event>, b: seq<Event>, item: string, key: string)
    ensures FollowAll(t, a + b, item, key) == FollowAll(FollowAll(t, a, item, key), b, item, key)
  {
    if b == [] {
      assert a + b == a;
    } else {
      FollowConcat(t, a, b[..|b| - 1], item, key);
      assert (a + b)[..|a + b| - 1] == a + b[..|b| - 1];
    }
  }

  /** Events of other alerts change nothing. */
  lemma {:induction false} FollowOthers(t: Track, evs: seq<Event>, item: string, key: string)
    requires forall i :: 0 <= i < |evs| ==> evs[i].item != item || evs[i].key != key
    ensures FollowAll(t, evs, item, key) == t
  {
    if evs != [] {
      FollowOthers(t, evs[..|evs| - 1], item, key);
    }
  }

  lemma FollowOne(t: Track, e: Event, item: string, key: string)
    ensures FollowAll(t, [e], item, key) == Follow(t, e, item, key)
  {
    assert [e][..0] == [];
    assert FollowAll(t, [], item, key) == t;
  }

  // ---------------------------------------------------------------- one call

  /** Every item is one that load accepts, and none is idle. */
  ghost predicate ValidItems(s: Items) {
    forall k :: k in s ==> ValidUtf8(k) && ValidItem(s[k]) && !Idle(s[k])
  }

  /** The Store only knows items with valid UTF-8 names. */
  predicate StoreItem(op: Op) {
    (op.Minute? || op.Rebuild?) ==> ValidUtf8(op.item)
  }

  lemma FreshValid()
    ensures ValidItem(FRESH)
  {
  }

  /** The events of one key of one item lead from the alert held before to the alert held after. */
  ghost predicate Leads(before: Option<Alert>, evs: seq<Event>, after: Option<Alert>, item: string, key: string) {
    && FollowAll(TrackOfAlert(before), evs, item, key) == TrackOfAlert(after)
    && forall i :: 0 <= i < |evs| ==> evs[i].item == item && evs[i].key == key
  }

  lemma KeyMinuteLeads(k: KeyState, item: string, r: Rule, m: int, v: Option<real>)
    ensures var (k', evs) := KeyMinute(k, item, r, m, v); Leads(k.alert, evs, k'.alert, item, r.key)
  {
    var (k', evs) := KeyMinute(k, item, r, m, v);
    if evs != [] {
      FollowOne(TrackOfAlert(k.alert), evs[0], item, r.key);
      assert evs == [evs[0]];
    }
  }

  lemma KeyRecountLeads(a: Option<Alert>, item: string, r: Rule, newest: int, n: nat, v: real)
    ensures var (k', evs) := KeyRecount(a, item, r, newest, n, v); Leads(a, evs, k'.alert, item, r.key)
  {
    var (k', evs) := KeyRecount(a, item, r, newest, n, v);
    if evs != [] {
      FollowOne(TrackOfAlert(a), evs[0], item, r.key);
      assert evs == [evs[0]];
    }
  }

  /** The stream of both keys, one after the other, leads each key where its own part leads it. */
  lemma BothLead(item: string, b1: Option<Alert>, e1: seq<Event>, a1: Option<Alert>, b2: Option<Alert>, e2: seq<Event>, a2: Option<Alert>, of: string, key: string)
    requires CPU != MEM && KnownKey(key)
    requires Leads(b1, e1, a1, item, CPU) && Leads(b2, e2, a2, item, MEM)
    ensures FollowAll(TrackOfAlert(if key == CPU then b1 else b2), e1 + e2, item, key)
              == TrackOfAlert(if key == CPU then a1 else a2)
    ensures of != item ==> forall t :: FollowAll(t, e1 + e2, of, key) == t
  {
    var t0 := TrackOfAlert(if key == CPU then b1 else b2);
    FollowConcat(t0, e1, e2, item, key);
    if key == CPU {
      FollowOthers(FollowAll(t0, e1, item, key), e2, item, key);
    } else {
      FollowOthers(t0, e1, item, key);
    }
    if of != item {
      forall t ensures FollowAll(t, e1 + e2, of, key) == t {
        FollowOthers(t, e1 + e2, of, key);
      }
    }
  }

  /** What a call owes the readers of its events: every alert is led from what was held to what is held. */
  ghost predicate Tracks(s: Items, s': Items, evs: seq<Event>) {
    forall item, key :: KnownKey(key) ==> FollowAll(TrackOf(s, item, key), evs, item, key) == TrackOf(s', item, key)
  }

  lemma KeysDiffer()
    ensures CPU != MEM
  {
    assert CPU[0] != MEM[0];
  }

  lemma ItemTracks(s: Items, item: string, st: ItemState, ec: seq<Event>, em: seq<Event>)
    requires Leads(FindAlert(StateOf(s, item).active, CPU), ec, FindAlert(st.active, CPU), item, CPU)
    requires Leads(FindAlert(StateOf(s, item).active, MEM), em, FindAlert(st.active, MEM), item, MEM)
    ensures Tracks(s, Put(s, item, st), ec + em)
  {
    hide FindAlert, Leads;
    KeysDiffer();
    var before := StateOf(s, item).active;
    var s' := Put(s, item, st);
    forall other, key | KnownKey(key)
      ensures FollowAll(TrackOf(s, other, key), ec + em, other, key) == TrackOf(s', other, key)
    {
      BothLead(item, FindAlert(before, CPU), ec, FindAlert(st.active, CPU), FindAlert(before, MEM), em, FindAlert(st.active, MEM), other, key);
      if other == item {
        PutHolds(s, item, st, key);
      } else {
        assert StateOf(s', other) == StateOf(s, other);
      }
    }
  }

  lemma PutHolds(s: Items, item: string, st: ItemState, key: string)
    ensures FindAlert(StateOf(Put(s, item, st), item).active, key) == FindAlert(st.active, key)
  {
  }

  lemma PutValid(s: Items, item: string, st: ItemState)
    requires ValidItems(s) && ValidItem(st) && (!Idle(st) ==> ValidUtf8(item))
    ensures ValidItems(Put(s, item, st))
  {
  }

  lemma MinuteTracks(s: Items, item: string, m: int, vals: map<string, real>)
    requires ValidItems(s) && ValidUtf8(item)
    ensures var (s', evs) := Apply(s, Minute(item, m, vals)); Tracks(s, s', evs) && ValidItems(s')
  {
    hide KeyMinute, Leads, FindAlert, Tracks;
    FreshValid();
    var st := StateOf(s, item);
    if m == st.last {
      LeadsNowhere(st.active, item);
      ItemTracks(s, item, st, NOTHING, NOTHING);
      assert NOTHING + NOTHING == NOTHING;
      PutValid(s, item, st);
    } else {
      OnMinuteByKey(item, st, m, vals);
      TwoRules(st.rules);
      KeyMinuteLeads(KeyState(FindAlert(st.active, CPU), RunOf(RunsAt(st, m), CPU)), item, RuleFor(st.rules, CPU), m, ValueOf(vals, CPU));
      KeyMinuteLeads(KeyState(FindAlert(st.active, MEM), RunOf(RunsAt(st, m), MEM)), item, RuleFor(st.rules, MEM), m, ValueOf(vals, MEM));
      hide OnMinute, Put, RuleFor;
      var st' := OnMinute(item, st, m, vals).0;
      ItemTracks(s, item, st', MinuteAt(item, st, CPU, m, vals).1, MinuteAt(item, st, MEM, m, vals).1);
      PutValid(s, item, st');
    }
  }

  lemma LeadsNowhere(active: seq<Alert>, item: string)
    ensures Leads(FindAlert(active, CPU), [], FindAlert(active, CPU), item, CPU)
    ensures Leads(FindAlert(active, MEM), [], FindAlert(active, MEM), item, MEM)
  {
  }

  /** A recount of item from st, a state with the alerts item already has. */
  lemma RecountTracks(s: Items, item: string, st: ItemState, recent: Recent, now: int)
    requires ValidItems(s) && ValidItem(st) && st.active == StateOf(s, item).active && ValidUtf8(item)
    ensures var (st', evs) := Reconcile(item, st, recent, now);
      Tracks(s, Put(s, item, st'), evs) && ValidItems(Put(s, item, st'))
  {
    hide KeyRecount, Leads, FindAlert, Tracks;
    var st' := Reconcile(item, st, recent, now).0;
    match recent {
      case Unreadable =>
        LeadsNowhere(st.active, item);
        ItemTracks(s, item, st', NOTHING, NOTHING);
        assert NOTHING + NOTHING == NOTHING;
      case Recent(newest, hist) =>
        ReconcileByKey(item, st, newest, hist, now);
        TwoRules(st.rules);
        var current := IsFresh(newest, now);
        var c := RuleFor(st.rules, CPU);
        var m := RuleFor(st.rules, MEM);
        KeyRecountLeads(FindAlert(st.active, CPU), item, c, newest, RecountedRun(HistoryOf(hist, CPU), c, current), NewestValue(HistoryOf(hist, CPU), current));
        KeyRecountLeads(FindAlert(st.active, MEM), item, m, newest, RecountedRun(HistoryOf(hist, MEM), m, current), NewestValue(HistoryOf(hist, MEM), current));
        hide Reconcile, Put, RuleFor;
        ItemTracks(s, item, st', RecountOf(item, st, CPU, newest, hist, now).1, RecountOf(item, st, MEM, newest, hist, now).1);
    }
    PutValid(s, item, st');
  }

  lemma {:induction false} ResolvedAll(item: string, active: seq<Alert>, key: string)
    requires DistinctKeys(active)
    ensures FollowAll(TrackOfAlert(FindAlert(active, key)), ResolvedEvents(item, active), item, key) == Off
    ensures forall i :: 0 <= i < |active| ==> ResolvedEvents(item, active)[i].item == item && ResolvedEvents(item, active)[i].key == active[i].key
  {
    if active != [] {
      var rest := active[..|active| - 1];
      var last := active[|active| - 1];
      var evs := ResolvedEvents(item, active);
      ResolvedAll(item, rest, key);
      assert evs[..|evs| - 1] == ResolvedEvents(item, rest);
      if last.key == key {
        FindUnique(active, last);
        FollowOthers(TrackOfAlert(FindAlert(active, key)), ResolvedEvents(item, rest), item, key);
      } else if FindAlert(active, key).Some? {
        FindUnique(active, FindAlert(active, key).value);
        assert FindAlert(active, key).value in rest;
        FindUnique(rest, FindAlert(active, key).value);
      } else if FindAlert(rest, key).Some? {
        FindUnique(active, FindAlert(rest, key).value);
      }
    }
  }

  lemma ResolveTracks(s: Items, item: string)
    requires ValidItems(s) && item in s
    ensures var (s', evs) := Apply(s, Resolve(item)); Tracks(s, s', evs) && ValidItems(s')
  {
    hide FindAlert;
    var st := ItemState(s[item].rules, [], map[], 0);
    var evs := ResolvedEvents(item, s[item].active);
    PutValid(s, item, st);
    forall other, key | KnownKey(key)
      ensures FollowAll(TrackOf(s, other, key), evs, other, key) == TrackOf(Put(s, item, st), other, key)
    {
      ResolvedAll(item, s[item].active, key);
      PutHolds(s, item, st, key);
      NoAlert(key);
      if other != item {
        FollowOthers(TrackOf(s, other, key), evs, other, key);
        assert StateOf(Put(s, item, st), other) == StateOf(s, other);
      }
    }
  }

  lemma NoAlert(key: string)
    ensures FindAlert([], key) == None
  {
  }

  /** Prune drops no item that has an active alert. */
  predicate Quiet(s: Items, op: Op) {
    op.Prune? ==> forall k :: k in s && k !in op.keep ==> s[k].active == []
  }

  lemma PruneTracksIff(s: Items, keep: set<string>)
    requires ValidItems(s)
    ensures ValidItems(Apply(s, Prune(keep)).0)
    ensures Tracks(s, Apply(s, Prune(keep)).0, []) <==> Quiet(s, Prune(keep))
  {
    var s' := Apply(s, Prune(keep)).0;
    if Quiet(s, Prune(keep)) {
      forall item, key | KnownKey(key) ensures FollowAll(TrackOf(s, item, key), [], item, key) == TrackOf(s', item, key) {
        NoAlert(key);
      }
    } else {
      var k :| k in s && k !in keep && s[k].active != [];
      var a := s[k].active[0];
      FindUnique(s[k].active, a);
      assert KnownKey(a.key);
      NoAlert(a.key);
      assert FollowAll(TrackOf(s, k, a.key), [], k, a.key) == TrackOf(s, k, a.key) != TrackOf(s', k, a.key);
    }
  }

  /**
   * One call: the events it emits lead every alert of every item from what was
   * held to what is held, exactly when the call is not a Prune that drops an
   * active alert; and it keeps every item loadable.
   */
  lemma ApplyTracksIff(s: Items, op: Op)
    requires ValidItems(s) && StoreItem(op)
    ensures var (s', evs) := Apply(s, op); ValidItems(s') && (Tracks(s, s', evs) <==> Quiet(s, op))
  {
    hide Tracks, ValidItem;
    match op {
      case Minute(item, m, vals) => MinuteTracks(s, item, m, vals);
      case Change(item, rules, recent, now) =>
        if ValidUtf8(item) && Validate(rules).Accepted? {
          ChangeTracks(s, item, rules, recent, now);
        } else {
          NothingTracks(s);
        }
      case Rebuild(item, recent, now) =>
        StateValid(s, item);
        hide Reconcile, Put;
        RecountTracks(s, item, StateOf(s, item), recent, now);
      case Resolve(item) =>
        if item in s {
          ResolveTracks(s, item);
        } else {
          NothingTracks(s);
        }
      case Prune(keep) => PruneTracksIff(s, keep);
    }
  }

  lemma StateValid(s: Items, item: string)
    requires ValidItems(s)
    ensures ValidItem(StateOf(s, item))
  {
    FreshValid();
  }

  lemma ChangeTracks(s: Items, item: string, rules: seq<Rule>, recent: Recent, now: int)
    requires ValidItems(s) && ValidUtf8(item) && Validate(rules).Accepted?
    ensures var (s', evs) := Apply(s, Change(item, rules, recent, now)); Tracks(s, s', evs) && ValidItems(s')
  {
    hide Reconcile, Put, Tracks, Merged, Validate;
    ValidateExact(rules);
    StateValid(s, item);
    MergedRules(StateOf(s, item).rules, rules, CPU);
    RecountTracks(s, item, StateOf(s, item).(rules := Merged(StateOf(s, item).rules, rules)), recent, now);
  }

  lemma NothingTracks(s: Items)
    ensures Tracks(s, s, [])
  {
  }

  // ---------------------------------------------------------------- whole runs

  ghost predicate AllStoreItems(ops: seq<Op>) {
    forall i :: 0 <= i < |ops| ==> StoreItem(ops[i])
  }

  /** No Prune of the run drops an active alert. */
  ghost predicate QuietRun(s: Items, ops: seq<Op>) {
    ops == [] || (QuietRun(s, ops[..|ops| - 1]) && Quiet(Run(s, ops[..|ops| - 1]).0, ops[|ops| - 1]))
  }

  /** Every state a run reaches has only items that load accepts, none of them idle. */
  lemma {:induction false} RunKeepsValid(s: Items, ops: seq<Op>)
    requires ValidItems(s) && AllStoreItems(ops)
    ensures ValidItems(Run(s, ops).0)
  {
    hide ValidItem, Apply;
    if ops != [] {
      RunKeepsValid(s, ops[..|ops| - 1]);
      ApplyTracksIff(Run(s, ops[..|ops| - 1]).0, ops[|ops| - 1]);
    }
  }

  /**
   * Over any run, the events of each (item, key) strictly alternate
   * firing/resolved from the alert held at the start, each resolved carries
   * the Since of its firing, and the alert held at the end is the one of the
   * last firing that was not resolved.
   */
  lemma {:induction false} AlertsAlternate(s: Items, ops: seq<Op>, item: string, key: string)
    requires ValidItems(s) && AllStoreItems(ops) && QuietRun(s, ops) && KnownKey(key)
    ensures FollowAll(TrackOf(s, item, key), Run(s, ops).1, item, key) == TrackOf(Run(s, ops).0, item, key)
    ensures FollowAll(TrackOf(s, item, key), Run(s, ops).1, item, key) != Broken
  {
    hide ValidItem, Apply, TrackOf;
    if ops != [] {
      var rest := ops[..|ops| - 1];
      AlertsAlternate(s, rest, item, key);
      RunKeepsValid(s, rest);
      var (s1, e1) := Run(s, rest);
      ApplyTracksIff(s1, ops[|ops| - 1]);
      FollowConcat(TrackOf(s, item, key), e1, Apply(s1, ops[|ops| - 1]).1, item, key);
    }
    TrackHolds(Run(s, ops).0, item, key);
  }

  lemma TrackHolds(s: Items, item: string, key: string)
    ensures TrackOf(s, item, key) != Broken
  {
  }

  // ---------------------------------------------------------------- the saved file

  /** Content of alerts.json: the items as marshalled, or bytes that do not unmarshal or hold another version. */
  datatype Saved = State(items: Items) | Unusable

  /** What load keeps of a file: nothing if any item is invalid, otherwise every item that is not idle. */
  function Loaded(f: Saved): Option<Items> {
    if f.State? && (forall k :: k in f.items ==> Loadable(f.items[k]))
    then Some(map k | k in f.items && !Idle(f.items[k]) :: f.items[k])
    else None
  }

  predicate Loadable(st: ItemState) {
    && Validate(st.rules).Accepted?
    && (forall i :: 0 <= i < |st.active| ==> KnownKey(st.active[i].key) && AlertIndex(st.active[..i], st.active[i].key) < 0)
    && (forall k :: k in st.runs ==> KnownKey(k) && 0 <= st.runs[k] <= MAX_RUN)
  }

  /** The checks of load accept exactly the valid item states. */
  lemma LoadableIff(st: ItemState)
    ensures Loadable(st) <==> ValidItem(st)
  {
    ValidateExact(st.rules);
    if Loadable(st) {
      forall i, j | 0 <= i < j < |st.active| ensures st.active[i].key != st.active[j].key {
        assert st.active[..j][i] == st.active[i];
      }
    }
  }

  /** Loading what any run of calls saved gives back every rule, alert and run. */
  lemma SavedIsLoadable(s: Items, ops: seq<Op>)
    requires ValidItems(s) && AllStoreItems(ops)
    ensures Loaded(State(Run(s, ops).0)) == Some(Run(s, ops).0)
  {
    hide ValidItem, Loadable, Run;
    RunKeepsValid(s, ops);
    var s' := Run(s, ops).0;
    forall k | k in s' ensures Loadable(s'[k]) {
      LoadableIff(s'[k]);
    }
    assert (map k | k in s' && !Idle(s'[k]) :: s'[k]) == s';
  }

  /** Whatever a file holds, what load keeps of it is a state runs can start from. */
  lemma LoadedIsValid(f: Saved)
    requires Loaded(f).Some? && forall k :: k in f.items ==> ValidUtf8(k)
    ensures ValidItems(Loaded(f).value)
  {
    hide ValidItem, Loadable;
    forall k | k in f.items ensures ValidItem(f.items[k]) {
      LoadableIff(f.items[k]);
    }
  }
}

/**
 * The evaluator object: item states updated in place, kept in a map and saved
 * after every change (evaluator.go). Each method is AlertModel.Apply on the
 * values it holds. The minutes read from the Store and the clock are parameters.
 */
module Evaluators {
  import opened Types
  import opened Rules
  import opened AlertModel
  import opened AlertViews
  import opened AlertLog
  import opened AlertCalls

  /** The mutable state of one item. */
  class ItemRecord {
    var rules: seq<Rule>
    var active: seq<Alert>
    var runs: map<string, int>
    var last: int

    function Value(): ItemState
      reads this
    {
      ItemState(rules, active, runs, last)
    }

    constructor (st: ItemState)
      ensures Value() == st
    {
      rules, active, runs, last := st.rules, st.active, st.runs, st.last;
    }
  }

  /** What a restart makes of the file: a missing one means no item. */
  function Reloaded(saved: Option<Items>): Items {
    if saved.None? || Loaded(State(saved.value)).None? then map[] else Loaded(State(saved.value)).value
  }

  /** There is no file, or one a restart can load: it then starts from a valid state. */
  ghost predicate Restorable(saved: Option<Items>) {
    && (saved.Some? ==> Loaded(State(saved.value)).Some?)
    && ValidItems(Reloaded(saved))
  }

  class Evaluator {
    var items: map<string, ItemRecord>
    var saved: Option<Items>  // content of the file on disk
    var saveFailed: bool      // the last write of the file failed
    var writes: nat           // writes of the file so far
    const works: nat -> bool  // which of them succeed: the disk's choice

    /**
     * No two items share a record and every item is loadable. A restart restores
     * a valid state whatever writes failed, and this very one unless the last did.
     */
    ghost predicate Valid()
      reads this, items.Values
    {
      && Unshared()
      && ValidItems(Model())
      && Restorable(saved)
      && (!saveFailed ==> Reloaded(saved) == Model())
    }

    /** No two items share a record. */
    ghost predicate Unshared()
      reads `items
    {
      forall a, b :: a in items && b in items && items[a] == items[b] ==> a == b
    }

    function Model(): Items
      reads `items, items.Values
    {
      map k | k in items :: items[k].Value()
    }

    /** st is the record to use for item: the one it has, or one no item has. */
    ghost predicate RecordFor(item: string, st: ItemRecord)
      reads `items
    {
      && (item in items ==> items[item] == st)
      && (forall k :: k in items && k != item ==> items[k] != st)
    }

    // ---------------------------------------------------------------- start

    /** Starts from the content of alerts.json, None when it is missing; a file that load rejects counts for nothing. */
    constructor (file: Option<Saved>, works: nat -> bool)
      requires file.Some? && file.value.State? ==> forall k :: k in file.value.items ==> ValidUtf8(k)
      ensures Valid() && !saveFailed
      ensures Model() == if file.Some? && Loaded(file.value).Some? then Loaded(file.value).value else map[]
    {
      items := map[];
      saved := None;
      saveFailed, writes, this.works := false, 0, works;
      new;
      hide Loaded, ValidItems, Restorable, Reloaded;
      NoFile();
      if file.Some? {
        Adopt(file.value);
      }
    }

    /** Takes over a file that load accepts; another one counts for nothing. */
    method Adopt(f: Saved)
      requires f.State? ==> forall k :: k in f.items ==> ValidUtf8(k)
      requires items == map[] && saved == None && !saveFailed
      modifies `items, `saved
      ensures Valid() && Model() == if Loaded(f).Some? then Loaded(f).value else map[]
      ensures forall k :: k in items ==> fresh(items[k])
    {
      hide Loaded, ValidItems, Restorable, Reloaded;
      NoFile();
      var ok := Load(f);
      if ok {
        UsableFile(f);
        saved := Some(f.items);
      }
    }

    static lemma NoFile()
      ensures Restorable(None) && Reloaded(None) == map[] && ValidItems(map[])
    {
    }

    static lemma UsableFile(f: Saved)
      requires Loaded(f).Some? && (f.State? ==> forall k :: k in f.items ==> ValidUtf8(k))
      ensures f == State(f.items) && Restorable(Some(f.items)) && Reloaded(Some(f.items)) == Loaded(f).value && ValidItems(Loaded(f).value)
    {
      LoadedIsValid(f);
    }

    /** Takes over the items of the file; on an invalid one nothing changes. */
    method Load(f: Saved) returns (ok: bool)
      requires items == map[]
      modifies this`items
      ensures ok <==> Loaded(f).Some?
      ensures ok ==> Model() == Loaded(f).value
      ensures !ok ==> items == map[]
      ensures forall k :: k in items ==> fresh(items[k])
      ensures forall a, b :: a in items && b in items && items[a] == items[b] ==> a == b
    {
      hide Loadable, Idle;
      if f.Unusable? {
        return false;
      }
      var kept: map<string, ItemRecord> := map[];
      var rest := f.items.Keys;
      while rest != {}
        invariant items == map[] && rest <= f.items.Keys
        invariant forall k :: k in f.items && k !in rest ==> Loadable(f.items[k])
        invariant forall k :: k in kept <==> k in f.items && k !in rest && !Idle(f.items[k])
        invariant forall k :: k in kept ==> fresh(kept[k]) && kept[k].Value() == f.items[k]
        invariant forall a, b :: a in kept && b in kept && kept[a] == kept[b] ==> a == b
        decreases rest
      {
        var k :| k in rest;
        if !Loadable(f.items[k]) {
          return false;
        }
        if !Idle(f.items[k]) {
          var r := new ItemRecord(f.items[k]);
          kept := kept[k := r];
        }
        rest := rest - {k};
      }
      items := kept;
      assert Model() == Loaded(f).value;
      return true;
    }

    // ---------------------------------------------------------------- helpers

    /** Both keys, cpu_high then mem_high, defaults unless overridden. */
    method RulesOf(item: string) returns (out: seq<Rule>)
      ensures out == Effective(StateOf(Model(), item).rules)
    {
      out := DefaultRules();
      if item in items {
        var st := items[item];
        for i := 0 to |st.rules|
          invariant out == OverlayAll(DefaultRules(), st.rules[..i])
        {
          assert st.rules[..i + 1][..i] == st.rules[..i];
          out := Overlay(out, st.rules[i]);
        }
        assert st.rules[..|st.rules|] == st.rules;
      }
    }

    /** The record of item, a fresh one if it has none. */
    method RecordOf(item: string) returns (st: ItemRecord)
      requires Unshared()
      ensures st.Value() == StateOf(Model(), item)
      ensures RecordFor(item, st)
      ensures item in items || fresh(st)
    {
      if item in items {
        st := items[item];
      } else {
        st := new ItemRecord(FRESH);
      }
    }

    /** Records an active alert of key since the given minute. */
    method Fire(item: string, st: ItemRecord, key: string, sinceMin: int, v: real) returns (e: Event)
      modifies st
      ensures st.Value() == old(st.Value()).(active := SortByKey(old(st.active) + [Alert(key, sinceMin * 60, v)]))
      ensures e == Event(item, key, Firing, v, sinceMin * 60)
    {
      st.active := SortByKey(st.active + [Alert(key, sinceMin * 60, v)]);
      e := Event(item, key, Firing, v, sinceMin * 60);
    }

    /** The records of the items other than item hold what before says. */
    ghost predicate OthersAs(item: string, before: Items)
      reads `items, items.Values
    {
      && (forall k :: k != item ==> (k in before <==> k in items))
      && forall k :: k in items && k != item ==> items[k].Value() == before[k]
    }

    /** Stores st for item, or drops the item when nothing differs from defaults and idle, then saves. */
    method PutRecord(item: string, st: ItemRecord, ghost before: Items)
      requires Unshared() && RecordFor(item, st) && OthersAs(item, before)
      modifies this, st
      ensures Unshared()
      ensures Model() == Put(before, item, Settled(old(st.Value())))
      ensures SavedAfter(old(saved), old(writes))
    {
      hide Settled, Put, Idle;
      Settle(st);
      assert OthersAs(item, before);
      PutSettled(item, st, before);
      Save();
    }

    method Settle(st: ItemRecord)
      modifies st
      ensures st.Value() == Settled(old(st.Value()))
    {
      if st.runs == map[] {
        st.runs, st.last := map[], 0;
      }
    }

    method PutSettled(item: string, st: ItemRecord, ghost before: Items)
      requires Unshared() && RecordFor(item, st) && OthersAs(item, before)
      modifies `items
      ensures Unshared()
      ensures Model() == Put(before, item, st.Value())
    {
      hide Put, Idle;
      ghost var held := items;
      if Idle(st.Value()) {
        items := items - {item};
      } else {
        items := items[item := st];
      }
      PutModel(item, st, before, held);
    }

    lemma PutModel(item: string, st: ItemRecord, before: Items, held: map<string, ItemRecord>)
      requires items == if Idle(st.Value()) then held - {item} else held[item := st]
      requires forall k :: k != item ==> (k in before <==> k in held)
      requires forall k :: k in held && k != item ==> held[k].Value() == before[k]
      ensures Model() == Put(before, item, st.Value())
    {
    }

    /**
     * After a save the file holds the state, unless it did not before and the
     * write, the next after so many, failed; then the file is what it was.
     */
    ghost predicate SavedAfter(before: Option<Items>, count: nat)
      reads this, items.Values
    {
      && saveFailed == (before != Some(Model()) && !works(count))
      && saved == if saveFailed then before else Some(Model())
    }

    /** Nothing was written. */
    twostate predicate NotSaved()
      reads this
    {
      saved == old(saved) && saveFailed == old(saveFailed) && writes == old(writes)
    }

    /** Writes the state if it differs from the file; the write can fail, which leaves the file as it was (AtomicFiles.FileSystem.WriteFileAtomic). */
    method Save()
      modifies `saved, `saveFailed, `writes
      ensures SavedAfter(old(saved), old(writes))
    {
      var content := Model();
      if saved == Some(content) {
        saveFailed := false;
        return;
      }
      saveFailed := !works(writes);
      writes := writes + 1;
      if !saveFailed {
        saved := Some(content);
      }
    }

    // ---------------------------------------------------------------- a committed minute

    /** Judges one rule of minute m. */
    method JudgeOne(item: string, st: ItemRecord, r: Rule, m: int, vals: map<string, real>) returns (evs: seq<Event>)
      modifies st
      ensures st.rules == old(st.rules) && st.last == old(st.last)
      ensures Judged(st.active, st.runs, evs) == JudgeRule(Judged(old(st.active), old(st.runs), []), item, r, m, vals)
    {
      hide SortByKey, Without;
      var v, ok := 0.0, false;
      if r.key in vals {
        v, ok := vals[r.key], true;
      }
      if !r.enabled {
        v, ok := 0.0, false;
      }
      evs := [];
      var i := AlertIndex(st.active, r.key);
      if !ok || Below(v, r.threshold) {
        st.runs := st.runs - {r.key};
        if i >= 0 {
          evs := [Event(item, r.key, Resolved, v, st.active[i].since)];
          st.active := Without(st.active, i);
        }
        return;
      }
      st.runs := st.runs[r.key := Min(RunOf(st.runs, r.key) + 1, MAX_RUN)];
      var n := st.runs[r.key];
      if n >= r.minutes && i < 0 {
        var e := Fire(item, st, r.key, m - n + 1, v);
        evs := [e];
      }
    }

    /** Judges every rule of minute m. */
    method JudgeAll(item: string, st: ItemRecord, rules: seq<Rule>, m: int, vals: map<string, real>) returns (evs: seq<Event>)
      modifies st
      ensures st.rules == old(st.rules) && st.last == old(st.last)
      ensures Judged(st.active, st.runs, evs) == JudgeRules(Judged(old(st.active), old(st.runs), []), item, rules, m, vals)
    {
      evs := [];
      for i := 0 to |rules|
        invariant st.rules == old(st.rules) && st.last == old(st.last)
        invariant Judged(st.active, st.runs, evs) == JudgeRules(Judged(old(st.active), old(st.runs), []), item, rules[..i], m, vals)
      {
        hide JudgeRule;
        assert rules[..i + 1][..i] == rules[..i];
        JudgeRuleAppends(st.active, st.runs, evs, item, rules[i], m, vals);
        var e := JudgeOne(item, st, rules[i], m, vals);
        evs := evs + e;
      }
      assert rules[..|rules|] == rules;
    }

    /** Applies the values of minute m, not yet evaluated, to the record of item. */
    method ApplyMinute(item: string, st: ItemRecord, m: int, vals: map<string, real>) returns (evs: seq<Event>)
      requires Unshared() && RecordFor(item, st) && m != st.last && st.rules == StateOf(Model(), item).rules
      modifies this, st
      ensures Unshared()
      ensures var (after, es) := AlertModel.OnMinute(item, old(st.Value()), m, vals);
        Model() == Put(old(Model()), item, after) && evs == es
      ensures SavedAfter(old(saved), old(writes))
    {
      hide JudgeRules, Put, Idle, Effective;
      ghost var before := Model();
      ghost var was := st.Value();
      if m != st.last + 1 {
        st.runs := map[];
      }
      var rules := RulesOf(item);
      evs := JudgeAll(item, st, rules, m, vals);
      st.last := m;
      assert (Settled(st.Value()), evs) == AlertModel.OnMinute(item, was, m, vals);
      hide Settled, AlertModel.OnMinute;
      PutRecord(item, st, before);
    }

    /** Applies the values of minute m. */
    method OnMinute(item: string, m: int, vals: map<string, real>) returns (evs: seq<Event>)
      requires Valid() && ValidUtf8(item)
      modifies this, items.Values
      ensures Valid()
      ensures (Model(), evs) == Apply(old(Model()), Minute(item, m, vals))
      ensures SameRules(old(Model()), Model(), item) && OthersSame(old(Model()), Model(), item)
      ensures if m == StateOf(old(Model()), item).last then NotSaved() else SavedAfter(old(saved), old(writes))
    {
      hide JudgeRules, ValidItem, Put, Settled, Effective, Reloaded, Restorable, SameRules, OthersSame, Tracks, ValidUtf8;
      RulesKept(Model(), Minute(item, m, vals));
      ghost var before := Model();
      ApplyTracksIff(before, Minute(item, m, vals));
      var st := RecordOf(item);
      if m == st.last {
        PutSame(before, item);
        return [];
      }
      evs := ApplyMinute(item, st, m, vals);
      InSync(old(saved), old(writes));
    }

    // ---------------------------------------------------------------- recounting from history

    /** Walks back from the newest cell while cells are high, at most limit of them. */
    method CountRun(cells: seq<Cell>, t: Float, limit: nat) returns (n: nat)
      ensures n == TrailingRun(cells, t, limit)
    {
      n := 0;
      assert cells[..|cells|] == cells;
      while n < limit && n < |cells|
        invariant n <= limit && n <= |cells|
        invariant n + TrailingRun(cells[..|cells| - n], t, limit - n) == TrailingRun(cells, t, limit)
      {
        var older := cells[..|cells| - n];
        assert older[|older| - 1] == cells[|cells| - 1 - n];
        assert older[..|older| - 1] == cells[..|cells| - (n + 1)];
        if !High(cells[|cells| - 1 - n], t) {
          break;
        }
        n := n + 1;
      }
    }

    /** Recounts one rule; runs holds the runs recounted so far. */
    method RecountOne(item: string, st: ItemRecord, r: Rule, newest: int, hist: map<string, seq<Cell>>, current: bool, runs: map<string, int>)
      returns (runs': map<string, int>, evs: seq<Event>)
      requires ValidRule(r)
      modifies st
      ensures st.rules == old(st.rules) && st.runs == old(st.runs) && st.last == old(st.last)
      ensures Judged(st.active, runs', evs) == RecountRule(Judged(old(st.active), runs, []), item, r, newest, hist, current)
    {
      hide TrailingRun, SortByKey;
      var cells := HistoryOf(hist, r.key);
      var v, n := 0.0, 0;
      if current && |cells| > 0 {
        if cells[|cells| - 1].Some? {
          v := cells[|cells| - 1].value.avg;
        }
        n := CountRun(cells, r.threshold, r.minutes);
      }
      NoCells(r.threshold, r.minutes);
      if !r.enabled {
        n := 0;
      }
      assert n == RecountedRun(cells, r, current) && v == NewestValue(cells, current);
      hide RecountedRun, NewestValue;
      evs := [];
      runs' := runs;
      var i := AlertIndex(st.active, r.key);
      if i >= 0 && n < r.minutes {
        evs := [Event(item, r.key, Resolved, v, st.active[i].since)];
        st.active := Without(st.active, i);
      } else if i < 0 && n >= r.minutes {
        var e := Fire(item, st, r.key, newest - n + 1, v);
        evs := [e];
      }
      if n > 0 {
        runs' := runs[r.key := n];
      }
    }

    lemma NoCells(t: Float, limit: nat)
      ensures TrailingRun([], t, limit) == 0
    {
    }

    method RecountAll(item: string, st: ItemRecord, rules: seq<Rule>, newest: int, hist: map<string, seq<Cell>>, current: bool)
      returns (runs: map<string, int>, evs: seq<Event>)
      requires forall i :: 0 <= i < |rules| ==> ValidRule(rules[i])
      modifies st
      ensures st.rules == old(st.rules)
      ensures Judged(st.active, runs, evs) == RecountRules(Judged(old(st.active), map[], []), item, rules, newest, hist, current)
    {
      runs, evs := map[], [];
      for i := 0 to |rules|
        invariant st.rules == old(st.rules)
        invariant Judged(st.active, runs, evs)
                    == RecountRules(Judged(old(st.active), map[], []), item, rules[..i], newest, hist, current)
      {
        hide RecountRule;
        assert rules[..i + 1][..i] == rules[..i];
        RecountRuleAppends(st.active, runs, evs, item, rules[i], newest, hist, current);
        var e;
        runs, e := RecountOne(item, st, rules[i], newest, hist, current, runs);
        evs := evs + e;
      }
      assert rules[..|rules|] == rules;
    }

    /** Recounts each run of item from the newest committed minute backwards, and fires or resolves to match. */
    method Recount(item: string, st: ItemRecord, recent: Recent, now: int, ghost before: Items) returns (evs: seq<Event>)
      requires Unshared() && RecordFor(item, st) && OthersAs(item, before)
      requires st.rules == StateOf(Model(), item).rules && ValidRules(st.rules)
      modifies this, st
      ensures Unshared()
      ensures var (after, es) := Reconcile(item, old(st.Value()), recent, now);
        Model() == Put(before, item, after) && evs == es
      ensures SavedAfter(old(saved), old(writes))
    {
      hide RecountRules, Put, Idle, Effective;
      if recent.Unreadable? {
        PutRecord(item, st, before);
        return [];
      }
      var rules := RulesOf(item);
      EffectiveShape(st.rules);
      var runs;
      runs, evs := RecountAll(item, st, rules, recent.newest, recent.hist, IsFresh(recent.newest, now));
      st.runs, st.last := runs, recent.newest;
      PutRecord(item, st, before);
    }

    /** Replaces the rules of item for the keys listed, then recounts its alerts. On error nothing changes. */
    method SetRules(item: string, rules: seq<Rule>, recent: Recent, now: int) returns (ok: bool, evs: seq<Event>)
      requires Valid()
      modifies this, items.Values
      ensures Valid()
      ensures ok <==> ValidUtf8(item) && ValidRules(rules)
      ensures (Model(), evs) == Apply(old(Model()), Change(item, rules, recent, now))
      ensures ok ==> RulesSet(old(Model()), Model(), item, rules) && OthersSame(old(Model()), Model(), item)
      ensures ok ==> SavedAfter(old(saved), old(writes))
      ensures !ok ==> Model() == old(Model()) && evs == [] && NotSaved()
    {
      ChangeSetsRules(Model(), item, rules, recent, now);
      hide ValidItem, Reloaded, Validate, ValidRules, Restorable;
      ApplyTracksIff(Model(), Change(item, rules, recent, now));
      ValidateExact(rules);
      if !ValidUtf8(item) || !Validate(rules).Accepted? {
        return false, [];
      }
      hide Apply;
      evs := TakeRules(item, rules, recent, now);
      InSync(old(saved), old(writes));
      ok := true;
    }

    /** Merges rules that are valid, then recounts the item by them. */
    method TakeRules(item: string, rules: seq<Rule>, recent: Recent, now: int) returns (evs: seq<Event>)
      requires Valid() && ValidUtf8(item) && ValidRules(rules)
      modifies this, items.Values
      ensures Unshared() && (Model(), evs) == Apply(old(Model()), Change(item, rules, recent, now))
      ensures SavedAfter(old(saved), old(writes))
    {
      hide ValidItem, Put, Reconcile, Reloaded, Merged, Validate, ValidRules, Effective, Restorable, SavedAfter, ValidUtf8;
      ghost var before := Model();
      ValidateExact(rules);
      var st := RecordOf(item);
      StateValid(before, item);
      MergeInto(item, st, rules);
      items := items[item := st];
      evs := Recount(item, st, recent, now, before);
    }

    /** Puts the merged rules in the record of item: none when they are the defaults. */
    method MergeInto(item: string, st: ItemRecord, rules: seq<Rule>)
      requires Unshared() && RecordFor(item, st) && st.rules == StateOf(Model(), item).rules
      requires ValidItem(st.Value()) && ValidRules(rules)
      modifies st
      ensures st.Value() == old(st.Value()).(rules := Merged(old(st.rules), rules))
      ensures ValidRules(st.rules)
    {
      hide ValidRules, Effective;
      var merged := RulesOf(item);
      ghost var start := merged;
      for i := 0 to |rules|
        invariant merged == OverlayAll(start, rules[..i])
        invariant st.Value() == old(st.Value())
        modifies {}
      {
        assert rules[..i + 1][..i] == rules[..i];
        merged := Overlay(merged, rules[i]);
      }
      assert rules[..|rules|] == rules;
      MergedRules(st.rules, rules, CPU);
      st.rules := merged;
      if merged == DefaultRules() {
        st.rules := [];
      }
    }

    /** Recounts the runs of item from its history, at start. */
    method Rebuild(item: string, recent: Recent, now: int) returns (evs: seq<Event>)
      requires Valid() && ValidUtf8(item)
      modifies this, items.Values
      ensures Valid()
      ensures (Model(), evs) == Apply(old(Model()), Op.Rebuild(item, recent, now))
      ensures SameRules(old(Model()), Model(), item) && OthersSame(old(Model()), Model(), item)
      ensures SavedAfter(old(saved), old(writes))
    {
      RulesKept(Model(), Op.Rebuild(item, recent, now));
      hide Put, Reconcile, Reloaded, Restorable;
      ghost var before := Model();
      ApplyTracksIff(before, Op.Rebuild(item, recent, now));
      var st := RecordOf(item);
      StateValid(before, item);
      evs := Recount(item, st, recent, now, before);
      InSync(old(saved), old(writes));
    }

    /** Ends every active alert of item, which is no longer measured, and clears its runs. */
    method Resolve(item: string) returns (evs: seq<Event>)
      requires Valid()
      modifies this, items.Values
      ensures Valid()
      ensures (Model(), evs) == Apply(old(Model()), Op.Resolve(item))
      ensures StateOf(Model(), item).active == [] && (item in old(Model()) ==> StateOf(Model(), item).runs == map[])
      ensures SameRules(old(Model()), Model(), item) && OthersSame(old(Model()), Model(), item)
      ensures if item in old(Model()) then SavedAfter(old(saved), old(writes)) else NotSaved()
    {
      hide ValidItem, Put, Reloaded, Restorable, SameRules, OthersSame, Tracks, ResolvedEvents, ValidUtf8;
      RulesKept(Model(), Op.Resolve(item));
      if item in Model() {
        ResolveEnds(Model(), item);
      }
      ghost var before := Model();
      ApplyTracksIff(before, Op.Resolve(item));
      if item !in items {
        return [];
      }
      var st := items[item];
      evs := ResolveAll(item, st.active);
      st.active, st.runs := [], map[];
      PutRecord(item, st, before);
      InSync(old(saved), old(writes));
    }

    method ResolveAll(item: string, active: seq<Alert>) returns (evs: seq<Event>)
      ensures evs == ResolvedEvents(item, active)
    {
      evs := [];
      for i := 0 to |active|
        invariant evs == ResolvedEvents(item, active[..i])
      {
        assert active[..i + 1][..i] == active[..i];
        evs := evs + [Event(item, active[i].key, Resolved, 0.0, active[i].since)];
      }
      assert active[..|active|] == active;
    }

    /** Drops the rules and state of the items no longer in the Store. */
    method Prune(keep: set<string>)
      requires Valid()
      modifies this
      ensures Valid()
      ensures Model() == Apply(old(Model()), Op.Prune(keep)).0
      ensures forall k :: k in Model() <==> k in old(Model()) && k in keep
      ensures forall k :: k in Model() ==> Model()[k] == old(Model())[k]
      ensures SavedAfter(old(saved), old(writes))
    {
      hide ValidItem, Reloaded, Restorable;
      ApplyTracksIff(Model(), Op.Prune(keep));
      hide Apply;
      Keep(keep);
      Save();
      InSync(old(saved), old(writes));
    }

    method Keep(keep: set<string>)
      requires Unshared()
      modifies `items
      ensures Unshared() && Model() == Apply(old(Model()), Op.Prune(keep)).0
    {
      items := map k | k in items && k in keep :: items[k];
    }

    /** A file that holds a valid state restores it, and one that could not be written is what it was. */
    lemma InSync(before: Option<Items>, count: nat)
      requires ValidItems(Model()) && SavedAfter(before, count) && Restorable(before)
      ensures Restorable(saved) && (!saveFailed ==> Reloaded(saved) == Model())
    {
      SavedIsLoadable(Model(), []);
    }
  }

  lemma PutSame(s: Items, item: string)
    requires ValidItems(s)
    ensures Put(s, item, StateOf(s, item)) == s
  {
  }
}

/**
 * The on-minute hook against Close (Record, remove and Close in store.go): many
 * threads record, items are removed, one Close runs. Each step is what happens
 * under one hold of a lock, or one call of the hook. The hook is set beforehand.
 */
module Closing {
  import opened Types

  type Tid = nat
  type Eid = nat

  /** An entry: the item it is for, and whether it has a pending minute. */
  datatype Ent = Ent(item: string, closed: bool, gone: bool, pending: bool)

  /** Where a recording thread is. Committed and Ran are between the Add and the Done of the wait group, before and after the hook. */
  datatype Phase =
    | Looking(item: string)
    | Holding(item: string, e: Eid)
    | Committed(item: string, id: nat)
    | Ran(item: string)

  datatype Closer = NotYet | Committing(todo: set<string>) | Calling | Returned

  /** A minute written to the ring of an item. */
  datatype Commit = Commit(item: string, minute: int)

  /** commits and runs are in order; a run is the index of the commit its hook was called for. */
  datatype System = System(
    items: map<string, Eid>,
    entries: seq<Ent>,
    threads: map<Tid, Phase>,
    hooks: nat,             // the wait group
    closer: Closer,
    own: set<nat>,          // commits of Close whose hook has not run
    commits: seq<Commit>,
    runs: seq<nat>)

  datatype Step =
    | Start(t: Tid, item: string)
    | Find(t: Tid, ok: bool)                              // the entry of the item, made if need be; ok is false on an error
    | Record(t: Tid, commits: bool, minute: int)          // under the entry lock
    | Hook(t: Tid)
    | Finish(t: Tid)
    | Remove(item: string)                                // by Sweep or Forget
    | CloseStart
    | CloseEntry(item: string, commits: bool, minute: int)
    | CloseWait
    | CloseHook(id: nat)
    | CloseReturn

  predicate InHook(p: Phase) {
    p.Committed? || p.Ran?
  }

  predicate Enabled(s: System, step: Step) {
    match step
    case Start(t, item) => t !in s.threads && forall u :: u in s.threads ==> s.threads[u].item != item
    case Find(t, _) => t in s.threads && s.threads[t].Looking?
    case Record(t, _, _) => t in s.threads && s.threads[t].Holding? && s.threads[t].e < |s.entries|
    case Hook(t) => t in s.threads && s.threads[t].Committed?
    case Finish(t) => t in s.threads && s.threads[t].Ran? && s.hooks > 0
    case Remove(item) => s.closer == NotYet && item in s.items && s.items[item] < |s.entries|
    case CloseStart => s.closer == NotYet
    case CloseEntry(item, _, _) => s.closer.Committing? && item in s.closer.todo && item in s.items && s.items[item] < |s.entries|
    case CloseWait => s.closer == Committing({}) && s.hooks == 0
    case CloseHook(id) => s.closer == Calling && id in s.own
    case CloseReturn => s.closer == Calling && s.own == {}
  }

  /** The entry of item, with its pending minute written and closed. */
  function Closed(e: Ent): Ent {
    e.(closed := true, pending := false)
  }

  function Recorded(s: System, t: Tid, commits: bool, minute: int): System
    requires t in s.threads && s.threads[t].Holding? && s.threads[t].e < |s.entries|
  {
    var Holding(item, e) := s.threads[t];
    if s.entries[e].gone then s.(threads := s.threads[t := Looking(item)])
    else if s.entries[e].closed then s.(threads := s.threads - {t})
    else
      var s1 := s.(entries := s.entries[e := s.entries[e].(pending := true)]);
      if commits && s.entries[e].pending then
        s1.(commits := s.commits + [Commit(item, minute)], hooks := s.hooks + 1, threads := s.threads[t := Committed(item, |s.commits|)])
      else s1.(threads := s.threads - {t})
  }

  function Found(s: System, t: Tid, ok: bool): System
    requires t in s.threads && s.threads[t].Looking?
  {
    var item := s.threads[t].item;
    if s.closer != NotYet || !ok then s.(threads := s.threads - {t})
    else if item in s.items then s.(threads := s.threads[t := Holding(item, s.items[item])])
    else s.(entries := s.entries + [Ent(item, false, false, false)], items := s.items[item := |s.entries|],
            threads := s.threads[t := Holding(item, |s.entries|)])
  }

  function Next(s: System, step: Step): System
    requires Enabled(s, step)
  {
    match step
    case Start(t, item) => s.(threads := s.threads[t := Looking(item)])
    case Find(t, ok) => Found(s, t, ok)
    case Record(t, commits, minute) => Recorded(s, t, commits, minute)
    case Hook(t) => s.(runs := s.runs + [s.threads[t].id], threads := s.threads[t := Ran(s.threads[t].item)])
    case Finish(t) => s.(hooks := s.hooks - 1, threads := s.threads - {t})
    case Remove(item) =>
      var e := s.items[item];
      s.(items := s.items - {item}, entries := s.entries[e := s.entries[e].(gone := true, closed := true)])
    case CloseStart => s.(closer := Committing(s.items.Keys))
    case CloseEntry(item, commits, minute) =>
      var e := s.items[item];
      var s1 := s.(entries := s.entries[e := Closed(s.entries[e])], closer := Committing(s.closer.todo - {item}));
      if commits && s.entries[e].pending then s1.(commits := s.commits + [Commit(item, minute)], own := s.own + {|s.commits|}) else s1
    case CloseWait => s.(closer := Calling)
    case CloseHook(id) => s.(runs := s.runs + [id], own := s.own - {id})
    case CloseReturn => s.(closer := Returned)
  }

  /** A store just opened: nobody records, nothing is pending or committed. */
  ghost predicate Opened(s: System) {
    && s == System(s.items, s.entries, map[], 0, NotYet, {}, [], [])
    && EntriesMatch(s)
    && forall e :: 0 <= e < |s.entries| ==> s.entries[e] == Ent(s.entries[e].item, false, false, false)
  }

  function Exec(start: System, steps: seq<Step>): Option<System> {
    if steps == [] then Some(start)
    else
      var before := Exec(start, steps[..|steps| - 1]);
      if before.Some? && Enabled(before.value, steps[|steps| - 1]) then Some(Next(before.value, steps[|steps| - 1])) else None
  }

  // ---------------------------------------------------------------- the invariant

  /** Threads in a hook call, before or after it. */
  function Inside(s: System): set<Tid> {
    set t | t in s.threads && InHook(s.threads[t])
  }

  function ItemOf(s: System, id: nat): string {
    if id < |s.commits| then s.commits[id].item else ""
  }

  ghost predicate OneThreadPerItem(s: System) {
    forall t, u :: t in s.threads && u in s.threads && t != u ==> s.threads[t].item != s.threads[u].item
  }

  /** The entry e is the one the store has for its item. */
  predicate Current(s: System, e: Eid) {
    e < |s.entries| && s.entries[e].item in s.items && s.items[s.entries[e].item] == e
  }

  /** Items stand for entries of their own that are not removed; an entry still open is one of them; a thread holds an entry of its item. */
  ghost predicate EntriesMatch(s: System) {
    && (forall k :: k in s.items ==> s.items[k] < |s.entries| && s.entries[s.items[k]].item == k && !s.entries[s.items[k]].gone)
    && (forall e: nat :: e < |s.entries| && !s.entries[e].gone && !s.entries[e].closed ==> Current(s, e))
    && (forall t :: t in s.threads && s.threads[t].Holding? ==>
          s.threads[t].e < |s.entries| && s.entries[s.threads[t].e].item == s.threads[t].item)
  }

  predicate IsClosed(s: System, e: Eid) {
    e < |s.entries| && s.entries[e].closed
  }

  /** Close is done with the entry of item. */
  predicate Handled(s: System, item: string) {
    s.closer != NotYet && item in s.items && !(s.closer.Committing? && item in s.closer.todo)
  }

  /** The entries Close is done with are closed, and while it calls its hooks no other runs. */
  ghost predicate CloserAt(s: System) {
    && (forall k :: k in s.items && Handled(s, k) ==> IsClosed(s, s.items[k]))
    && (s.closer.Committing? ==> s.closer.todo <= s.items.Keys)
    && (s.closer == Calling || s.closer == Returned ==> Inside(s) == {})
    && (s.closer == NotYet || s.closer == Returned ==> s.own == {})
  }

  /** The hook of commit id has not run and a thread is to call it. */
  ghost predicate OwedBy(s: System, id: nat, t: Tid) {
    t in s.threads && s.threads[t] == Committed(ItemOf(s, id), id)
  }

  /** A commit whose hook has not run is owed by one thread, or by Close. */
  ghost predicate Owed(s: System) {
    && (forall id :: id in s.runs || id in s.own ==> id < |s.commits|)
    && (forall id :: id in s.runs ==> id !in s.own)
    && (forall t :: t in s.threads && s.threads[t].Committed? ==>
          s.threads[t].id < |s.commits| && s.threads[t].id !in s.runs && s.threads[t].id !in s.own && OwedBy(s, s.threads[t].id, t))
    && (forall id: nat :: id < |s.commits| && id !in s.runs && id !in s.own ==> exists t :: OwedBy(s, id, t))
  }

  /** A commit of Close is the last one of its item, whose entry it is done with. */
  ghost predicate OwnLast(s: System) {
    && (forall id: nat, later: nat :: id in s.own && id < later < |s.commits| ==> ItemOf(s, later) != ItemOf(s, id))
    && (forall id: nat :: id in s.own ==> Handled(s, ItemOf(s, id)))
  }

  /** Hooks ran once each, in the order of the commits of their item, and those still owed come after them. */
  ghost predicate InOrder(s: System) {
    && (forall i, j :: 0 <= i < j < |s.runs| ==>
          s.runs[i] != s.runs[j] && (ItemOf(s, s.runs[i]) == ItemOf(s, s.runs[j]) ==> s.runs[i] < s.runs[j]))
    && (forall i: nat, id: nat :: i < |s.runs| && id < |s.commits| && id !in s.runs && ItemOf(s, s.runs[i]) == ItemOf(s, id) ==> s.runs[i] < id)
  }

  ghost predicate Inv(s: System) {
    OneThreadPerItem(s) && EntriesMatch(s) && CloserAt(s) && Owed(s) && OwnLast(s) && InOrder(s) && s.hooks == |Inside(s)|
  }

  lemma ThreadsKeep(s: System, step: Step)
    requires OneThreadPerItem(s) && Enabled(s, step)
    ensures OneThreadPerItem(Next(s, step))
  {
  }

  lemma EntriesKeep(s: System, step: Step)
    requires EntriesMatch(s) && Enabled(s, step)
    ensures EntriesMatch(Next(s, step))
  {
    match step
    case Find(t, ok) => FoundEntries(s, t, ok);
    case Record(t, commits, minute) => RecordedEntries(s, t, commits, minute);
    case Remove(item) => OneEntry(s, Next(s, step), item);
    case CloseEntry(item, _, _) => OneEntry(s, Next(s, step), item);
    case _ =>
  }

  lemma FoundEntries(s: System, t: Tid, ok: bool)
    requires EntriesMatch(s) && Enabled(s, Find(t, ok))
    ensures EntriesMatch(Found(s, t, ok))
  {
    var s' := Found(s, t, ok);
    forall e: nat | e < |s'.entries| && !s'.entries[e].gone && !s'.entries[e].closed ensures Current(s', e) {
      assert e < |s.entries| ==> Current(s, e);
    }
  }

  lemma RecordedEntries(s: System, t: Tid, commits: bool, minute: int)
    requires EntriesMatch(s) && Enabled(s, Record(t, commits, minute))
    ensures EntriesMatch(Recorded(s, t, commits, minute))
  {
    var s' := Recorded(s, t, commits, minute);
    forall e: nat | e < |s'.entries| && !s'.entries[e].gone && !s'.entries[e].closed ensures Current(s', e) {
      assert Current(s, e);
    }
  }

  /** Closing the entry of an item, or taking it out of the store. */
  lemma OneEntry(s: System, s': System, item: string)
    requires EntriesMatch(s) && item in s.items && s'.threads == s.threads && |s'.entries| == |s.entries|
    requires s'.items == s.items || s'.items == s.items - {item}
    requires forall k :: 0 <= k < |s.entries| && k != s.items[item] ==> s'.entries[k] == s.entries[k]
    requires var e, e' := s.entries[s.items[item]], s'.entries[s.items[item]];
             e'.item == e.item && e'.closed && (s'.items == s.items ==> e'.gone == e.gone)
    ensures EntriesMatch(s')
  {
    forall e: nat | e < |s'.entries| && !s'.entries[e].gone && !s'.entries[e].closed ensures Current(s', e) {
      assert Current(s, e);
    }
  }

  lemma CountKeeps(s: System, step: Step)
    requires s.hooks == |Inside(s)| && Enabled(s, step)
    ensures Next(s, step).hooks == |Inside(Next(s, step))|
  {
    var s' := Next(s, step);
    match step
    case Record(t, _, _) => assert Inside(s') == if s'.hooks > s.hooks then Inside(s) + {t} else Inside(s);
    case Finish(t) => assert Inside(s') == Inside(s) - {t};
    case _ => assert Inside(s') == Inside(s);
  }

  lemma CloserKeeps(s: System, step: Step)
    requires Inv(s) && Enabled(s, step)
    ensures CloserAt(Next(s, step))
  {
    hide InOrder, OwnLast, Owed, OneThreadPerItem;
    match step
    case Record(t, _, _) => RecordedCloser(s, step);
    case CloseWait =>
      assert |Inside(s)| == 0;
    case _ =>
  }

  /** Once Close is done with an entry, nobody commits to it. */
  lemma RecordedCloser(s: System, step: Step)
    requires EntriesMatch(s) && CloserAt(s) && Enabled(s, step) && step.Record?
    ensures CloserAt(Next(s, step))
    ensures Next(s, step).commits != s.commits ==> !Handled(s, s.threads[step.t].item)
  {
    var s' := Next(s, step);
    var e := s.threads[step.t].e;
    if !s.entries[e].gone && !s.entries[e].closed {
      assert Current(s, e);
      assert !Handled(s, s.threads[step.t].item);
    }
    assert s'.commits == s.commits ==> Inside(s') <= Inside(s);
  }

  lemma OwnLastKeeps(s: System, step: Step)
    requires Inv(s) && Enabled(s, step)
    ensures OwnLast(Next(s, step))
  {
    var s' := Next(s, step);
    if step.Record? {
      RecordedCloser(s, step);
    }
    hide InOrder, OneThreadPerItem, EntriesMatch, Inside;
    forall id: nat | id in s'.own
      ensures Handled(s', ItemOf(s', id))
      ensures forall later: nat :: id < later < |s'.commits| ==> ItemOf(s', later) != ItemOf(s', id)
    {
      if id < |s.commits| {
        assert Handled(s, ItemOf(s, id)) && ItemOf(s', id) == ItemOf(s, id);
        forall later: nat | id < later < |s'.commits| ensures ItemOf(s', later) != ItemOf(s', id) {
          assert later < |s.commits| ==> ItemOf(s', later) == ItemOf(s, later);
        }
      }
    }
  }

  lemma OwedKeeps(s: System, step: Step)
    requires Inv(s) && Enabled(s, step)
    ensures Owed(Next(s, step))
  {
    var s' := Next(s, step);
    forall id: nat | id < |s'.commits| && id !in s'.runs && id !in s'.own ensures exists t :: OwedBy(s', id, t) {
      OwedFound(s, step, id);
    }
    forall t | t in s'.threads && s'.threads[t].Committed?
      ensures s'.threads[t].id < |s'.commits| && s'.threads[t].id !in s'.runs && s'.threads[t].id !in s'.own && OwedBy(s', s'.threads[t].id, t)
    {
      OwedStays(s, step, t);
    }
    OwedKnown(s, step);
  }

  lemma OwedKnown(s: System, step: Step)
    requires Owed(s) && Enabled(s, step)
    ensures var s' := Next(s, step);
      && (forall id :: id in s'.runs || id in s'.own ==> id < |s'.commits|)
      && (forall id :: id in s'.runs ==> id !in s'.own)
  {
  }

  lemma OwedFound(s: System, step: Step, id: nat)
    requires Owed(s) && Enabled(s, step)
    requires var s' := Next(s, step); id < |s'.commits| && id !in s'.runs && id !in s'.own
    ensures exists t :: OwedBy(Next(s, step), id, t)
  {
    var s' := Next(s, step);
    if id < |s.commits| {
      var t :| OwedBy(s, id, t);
      assert OwedBy(s', id, t);
    } else {
      assert OwedBy(s', id, step.t);
    }
  }

  lemma OwedStays(s: System, step: Step, t: Tid)
    requires Owed(s) && OneThreadPerItem(s) && Enabled(s, step)
    requires t in Next(s, step).threads && Next(s, step).threads[t].Committed?
    requires step.CloseHook? ==> step.id in s.own
    ensures var s', id := Next(s, step), Next(s, step).threads[t].id;
            id < |s'.commits| && id !in s'.runs && id !in s'.own && OwedBy(s', id, t)
  {
    var s' := Next(s, step);
    var id := s'.threads[t].id;
    if t in s.threads && s.threads[t] == s'.threads[t] {
      assert OwedBy(s, id, t);
    }
  }

  lemma InOrderKeeps(s: System, step: Step)
    requires Inv(s) && Enabled(s, step)
    ensures InOrder(Next(s, step))
  {
    var s' := Next(s, step);
    hide EntriesMatch;
    if step.Hook? {
      var id := s.threads[step.t].id;
      assert OwedBy(s, id, step.t);
      OnlyOwed(s, step.t, id);
      RunKeeps(s, s', id);
    } else if step.CloseHook? {
      OwnOnlyOwed(s, step.id);
      RunKeeps(s, s', step.id);
    } else {
      MoreCommits(s, s');
    }
  }

  /** Other commits of the item whose hook has not run are later ones. */
  ghost predicate Oldest(s: System, id: nat) {
    forall other: nat :: other < |s.commits| && other != id && other !in s.runs && ItemOf(s, other) == ItemOf(s, id) ==> id < other
  }

  lemma OnlyOwed(s: System, t: Tid, id: nat)
    requires Owed(s) && OwnLast(s) && OneThreadPerItem(s) && OwedBy(s, id, t) && id < |s.commits|
    ensures Oldest(s, id)
  {
    forall other: nat | other < |s.commits| && other != id && other !in s.runs && ItemOf(s, other) == ItemOf(s, id) ensures id < other {
      assert forall u :: OwedBy(s, other, u) ==> u == t;
    }
  }

  lemma OwnOnlyOwed(s: System, id: nat)
    requires Owed(s) && OwnLast(s) && CloserAt(s) && s.closer == Calling && id in s.own
    ensures Oldest(s, id)
  {
    assert forall other, u :: OwedBy(s, other, u) ==> u in Inside(s);
  }

  lemma RunKeeps(s: System, s': System, id: nat)
    requires InOrder(s) && s'.commits == s.commits && s'.runs == s.runs + [id] && id < |s.commits| && id !in s.runs && Oldest(s, id)
    ensures InOrder(s')
  {
    assert forall k :: ItemOf(s', k) == ItemOf(s, k);
    forall i | 0 <= i < |s.runs| ensures s.runs[i] != id && (ItemOf(s, s.runs[i]) == ItemOf(s, id) ==> s.runs[i] < id) {
      assert s.runs[i] in s.runs;
    }
  }

  lemma MoreCommits(s: System, s': System)
    requires InOrder(s) && Owed(s) && s.commits <= s'.commits && s'.runs == s.runs
    ensures InOrder(s')
  {
    assert forall i :: 0 <= i < |s.runs| ==> s.runs[i] in s.runs;
    assert forall k: nat :: k < |s.commits| ==> ItemOf(s', k) == ItemOf(s, k);
  }

  lemma StepKeeps(s: System, step: Step)
    requires Inv(s) && Enabled(s, step)
    ensures Inv(Next(s, step))
  {
    ThreadsKeep(s, step);
    EntriesKeep(s, step);
    CloserKeeps(s, step);
    OwedKeeps(s, step);
    OwnLastKeeps(s, step);
    InOrderKeeps(s, step);
    CountKeeps(s, step);
    hide OneThreadPerItem, EntriesMatch, CloserAt, Owed, OwnLast, InOrder, Inside, Next, Enabled;
  }

  lemma {:induction false} ExecKeeps(start: System, steps: seq<Step>)
    requires Opened(start) && Exec(start, steps).Some?
    ensures Inv(Exec(start, steps).value)
  {
    if steps == [] {
      assert Inside(start) == {};
    } else {
      ExecKeeps(start, steps[..|steps| - 1]);
      StepKeeps(Exec(start, steps[..|steps| - 1]).value, steps[|steps| - 1]);
    }
  }

  // ---------------------------------------------------------------- what holds of every run

  /** A hook runs at most once for a commit, and for the commits of one item in their order. */
  lemma HooksInOrder(start: System, steps: seq<Step>, i: nat, j: nat)
    requires Opened(start) && Exec(start, steps).Some? && i < j < |Exec(start, steps).value.runs|
    ensures var s := Exec(start, steps).value;
      && s.runs[i] < |s.commits| && s.runs[j] < |s.commits| && s.runs[i] != s.runs[j]
      && (s.commits[s.runs[i]].item == s.commits[s.runs[j]].item ==> s.runs[i] < s.runs[j])
  {
    ExecKeeps(start, steps);
    var s := Exec(start, steps).value;
    hide Exec, EntriesMatch, CloserAt, OwnLast;
    assert s.runs[i] in s.runs && s.runs[j] in s.runs;
  }

  /** When Close returns, the hook has run for every committed minute. */
  lemma AllHooksRan(start: System, steps: seq<Step>, id: nat)
    requires Opened(start) && Exec(start, steps).Some? && Exec(start, steps).value.closer == Returned
    requires id < |Exec(start, steps).value.commits|
    ensures id in Exec(start, steps).value.runs
  {
    ExecKeeps(start, steps);
    var s := Exec(start, steps).value;
    hide Exec, EntriesMatch, OwnLast, InOrder;
    assert forall t :: OwedBy(s, id, t) ==> t in Inside(s);
  }

  /** From the moment Close calls its own hooks, nothing is committed; once it returned, no hook runs either. */
  lemma QuietStep(s: System, step: Step)
    requires Inv(s) && Enabled(s, step) && (s.closer == Calling || s.closer == Returned)
    ensures Next(s, step).commits == s.commits
    ensures s.closer == Returned ==> Next(s, step).runs == s.runs && Next(s, step).closer == Returned
  {
    hide OwnLast, InOrder;
    if step.Record? {
      RecordedCloser(s, step);
      var e := s.threads[step.t].e;
      assert Current(s, e) ==> Handled(s, s.threads[step.t].item);
    }
    assert forall t :: t in s.threads && s.threads[t].Committed? ==> t in Inside(s);
  }

  lemma {:induction false} NothingAfterReturn(start: System, steps: seq<Step>, more: seq<Step>)
    requires Opened(start) && Exec(start, steps).Some? && Exec(start, steps).value.closer == Returned
    requires Exec(start, steps + more).Some?
    ensures var before, after := Exec(start, steps).value, Exec(start, steps + more).value;
            after.closer == Returned && after.runs == before.runs && after.commits == before.commits
  {
    if more == [] {
      assert steps + more == steps;
    } else {
      var n := |more| - 1;
      assert (steps + more)[..|steps + more| - 1] == steps + more[..n];
      NothingAfterReturn(start, steps, more[..n]);
      ExecKeeps(start, steps + more[..n]);
      QuietStep(Exec(start, steps + more[..n]).value, more[n]);
    }
  }

  /** The hook Close calls for an item is the last one of that item: all its other commits are earlier ones whose hook has run. */
  lemma CloseHookIsLast(start: System, steps: seq<Step>, id: nat, other: nat)
    requires Opened(start) && Exec(start, steps).Some? && Enabled(Exec(start, steps).value, CloseHook(id))
    requires var s := Exec(start, steps).value;
             id < |s.commits| && other < |s.commits| && other != id && s.commits[other].item == s.commits[id].item
    ensures other < id && other in Exec(start, steps).value.runs
  {
    ExecKeeps(start, steps);
    var s := Exec(start, steps).value;
    hide Exec, EntriesMatch, InOrder;
    OwnOnlyOwed(s, id);
    assert ItemOf(s, other) == ItemOf(s, id);
  }

  /** While Close waits for hooks in flight, one of their threads can go on. */
  lemma WaitEnds(start: System, steps: seq<Step>)
    requires Opened(start) && Exec(start, steps).Some? && Exec(start, steps).value.hooks > 0
    ensures exists t :: Enabled(Exec(start, steps).value, Hook(t)) || Enabled(Exec(start, steps).value, Finish(t))
  {
    ExecKeeps(start, steps);
    var s := Exec(start, steps).value;
    hide Exec, EntriesMatch, InOrder, Owed, CloserAt, OwnLast;
    assert Inside(s) != {};
    var t :| t in Inside(s);
    assert Enabled(s, Hook(t)) || Enabled(s, Finish(t));
  }
}

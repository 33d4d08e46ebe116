/**
 * The event queue of the evaluator under any interleaving of threads (do and
 * drain in evaluator.go). Every section under the evaluator's lock is one
 * step; emit runs outside it, may call back, and may panic.
 */
module EventQueue {
  import opened Types
  import opened Rules
  import opened AlertModel
  import opened AlertLog

  type Tid = nat

  /** Where a thread is inside drain; a thread outside drain has none. */
  datatype Phase =
    | Locking                       // about to take the lock and look at the queue
    | Holding(batch: seq<Event>)    // about to emit batch[0]
    | Emitting(batch: seq<Event>)   // inside emit(batch[0])
    | Panicked(batch: seq<Event>)   // emit(batch[0]) panicked, the deferred section has not run yet

  datatype System = System(
    items: Items,
    pending: seq<Event>,
    draining: bool,
    drainers: map<Tid, Phase>,
    emitted: seq<Event>,   // every event emit was called with, in order
    log: seq<Event>,       // the events of all state changes, in lock order
    stranded: bool)        // the last drainer ended by a panic and no call has queued since

  datatype Step =
    | Do(t: Tid, op: Op)      // the section of do: change the state, queue its events, maybe become the drainer
    | Forget(keep: set<string>)  // Prune: a state change outside the queue
    | Take(t: Tid)            // the section at the top of drain's loop
    | Call(t: Tid)            // emit starts
    | Return(t: Tid)          // emit returns
    | Panic(t: Tid)           // emit panics
    | Recover(t: Tid)         // the deferred section

  /** A call that reaches do: not Prune, and not a change rejected before it. */
  predicate Queues(op: Op) {
    && !op.Prune?
    && (op.Change? ==> ValidUtf8(op.item) && Validate(op.rules).Accepted?)
  }

  /** A thread can call the evaluator from outside drain or from inside emit, nowhere else. */
  predicate Enabled(s: System, step: Step) {
    match step
    case Do(t, op) => Queues(op) && StoreItem(op) && (t in s.drainers ==> s.drainers[t].Emitting?)
    case Forget(_) => true
    case Take(t) => t in s.drainers && s.drainers[t].Locking?
    case Call(t) => t in s.drainers && s.drainers[t].Holding? && s.drainers[t].batch != []
    case Return(t) => t in s.drainers && s.drainers[t].Emitting? && s.drainers[t].batch != []
    case Panic(t) => t in s.drainers && s.drainers[t].Emitting?
    case Recover(t) => t in s.drainers && s.drainers[t].Panicked? && s.drainers[t].batch != []
  }

  function Queued(s: System, t: Tid, evs: seq<Event>): System {
    var s1 := s.(pending := s.pending + evs, log := s.log + evs, stranded := false);
    if s1.draining || s1.pending == [] then s1
    else s1.(draining := true, drainers := s1.drainers[t := Locking])
  }

  function Next(s: System, step: Step): System
    requires Enabled(s, step)
  {
    match step
    case Do(t, op) =>
      var (items, evs) := Apply(s.items, op);
      Queued(s.(items := items), t, evs)
    case Forget(keep) => s.(items := Apply(s.items, Prune(keep)).0)
    case Take(t) =>
      if s.pending == [] then s.(draining := false, drainers := s.drainers - {t})
      else s.(pending := [], drainers := s.drainers[t := Holding(s.pending)])
    case Call(t) =>
      var batch := s.drainers[t].batch;
      s.(emitted := s.emitted + [batch[0]], drainers := s.drainers[t := Emitting(batch)])
    case Return(t) =>
      var rest := s.drainers[t].batch[1..];
      s.(drainers := s.drainers[t := if rest == [] then Locking else Holding(rest)])
    case Panic(t) => s.(drainers := s.drainers[t := Panicked(s.drainers[t].batch)])
    case Recover(t) =>
      s.(pending := s.drainers[t].batch[1..] + s.pending, draining := false, drainers := s.drainers - {t}, stranded := true)
  }

  predicate BatchesFull(s: System) {
    forall t :: t in s.drainers ==> s.drainers[t].Locking? || s.drainers[t].batch != []
  }

  function Start(items: Items): System {
    System(items, [], false, map[], [], [], false)
  }

  /** A run of any length, any threads, in any order; None when a step was not enabled. */
  function Exec(start: Items, steps: seq<Step>): Option<System> {
    if steps == [] then Some(Start(start))
    else
      var p := Exec(start, steps[..|steps| - 1]);
      if p.Some? && Enabled(p.value, steps[|steps| - 1]) then Some(Next(p.value, steps[|steps| - 1])) else None
  }

  // ---------------------------------------------------------------- the invariant

  /** What the drainer took from the queue and has not handed to emit. */
  function RestOf(p: Phase): seq<Event> {
    match p
    case Locking => []
    case Holding(batch) => batch
    case Emitting(batch) => if batch == [] then [] else batch[1..]
    case Panicked(batch) => if batch == [] then [] else batch[1..]
  }

  /** Nothing is lost, repeated or reordered: emitted, then the drainer's rest, then the queue, is every event so far. */
  ghost predicate InOrder(s: System) {
    && (s.drainers == map[] ==> s.emitted + s.pending == s.log)
    && (forall t :: t in s.drainers ==> s.emitted + RestOf(s.drainers[t]) + s.pending == s.log)
  }

  ghost predicate OneDrainer(s: System) {
    && (forall t, u :: t in s.drainers && u in s.drainers ==> t == u)
    && (s.draining <==> s.drainers != map[])
  }

  ghost predicate Inv(s: System) {
    && BatchesFull(s)
    && OneDrainer(s)
    && InOrder(s)
    && (s.pending != [] && !s.draining ==> s.stranded)
  }

  lemma OnlyDrainer(s: System, t: Tid)
    requires OneDrainer(s) && t in s.drainers
    ensures s.drainers == map[t := s.drainers[t]]
    ensures s.drainers - {t} == map[]
    ensures s.draining
  {
    assert forall u :: u in s.drainers ==> u == t;
  }

  lemma QueuedKeeps(s: System, t: Tid, evs: seq<Event>)
    requires Inv(s) && (t in s.drainers ==> s.drainers[t].Emitting?)
    ensures Inv(Queued(s, t, evs))
    ensures Queued(s, t, evs).pending != [] ==> Queued(s, t, evs).draining
  {
    var s' := Queued(s, t, evs);
    if s.drainers == map[] {
      assert s.emitted + (s.pending + evs) == s.emitted + s.pending + evs;
      assert s.emitted + [] + s'.pending == s.emitted + s'.pending;
    } else {
      var u :| u in s.drainers;
      OnlyDrainer(s, u);
      assert s.emitted + RestOf(s.drainers[u]) + (s.pending + evs) == s.emitted + RestOf(s.drainers[u]) + s.pending + evs;
    }
  }

  lemma TakeKeeps(s: System, t: Tid)
    requires Inv(s) && Enabled(s, Take(t))
    ensures Inv(Next(s, Take(t)))
  {
    OnlyDrainer(s, t);
    assert s.emitted + [] + s.pending == s.emitted + s.pending == s.emitted + s.pending + [];
  }

  lemma EmitKeeps(s: System, t: Tid)
    requires Inv(s)
    ensures Enabled(s, Call(t)) ==> Inv(Next(s, Call(t)))
    ensures Enabled(s, Return(t)) ==> Inv(Next(s, Return(t)))
    ensures Enabled(s, Panic(t)) ==> Inv(Next(s, Panic(t)))
  {
    if t in s.drainers {
      OnlyDrainer(s, t);
      if Enabled(s, Call(t)) {
        var batch := s.drainers[t].batch;
        assert s.emitted + batch + s.pending == s.emitted + [batch[0]] + batch[1..] + s.pending;
      }
    }
  }

  lemma RecoverKeeps(s: System, t: Tid)
    requires Inv(s) && Enabled(s, Recover(t))
    ensures Inv(Next(s, Recover(t)))
  {
    OnlyDrainer(s, t);
    var rest := s.drainers[t].batch[1..];
    assert s.emitted + (rest + s.pending) == s.emitted + rest + s.pending;
  }

  lemma StepKeeps(s: System, step: Step)
    requires Inv(s) && Enabled(s, step)
    ensures Inv(Next(s, step))
  {
    hide Apply, StoreItem, Queues;
    match step {
      case Do(t, op) =>
        var (items, evs) := Apply(s.items, op);
        assert Inv(s.(items := items));
        QueuedKeeps(s.(items := items), t, evs);
      case Forget(_) =>
      case Take(t) => TakeKeeps(s, t);
      case Recover(t) => RecoverKeeps(s, t);
      case _ => EmitKeeps(s, step.t);
    }
  }

  /** The invariant holds in every interleaving. */
  lemma {:induction false} ExecKeeps(start: Items, steps: seq<Step>)
    requires Exec(start, steps).Some?
    ensures Inv(Exec(start, steps).value)
  {
    hide Inv, Next, Enabled;
    if steps == [] {
      StartInv(start);
    } else {
      ExecKeeps(start, steps[..|steps| - 1]);
      StepKeeps(Exec(start, steps[..|steps| - 1]).value, steps[|steps| - 1]);
    }
  }

  lemma StartInv(start: Items)
    ensures Inv(Start(start))
  {
  }

  // ---------------------------------------------------------------- what readers of the stream get

  /**
   * Exactly once and in order: in every interleaving, re-entrant and panicking
   * emits included, what was emitted is a prefix of the events of all state
   * changes; at most one thread drains; and events wait without a drainer only
   * after a panic that no call has followed.
   */
  lemma ExactlyOnceInOrder(start: Items, steps: seq<Step>)
    requires Exec(start, steps).Some?
    ensures var s := Exec(start, steps).value;
      && s.emitted <= s.log
      && (forall t, u :: t in s.drainers && u in s.drainers ==> t == u)
      && (s.drainers == map[] && s.pending == [] ==> s.emitted == s.log)
      && (s.drainers == map[] && s.pending != [] ==> s.stranded)
  {
    ExecKeeps(start, steps);
    var s := Exec(start, steps).value;
    if s.drainers == map[] {
      assert s.emitted <= s.emitted + s.pending;
    } else {
      var t :| t in s.drainers;
      assert s.emitted <= s.emitted + RestOf(s.drainers[t]) + s.pending;
    }
  }

  /** A drainer that leaves normally leaves nothing behind: every event queued so far has been emitted. */
  lemma DrainerLeavesNothing(start: Items, steps: seq<Step>, t: Tid)
    requires Exec(start, steps).Some?
    requires Enabled(Exec(start, steps).value, Take(t)) && t !in Next(Exec(start, steps).value, Take(t)).drainers
    ensures Exec(start, steps).value.emitted == Exec(start, steps).value.log
  {
    ExecKeeps(start, steps);
    var s := Exec(start, steps).value;
    assert s.emitted + [] + [] == s.emitted;
  }

  /** After any call that queues, leftovers of a panic included, whatever waits has a drainer. */
  lemma CallDrainsLeftovers(start: Items, steps: seq<Step>, t: Tid, op: Op)
    requires Exec(start, steps).Some? && Enabled(Exec(start, steps).value, Do(t, op))
    ensures var s' := Next(Exec(start, steps).value, Do(t, op)); s'.pending != [] ==> s'.drainers != map[]
  {
    hide Apply, StoreItem, Queues;
    ExecKeeps(start, steps);
    var s := Exec(start, steps).value;
    var (items, evs) := Apply(s.items, op);
    QueuedKeeps(s.(items := items), t, evs);
  }

  // ---------------------------------------------------------------- the stream and the alerts

  /** No step drops an active alert through Prune. */
  ghost predicate QuietStep(s: System, step: Step) {
    step.Forget? ==> Quiet(s.items, Prune(step.keep))
  }

  /** The log tracks the items, and the items stay loadable. */
  ghost predicate LogTracks(start: Items, s: System) {
    ValidItems(s.items) && Tracks(start, s.items, s.log)
  }

  /** No Prune of the run drops an active alert. */
  ghost predicate QuietSteps(start: Items, steps: seq<Step>)
    requires Exec(start, steps).Some?
  {
    steps == [] ||
    (QuietSteps(start, steps[..|steps| - 1]) && QuietStep(Exec(start, steps[..|steps| - 1]).value, steps[|steps| - 1]))
  }

  lemma TracksThen(a: Items, e1: seq<Event>, b: Items, e2: seq<Event>, c: Items)
    requires Tracks(a, b, e1) && Tracks(b, c, e2)
    ensures Tracks(a, c, e1 + e2)
  {
    forall item, key | KnownKey(key) ensures FollowAll(TrackOf(a, item, key), e1 + e2, item, key) == TrackOf(c, item, key) {
      FollowConcat(TrackOf(a, item, key), e1, e2, item, key);
    }
  }

  lemma StepTracks(start: Items, s: System, step: Step)
    requires LogTracks(start, s) && Enabled(s, step) && QuietStep(s, step)
    ensures LogTracks(start, Next(s, step))
  {
    hide Apply, ValidItems, Tracks, Quiet;
    match step {
      case Do(t, op) =>
        ApplyTracksIff(s.items, op);
        NotPruneIsQuiet(s.items, op);
        var (items, evs) := Apply(s.items, op);
        TracksThen(start, s.log, s.items, evs, items);
      case Forget(keep) =>
        ApplyTracksIff(s.items, Prune(keep));
        PruneEmitsNothing(s.items, keep);
        TracksThen(start, s.log, s.items, [], Apply(s.items, Prune(keep)).0);
        assert s.log + [] == s.log;
      case _ =>
    }
  }

  lemma PruneEmitsNothing(s: Items, keep: set<string>)
    ensures Apply(s, Prune(keep)).1 == []
  {
  }

  lemma NotPruneIsQuiet(s: Items, op: Op)
    requires !op.Prune?
    ensures Quiet(s, op)
  {
  }

  lemma {:induction false} LogTracksItems(start: Items, steps: seq<Step>)
    requires ValidItems(start) && Exec(start, steps).Some? && QuietSteps(start, steps)
    ensures LogTracks(start, Exec(start, steps).value)
  {
    hide ValidItems, Next, Enabled, QuietStep, LogTracks;
    if steps == [] {
      StartTracks(start);
    } else {
      LogTracksItems(start, steps[..|steps| - 1]);
      StepTracks(start, Exec(start, steps[..|steps| - 1]).value, steps[|steps| - 1]);
    }
  }

  lemma StartTracks(start: Items)
    requires ValidItems(start)
    ensures LogTracks(start, Start(start))
  {
    NothingTracks(start);
  }

  lemma {:induction false} BrokenStays(t: Track, evs: seq<Event>, n: nat, item: string, key: string)
    requires n <= |evs| && FollowAll(t, evs, item, key) != Broken
    ensures FollowAll(t, evs[..n], item, key) != Broken
    decreases |evs|
  {
    if n < |evs| {
      BrokenStays(t, evs[..|evs| - 1], n, item, key);
      assert evs[..|evs| - 1][..n] == evs[..n];
    } else {
      assert evs[..n] == evs;
    }
  }

  /**
   * What subscribers see: at any moment of any interleaving, the events
   * actually emitted for any item and key alternate firing and resolved, each
   * resolved with the Since of its firing.
   */
  lemma EmittedAlternates(start: Items, steps: seq<Step>, item: string, key: string)
    requires ValidItems(start) && Exec(start, steps).Some? && QuietSteps(start, steps) && KnownKey(key)
    ensures FollowAll(TrackOf(start, item, key), Exec(start, steps).value.emitted, item, key) != Broken
  {
    hide ValidItems, TrackOf, Exec;
    var s := Exec(start, steps).value;
    ExactlyOnceInOrder(start, steps);
    LogTracksItems(start, steps);
    TrackHolds(s.items, item, key);
    BrokenStays(TrackOf(start, item, key), s.log, |s.emitted|, item, key);
    assert s.log[..|s.emitted|] == s.emitted;
  }
}

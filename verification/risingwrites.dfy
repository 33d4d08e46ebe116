/**
 * A writer that commits minutes in increasing order, as an item's recorder does
 * between clock steps, stamps none twice. So a reader beside it can only find a
 * torn cell for a minute the ring already held when the writer came to it.
 */
module RisingWrites {
  import opened Types
  import opened Disk
  import opened RingProtocol
  import opened RingSafety
  import opened RingRuns
  import opened RingStamps
  import RingMap
  import Seqlock

  /** The minutes of the commits begun since the ring was in state r, in order. */
  function Begun(r: Ring, w: Seqlock.World): seq<nat> {
    if |r.begun| <= |w.ring.begun| then w.ring.begun[|r.begun|..] else []
  }

  ghost predicate Rises(minutes: seq<nat>) {
    forall i, j :: 0 <= i < j < |minutes| ==> minutes[i] < minutes[j]
  }

  /** What was stamped is what was begun, each once and in order; a commit in progress comes last. */
  ghost predicate StampsRise(r: Ring, w: Seqlock.World) {
    && r.begun <= w.ring.begun
    && Rises(w.stamped)
    && (forall m :: m in w.stamped ==> m in Begun(r, w))
    && (w.ring.call.Some? && w.ring.call.value.Commit? ==>
          && |Begun(r, w)| > 0 && Begun(r, w)[|Begun(r, w)| - 1] == w.ring.call.value.minute
          && forall m :: m in w.stamped ==> m < w.ring.call.value.minute)
  }

  /** Every stamp was there at the start or was stamped since. */
  ghost predicate StampsKnown(initial: seq<nat>, w: Seqlock.World)
    requires Sane(w.ring.file) && |initial| == MINUTES
  {
    forall slot: nat :: slot < MINUTES && Visible(w.ring.file).stamps[slot] != 0 ==>
      Visible(w.ring.file).stamps[slot] == initial[slot] || Visible(w.ring.file).stamps[slot] in w.stamped
  }

  /** A minute a reader found in place was there at the start or had been stamped by then. */
  ghost predicate SeenKnown(initial: seq<nat>, stamped: seq<nat>, rd: Seqlock.Reader)
    requires |initial| == MINUTES
  {
    forall j: nat :: Seqlock.Matched(rd, j) ==>
      j in rd.seen && rd.seen[j] <= |stamped|
      && (Seqlock.Want(rd.from, j) == initial[Seqlock.SlotAt(rd.from, j)] || Seqlock.Want(rd.from, j) in stamped[..rd.seen[j]])
  }

  ghost predicate Known(initial: seq<nat>, w: Seqlock.World)
    requires |initial| == MINUTES
  {
    && Sane(w.ring.file) && StampsKnown(initial, w)
    && (forall id :: id in w.readers ==> SeenKnown(initial, w.stamped, w.readers[id]))
    && (forall k :: 0 <= k < |w.results| ==> SeenKnown(initial, w.stamped, w.results[k]))
  }

  /** The stamp a commit puts is its own minute, as its last operation. */
  lemma PutIsMinute(r: Ring, step: RingRuns.Step)
    requires Inv(r) && RingRuns.Enabled(r, step) && !step.Crash? && StampPut(r, step).Some? && StampPut(r, step).value.1 != 0
    ensures r.call.Some? && r.call.value.Commit? && StampPut(r, step).value.1 == r.call.value.minute
    ensures RingRuns.Next(r, step).call == None
  {
    hide Safe, Remembers, CommitOps, Progress;
    StepShape(r, step);
    if r.call.value.Commit? {
      NextOfCommit(r);
    }
  }

  /** Where a step of the writer leaves the call in progress and the books of begun commits. */
  lemma CallAfter(r: Ring, step: RingRuns.Step)
    requires RingRuns.Enabled(r, step) && !step.Crash?
    ensures var r' := RingRuns.Next(r, step);
      && r'.begun == r.begun + (if step.Begin? then CommitOf(step.call) else [])
      && (r'.call.Some? ==> if step.Begin? then r'.call == Some(step.call) else r'.call == r.call)
  {
    StepShape(r, step);
  }

  /** What a step of the writer adds to the minutes begun and to those stamped. */
  lemma WroteMoves(r: Ring, w: Seqlock.World, step: RingRuns.Step)
    requires Inv(w.ring) && Seqlock.Enabled(w, Seqlock.Write(step)) && r.begun <= w.ring.begun
    ensures var w' := Seqlock.Wrote(w, step);
      && r.begun <= w'.ring.begun
      && Begun(r, w') == Begun(r, w) + (if step.Begin? then CommitOf(step.call) else [])
      && (w'.ring.call.Some? ==> w'.stamped == w.stamped && w'.ring.call == if step.Begin? then Some(step.call) else w.ring.call)
      && (w'.stamped == w.stamped ||
          (!step.Begin? && w.ring.call.Some? && w.ring.call.value.Commit? && w'.stamped == w.stamped + [w.ring.call.value.minute]))
  {
    var put := StampPut(w.ring, step);
    CallAfter(w.ring, step);
    Seqlock.WroteRing(w, step);
    if put.Some? && put.value.1 != 0 {
      PutIsMinute(w.ring, step);
    }
    hide RingRuns.Next, Inv;
  }

  lemma WriteRises(r: Ring, w: Seqlock.World, step: RingRuns.Step)
    requires Inv(w.ring) && Seqlock.Enabled(w, Seqlock.Write(step)) && StampsRise(r, w)
    requires Rises(Begun(r, Seqlock.Wrote(w, step)))
    ensures StampsRise(r, Seqlock.Wrote(w, step))
  {
    hide RingRuns.Enabled, RingRuns.Next, Seqlock.Wrote, Inv;
    WroteMoves(r, w, step);
    var b, b', w' := Begun(r, w), Begun(r, Seqlock.Wrote(w, step)), Seqlock.Wrote(w, step);
    hide Begun, Rises;
    assert forall m :: m in b ==> m in b';
    if step.Begin? && step.call.Commit? {
      LastIsGreatest(b, step.call.minute);
      assert b'[|b'| - 1] == step.call.minute;
    }
    if w'.stamped != w.stamped {
      assert b[|b| - 1] in b;
      AppendRises(w.stamped, w.ring.call.value.minute);
    }
  }

  lemma AppendRises(stamped: seq<nat>, m: nat)
    requires Rises(stamped) && forall x :: x in stamped ==> x < m
    ensures Rises(stamped + [m])
  {
    var longer := stamped + [m];
    assert forall i :: 0 <= i < |stamped| ==> longer[i] == stamped[i] && stamped[i] in stamped;
  }

  lemma LastIsGreatest(b: seq<nat>, m: nat)
    requires Rises(b + [m])
    ensures forall x :: x in b ==> x < m
  {
    var c := b + [m];
    forall i | 0 <= i < |b| ensures b[i] < m {
      assert c[i] < c[|b|];
    }
  }

  lemma WriteKnown(initial: seq<nat>, w: Seqlock.World, step: RingRuns.Step)
    requires |initial| == MINUTES && Seqlock.WorldInv(w) && Seqlock.Enabled(w, Seqlock.Write(step)) && Known(initial, w)
    ensures Known(initial, Seqlock.Wrote(w, step))
  {
    hide Inv, Seqlock.ReaderInv, Seqlock.Whole, Seqlock.Booked;
    Seqlock.WroteShifts(w, step);
    Seqlock.WroteRing(w, step);
    hide Seqlock.WorldInv, Seqlock.Wrote, RingRuns.Next, RingRuns.Enabled, SeenKnown, Seqlock.BooksStay;
    var w' := Seqlock.Wrote(w, step);
    StampsStayKnown(initial, w, w', StampPut(w.ring, step));
    forall id | id in w'.readers ensures SeenKnown(initial, w'.stamped, w'.readers[id]) {
      SeenStays(initial, w.stamped, w'.stamped, w'.readers[id]);
    }
    forall k | 0 <= k < |w'.results| ensures SeenKnown(initial, w'.stamped, w'.results[k]) {
      SeenStays(initial, w.stamped, w'.stamped, w'.results[k]);
    }
  }

  lemma StampsStayKnown(initial: seq<nat>, w: Seqlock.World, w': Seqlock.World, put: Option<(nat, nat)>)
    requires |initial| == MINUTES && Sane(w.ring.file) && Sane(w'.ring.file)
    requires Seqlock.Shifted(w, w', put) && StampsKnown(initial, w)
    ensures StampsKnown(initial, w') && w.stamped <= w'.stamped
  {
    assert forall m :: m in w.stamped ==> m in w'.stamped;
  }

  lemma SeenStays(initial: seq<nat>, stamped: seq<nat>, longer: seq<nat>, rd: Seqlock.Reader)
    requires |initial| == MINUTES && SeenKnown(initial, stamped, rd) && stamped <= longer
    ensures SeenKnown(initial, longer, rd)
  {
    hide Seqlock.Want, Seqlock.SlotAt;
    assert forall n: nat :: n <= |stamped| ==> longer[..n] == stamped[..n];
  }

  lemma ReadKnown(initial: seq<nat>, w: Seqlock.World, a: Seqlock.Action)
    requires |initial| == MINUTES && Seqlock.Enabled(w, a) && !a.Write? && Known(initial, w)
    ensures Known(initial, Seqlock.Next(w, a))
    ensures Seqlock.Next(w, a).ring == w.ring && Seqlock.Next(w, a).stamped == w.stamped
  {
    hide SeenKnown, Seqlock.Want, Visible;
    var w' := Seqlock.Next(w, a);
    if !a.Finish? {
      ReaderSeen(initial, w, a, a.id);
      assert w'.results == w.results && forall id :: id in w'.readers && id != a.id ==> id in w.readers && w'.readers[id] == w.readers[id];
    }
  }

  lemma ReaderSeen(initial: seq<nat>, w: Seqlock.World, a: Seqlock.Action, id: Seqlock.Rid)
    requires |initial| == MINUTES && Seqlock.Enabled(w, a) && !a.Write? && !a.Finish? && a.id == id && Known(initial, w)
    ensures SeenKnown(initial, w.stamped, Seqlock.Next(w, a).readers[id])
  {
    hide Visible, StampsKnown, Seqlock.StampRead;
    if a.ReadBefore? {
      FirstReadKnown(initial, w, w.readers[id], a.j);
    } else if !a.Open? {
      SameSeen(initial, w.stamped, w.readers[id], Seqlock.Next(w, a).readers[id]);
    }
  }

  lemma SameSeen(initial: seq<nat>, stamped: seq<nat>, rd: Seqlock.Reader, rd': Seqlock.Reader)
    requires |initial| == MINUTES && SeenKnown(initial, stamped, rd)
    requires rd'.from == rd.from && rd'.before == rd.before && rd'.seen == rd.seen
    ensures SeenKnown(initial, stamped, rd')
  {
    hide Seqlock.Want, Seqlock.SlotAt;
    assert forall j: nat :: Seqlock.Matched(rd', j) ==> Seqlock.Matched(rd, j);
  }

  lemma FirstReadKnown(initial: seq<nat>, w: Seqlock.World, rd: Seqlock.Reader, j: nat)
    requires |initial| == MINUTES && Sane(w.ring.file) && StampsKnown(initial, w) && SeenKnown(initial, w.stamped, rd)
    ensures SeenKnown(initial, w.stamped, Seqlock.StampRead(w, rd, j))
  {
    hide Seqlock.Want, Visible;
    var rd' := Seqlock.StampRead(w, rd, j);
    assert w.stamped[..|w.stamped|] == w.stamped;
    forall k: nat | Seqlock.Matched(rd', k)
      ensures k in rd'.seen && rd'.seen[k] <= |w.stamped|
      ensures Seqlock.Want(rd'.from, k) == initial[Seqlock.SlotAt(rd'.from, k)] || Seqlock.Want(rd'.from, k) in w.stamped[..rd'.seen[k]]
    {
      assert k != j ==> Seqlock.Matched(rd, k);
    }
  }

  // ---------------------------------------------------------------- whole runs

  lemma {:induction false} RisingKeeps(r: Ring, actions: seq<Seqlock.Action>)
    requires Inv(r) && Sane(r.file) && r.call.None? && Seqlock.Exec(r, actions).Some?
    requires Rises(Begun(r, Seqlock.Exec(r, actions).value))
    ensures StampsRise(r, Seqlock.Exec(r, actions).value) && Known(Visible(r.file).stamps, Seqlock.Exec(r, actions).value)
  {
    hide Inv, Seqlock.Enabled, Seqlock.Next, Known, StampsRise, Visible, Rises;
    if actions == [] {
      StartRises(r);
    } else {
      var init, a := actions[..|actions| - 1], actions[|actions| - 1];
      var w := Seqlock.Exec(r, init).value;
      Seqlock.ExecKeeps(r, init);
      BegunGrows(r, init);
      ActionGrows(r, w, a);
      RisesBefore(Begun(r, w), Begun(r, Seqlock.Next(w, a)));
      RisingKeeps(r, init);
      ActionRises(r, w, a);
    }
  }

  lemma StartRises(r: Ring)
    requires Inv(r) && Sane(r.file) && r.call.None?
    ensures StampsRise(r, Seqlock.Start(r)) && Known(Visible(r.file).stamps, Seqlock.Start(r))
  {
    hide Inv, Visible;
  }

  lemma RisesBefore(a: seq<nat>, b: seq<nat>)
    requires a <= b && Rises(b)
    ensures Rises(a)
  {
  }

  lemma ActionGrows(r: Ring, w: Seqlock.World, a: Seqlock.Action)
    requires Seqlock.Enabled(w, a) && r.begun <= w.ring.begun
    ensures r.begun <= Seqlock.Next(w, a).ring.begun && Begun(r, w) <= Begun(r, Seqlock.Next(w, a))
  {
    if a.Write? {
      CallAfter(w.ring, a.step);
      Seqlock.WroteRing(w, a.step);
      hide RingRuns.Next, RingRuns.Enabled, StampPut, Seqlock.Wrote;
    } else {
      hide Seqlock.Want, Visible;
    }
  }

  lemma {:induction false} BegunGrows(r: Ring, actions: seq<Seqlock.Action>)
    requires Seqlock.Exec(r, actions).Some?
    ensures r.begun <= Seqlock.Exec(r, actions).value.ring.begun
  {
    hide Seqlock.Enabled, Seqlock.Next;
    if actions != [] {
      BegunGrows(r, actions[..|actions| - 1]);
      ActionGrows(r, Seqlock.Exec(r, actions[..|actions| - 1]).value, actions[|actions| - 1]);
    }
  }

  lemma ActionRises(r: Ring, w: Seqlock.World, a: Seqlock.Action)
    requires Sane(r.file) && Seqlock.WorldInv(w) && Seqlock.Enabled(w, a)
    requires StampsRise(r, w) && Known(Visible(r.file).stamps, w) && Rises(Begun(r, Seqlock.Next(w, a)))
    ensures StampsRise(r, Seqlock.Next(w, a)) && Known(Visible(r.file).stamps, Seqlock.Next(w, a))
  {
    var initial := Visible(r.file).stamps;
    if a.Write? {
      RingOf(w);
      hide Seqlock.WorldInv, Known, StampsRise, Visible, Seqlock.Wrote, RingRuns.Enabled, RingRuns.Next, Inv, Rises, Begun;
      WriteRises(r, w, a.step);
      WriteKnown(initial, w, a.step);
    } else {
      hide Seqlock.WorldInv, Known, StampsRise, Visible, Seqlock.Next, Rises, Begun;
      ReadKnown(initial, w, a);
      SameRises(r, w, Seqlock.Next(w, a));
    }
  }

  lemma SameRises(r: Ring, w: Seqlock.World, w': Seqlock.World)
    requires StampsRise(r, w) && w'.ring == w.ring && w'.stamped == w.stamped
    ensures StampsRise(r, w')
  {
  }

  lemma RingOf(w: Seqlock.World)
    requires Seqlock.WorldInv(w)
    ensures Inv(w.ring)
  {
  }

  /** In rising commits a minute stamped again under a reader was in the ring from the start, and was committed since. */
  lemma RestampedWasKept(r: Ring, w: Seqlock.World, rd: Seqlock.Reader, j: nat)
    requires Sane(r.file) && StampsRise(r, w) && SeenKnown(Visible(r.file).stamps, w.stamped, rd)
    requires Seqlock.Matched(rd, j) && Seqlock.Restamped(w.stamped, rd, j)
    ensures Visible(r.file).stamps[Seqlock.SlotAt(rd.from, j)] == Seqlock.Want(rd.from, j) && Seqlock.Want(rd.from, j) in Begun(r, w)
  {
    hide Seqlock.Want, Seqlock.SlotAt, Visible;
    var m := Seqlock.Want(rd.from, j);
    var i: nat :| rd.seen[j] <= i < rd.again[j] && i < |w.stamped| && w.stamped[i] == m;
    assert m in w.stamped;
    assert m !in w.stamped[..rd.seen[j]];
  }

  /**
   * Beside a writer whose commits rise, in any interleaving, every cell a reader
   * returns is that of one whole committed minute, save for a minute the ring
   * held at the start and the writer committed again.
   */
  lemma TornOnlyIfKeptAgain(r: Ring, actions: seq<Seqlock.Action>, k: nat, i: nat, j: nat)
    requires Inv(r) && Sane(r.file) && r.call.None? && Seqlock.Exec(r, actions).Some?
    requires Rises(Begun(r, Seqlock.Exec(r, actions).value)) && k < |Seqlock.Exec(r, actions).value.results|
    requires var rd := Seqlock.Exec(r, actions).value.results[k]; i < rd.series && j < rd.n && 0 < rd.from + j < STAMP_LIMIT
    ensures var w := Seqlock.Exec(r, actions).value;
      var m := w.results[k].from + j;
      && Seqlock.AllRead(w.results[k], i, j)
      && (!(Visible(r.file).stamps[SlotOf(m)] == m && m in Begun(r, w)) ==> Seqlock.IsWhole(w.commits, w.results[k], i, j))
  {
    RisingKeeps(r, actions);
    Seqlock.NoTornReads(r, actions, k, i, j);
    hide Seqlock.Exec, Inv, StampsRise, Begun, Visible, Rises, StampsKnown, Seqlock.IsWhole, Seqlock.AllRead, Seqlock.Restamped;
    var w := Seqlock.Exec(r, actions).value;
    TornWasKept(r, w, w.results[k], i, j);
  }

  lemma TornWasKept(r: Ring, w: Seqlock.World, rd: Seqlock.Reader, i: nat, j: nat)
    requires Sane(r.file) && StampsRise(r, w) && SeenKnown(Visible(r.file).stamps, w.stamped, rd)
    requires Seqlock.AllRead(rd, i, j) && 0 < rd.from + j < STAMP_LIMIT
    requires !Seqlock.Restamped(w.stamped, rd, j) ==> Seqlock.IsWhole(w.commits, rd, i, j)
    ensures var m := rd.from + j;
      Seqlock.IsWhole(w.commits, rd, i, j) || (Visible(r.file).stamps[SlotOf(m)] == m && m in Begun(r, w))
  {
    hide StampsRise, Begun, Visible, SeenKnown, Seqlock.Restamped;
    if Seqlock.Restamped(w.stamped, rd, j) && Seqlock.CellRead(rd, i, j).Some? {
      RestampedWasKept(r, w, rd, j);
    }
  }

  /** When they are also above everything the ring held, no reader ever returns a torn cell. */
  lemma RisingNeverTears(r: Ring, actions: seq<Seqlock.Action>, k: nat, i: nat, j: nat)
    requires Inv(r) && Sane(r.file) && r.call.None? && Seqlock.Exec(r, actions).Some?
    requires Rises(Begun(r, Seqlock.Exec(r, actions).value)) && k < |Seqlock.Exec(r, actions).value.results|
    requires forall m :: m in Begun(r, Seqlock.Exec(r, actions).value) ==> m > RingMap.Newest(Visible(r.file).stamps)
    requires var rd := Seqlock.Exec(r, actions).value.results[k]; i < rd.series && j < rd.n && 0 < rd.from + j < STAMP_LIMIT
    ensures var w := Seqlock.Exec(r, actions).value;
      Seqlock.AllRead(w.results[k], i, j) && Seqlock.IsWhole(w.commits, w.results[k], i, j)
  {
    TornOnlyIfKeptAgain(r, actions, k, i, j);
    hide Seqlock.Exec, Inv, Begun, Visible, Rises, Seqlock.IsWhole, Seqlock.AllRead;
  }
}

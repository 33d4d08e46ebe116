/** How the steps of a ring move the stamps a reader sees. */
module RingStamps {
  import opened Types
  import opened Disk
  import opened RingProtocol
  import opened RingSafety
  import opened RingSteps
  import opened RingRuns

  /** The stamp the writer's step puts in a slot, if it does. */
  function StampPut(r: Ring, step: RingRuns.Step): Option<(nat, nat)> {
    if Running(r) && NextOp(r).WriteStamp? && (step.Succeed? || (step.Fail? && step.parts != []))
    then Some((NextOp(r).slot, NextOp(r).stamp)) else None
  }

  lemma SameStampWrites(img: Image, ws: seq<Write>, slot: nat, v: nat)
    requires WellFormed(img) && slot < MINUTES && forall i :: 0 <= i < |ws| ==> ws[i] == StampW(slot, v)
    ensures AllInRange(ws)
    ensures WrittenAll(img, ws).stamps == if ws == [] then img.stamps else img.stamps[slot := v]
  {
    if ws != [] {
      SameStampWrites(img, ws[..|ws| - 1], slot, v);
    }
  }

  lemma NoStampWrites(img: Image, ws: seq<Write>)
    requires WellFormed(img) && AllInRange(ws) && forall i :: 0 <= i < |ws| ==> !ws[i].StampW?
    ensures WrittenAll(img, ws).stamps == img.stamps
  {
    if ws != [] {
      NoStampWrites(img, ws[..|ws| - 1]);
    }
  }

  /** The stamps after some or all of an operation reached the disk. */
  lemma PartsEffect(r: Ring, parts: seq<Write>)
    requires Inv(r) && Running(r) && OpInRange(NextOp(r)) && Failed(r.file, NextOp(r), parts)
    ensures AllInRange(parts) && Sane(Issued(r.file, parts))
    ensures Visible(Issued(r.file, parts)).stamps ==
              if NextOp(r).WriteStamp? && parts != []
              then Visible(r.file).stamps[NextOp(r).slot := NextOp(r).stamp] else Visible(r.file).stamps
  {
    hide Inv;
    InvSane(r);
    WritesInRange(NextOp(r), parts);
    if NextOp(r).WriteStamp? {
      forall i | 0 <= i < |parts| ensures parts[i] == StampW(NextOp(r).slot, NextOp(r).stamp) {
        assert PartOf(parts[i], NextOp(r));
      }
      SameStampWrites(Visible(r.file), parts, NextOp(r).slot, NextOp(r).stamp);
    } else {
      forall i | 0 <= i < |parts| ensures !parts[i].StampW? {
        assert PartOf(parts[i], NextOp(r));
      }
      NoStampWrites(Visible(r.file), parts);
    }
    IssuedVisible(r.file, parts);
  }

  /** A step of the writer that is no crash changes stamps only where StampPut says. */
  lemma StampsAfter(r: Ring, step: RingRuns.Step)
    requires Inv(r) && RingRuns.Enabled(r, step) && !step.Crash?
    ensures Sane(RingRuns.Next(r, step).file)
    ensures Visible(RingRuns.Next(r, step).file).stamps ==
              if StampPut(r, step).Some? && StampPut(r, step).value.0 < MINUTES
              then Visible(r.file).stamps[StampPut(r, step).value.0 := StampPut(r, step).value.1] else Visible(r.file).stamps
  {
    hide Inv, OpsOf, Failed;
    InvSane(r);
    match step {
      case Begin(_) =>
      case Succeed =>
        if NextOp(r).Sync? {
          SyncNarrows(r.file);
          assert Visible(Synced(r.file)) == Visible(r.file);
        } else {
          WritesAreParts(r.file, NextOp(r));
          PartsEffect(r, WritesOf(NextOp(r)));
        }
      case Fail(parts) => PartsEffect(r, parts);
    }
  }

  /** A stamp other than 0 is only put in a slot that shows 0, and the books only change in such a slot. */
  lemma BooksAfter(r: Ring, step: RingRuns.Step, slot: nat)
    requires Inv(r) && RingRuns.Enabled(r, step) && !step.Crash? && slot < MINUTES && Visible(r.file).stamps[slot] != 0
    ensures slot in r.books ==> slot in RingRuns.Next(r, step).books && RingRuns.Next(r, step).books[slot] == r.books[slot]
    ensures StampPut(r, step).Some? && StampPut(r, step).value.0 == slot ==> StampPut(r, step).value.1 == 0
  {
    hide Safe, Remembers, CommitOps;
    if Running(r) && r.call.value.Commit? {
      NextOfCommit(r);
      VisibleMay(r.file);
      assert MayStamp(r.file, slot, Visible(r.file).stamps[slot]);
    }
  }

  lemma SeriesGrow(r: Ring, step: RingRuns.Step)
    requires Inv(r) && RingRuns.Enabled(r, step) && !step.Crash?
    ensures |r.hdr.keys| <= |RingRuns.Next(r, step).hdr.keys|
    ensures StampPut(r, step).Some? ==> StampPut(r, step).value.0 < MINUTES
  {
    hide Inv, CommitOps;
  }

  // ---------------------------------------------------------------- slots that hold no minute that was committed

  /** The slots whose stamp in the file is not of a commit that returned and was not overwritten since. */
  ghost function Unclean(r: Ring): set<nat> {
    set slot: nat | slot < MINUTES && slot !in r.kept && Sane(r.file) && Visible(r.file).stamps[slot] != 0
  }

  /** What a step does besides disk and bookkeeping. */
  lemma StepShape(r: Ring, step: RingRuns.Step)
    requires RingRuns.Enabled(r, step) && !step.Crash?
    ensures var r' := RingRuns.Next(r, step);
      && (step.Begin? ==> r'.call == Some(step.call) && r'.done == 0 && r'.hdr == r.hdr && r'.cur == r.cur && r'.file == r.file
                          && r'.kept == r.kept - (if step.call.Commit? then {SlotOf(step.call.minute)} else {}))
      && (step.Fail? ==> r'.call == None && r'.hdr == r.hdr && r'.cur == r.cur && r'.kept == r.kept)
      && (step.Succeed? && r.done + 1 < |OpsOf(r.call.value, r.hdr, r.cur)| ==>
            r'.call == r.call && r'.done == r.done + 1 && r'.hdr == r.hdr && r'.cur == r.cur && r'.kept == r.kept)
      && (step.Succeed? && r.done + 1 == |OpsOf(r.call.value, r.hdr, r.cur)| ==>
            && r'.call == None
            && r'.hdr == HeaderAfter(r.hdr, r.call.value)
            && r'.cur == (if r.call.value.Commit? then r.cur else 1 - r.cur)
            && r'.kept == (if r.call.value.Commit? then KeptWith(r.kept, EntryOf(r)) else r.kept))
      && r'.begun == r.begun + (if step.Begin? then CommitOf(step.call) else [])
  {
    hide CommitOps, Parse;
  }

  /** A step makes no slot unclean but the one the call in progress writes. */
  lemma StepUnclean(r: Ring, step: RingRuns.Step, slots: set<nat>)
    requires Inv(r) && RingRuns.Enabled(r, step) && !step.Crash?
    requires step.Begin? && step.call.Commit? ==> SlotOf(step.call.minute) in slots
    requires StampPut(r, step).Some? ==> StampPut(r, step).value.0 in slots
    ensures Sane(RingRuns.Next(r, step).file) && Unclean(RingRuns.Next(r, step)) <= Unclean(r) + slots
  {
    hide Inv, OpsOf;
    InvSane(r);
    StampsAfter(r, step);
    StepShape(r, step);
    if Running(r) && r.call.value.Commit? {
      NextOfCommit(r);
    }
    hide RingRuns.Next, RingRuns.Enabled, Visible;
  }

  /** The slot of a commit that returned is clean. */
  lemma ReturnedClean(r: Ring)
    requires Inv(r) && RingRuns.Enabled(r, Succeed) && r.call.value.Commit? && r.done + 1 == |OpsOf(r.call.value, r.hdr, r.cur)|
    ensures SlotOf(r.call.value.minute) !in Unclean(RingRuns.Next(r, Succeed))
  {
    hide Inv, CommitOps;
    InvSane(r);
    NextOfCommit(r);
    StampsAfter(r, Succeed);
    StepShape(r, Succeed);
    hide RingRuns.Next, Visible, OpsOf;
  }
}

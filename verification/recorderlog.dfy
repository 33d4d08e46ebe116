/** What the ring of an item holds after a run of its recorder, in terms of the samples it accepted. */
module RecorderLogs {
  import opened Types
  import opened RingProtocol
  import opened RingMap
  import opened Recorders
  import opened RecorderRuns
  import RingSafety
  import RingStamps
  import RingFiles

  /** What a commit writes, by series. */
  function RowFor(acc: Acc, known: seq<string>): (row: seq<Cell>)
    ensures |row| == |known|
  {
    seq(|known|, i requires 0 <= i < |known| => Summary(acc, known[i]))
  }

  /** The minute as it was written. */
  function EntryFor(b: Batch): Entry {
    Entry(if b.minute >= 0 then b.minute else 0, RowFor(Gathered(b.samples), b.known))
  }

  /** The commits that returned, in order. */
  function LogOf(ended: seq<Batch>): seq<Entry> {
    if ended == [] then []
    else LogOf(ended[..|ended| - 1]) + if ended[|ended| - 1].end == Committed then [EntryFor(ended[|ended| - 1])] else []
  }

  /** A committed minute has a series for every key with a value; series are only appended later. */
  ghost predicate FiledBy(ended: seq<Batch>, era: nat, known: seq<string>) {
    forall b :: b in ended ==>
      && b.minute >= 0
      && (b.end == ClockStepped ==> b.era < era)
      && (b.end == Committed ==> Distinct(b.known) && b.known <= known && Gathered(b.samples).Keys <= SetOf(b.known))
  }

  ghost predicate Filed(h: History) {
    FiledBy(h.ended, h.era, h.r.known)
  }

  lemma OverFiled(h: History, end: End, known: seq<string>, era: nat)
    requires PendingExact(h) && Ordered(h) && Filed(h)
    requires h.r.known <= known && h.era <= era && (end == ClockStepped ==> h.era < era)
    requires end == Committed && h.r.acc.Some? ==> Distinct(known) && h.r.acc.value.Keys <= SetOf(known)
    ensures FiledBy(Over(h, end, known), era, known)
  {
    var ended := Over(h, end, known);
    hide Gathered;
    forall b | b in ended
      ensures b.minute >= 0 && (b.end == ClockStepped ==> b.era < era)
      ensures b.end == Committed ==> Distinct(b.known) && b.known <= known && Gathered(b.samples).Keys <= SetOf(b.known)
    {
      if b in h.ended {
        assert b.known <= h.r.known ==> b.known <= known;
      }
    }
  }

  lemma RecordFiled(h: History, at: int, smp: Sample, fate: Fate)
    requires RecorderRuns.Inv(h) && Filed(h) && Allowed(h, Record(at, smp, fate)) && Admits(h.r, at)
    ensures Filed(RecordNext(h, at, smp, fate))
  {
    KnownAfter(h.r, at, smp, fate);
    if StepsBack(h.r, at) {
      OverFiled(h, ClockStepped, h.r.known, h.era + 1);
    } else if Rolls(h.r, at) {
      PossibleKeys(h.r, fate);
      OverFiled(h, EndOf(fate), fate.known, h.era);
    }
    hide FiledBy, Recorded, Cleaned, SamplesOf, Over, PendingExact, Ordered, Fits;
  }

  lemma KnownAfter(r: Recorder, at: int, smp: Sample, fate: Fate)
    requires Admits(r, at)
    ensures Recorded(r, at, smp, fate).known == if Rolls(r, at) then fate.known else r.known
    ensures StepsBack(r, at) ==> !Rolls(r, at)
  {
    hide Cleaned, FoldedIn;
  }

  lemma PossibleKeys(r: Recorder, fate: Fate)
    requires Possible(r, fate)
    ensures Distinct(fate.known) && r.known <= fate.known && (fate.ok ==> PendingKeys(r) <= SetOf(fate.known))
  {
  }

  lemma FiledKeeps(h: History, input: Input)
    requires RecorderRuns.Inv(h) && Filed(h) && Allowed(h, input)
    ensures Filed(Next(h, input))
  {
    match input
    case Record(at, smp, fate) =>
      if Admits(h.r, at) {
        RecordFiled(h, at, smp, fate);
      }
    case Close(fate) =>
      if h.r.acc.Some? {
        PossibleKeys(h.r, fate);
        OverFiled(h, EndOf(fate), fate.known, h.era);
      }
    case Remove =>
  }

  // ---------------------------------------------------------------- minutes in increasing order

  /** No minute was lost to a clock step, and they ended in increasing order. */
  ghost predicate Rising(ended: seq<Batch>) {
    && (forall b :: b in ended ==> b.end != ClockStepped && b.minute >= 0 && OfMinute(b.samples, b.minute))
    && (forall i, j :: 0 <= i < j < |ended| ==> ended[i].minute < ended[j].minute)
  }

  lemma OneEraRises(h: History)
    requires RecorderRuns.Inv(h) && Filed(h) && h.era == 0
    ensures Rising(h.ended)
  {
    hide Gathered, SamplesOf, OfMinute, PendingExact, Fits;
    forall i, j | 0 <= i < j < |h.ended| ensures h.ended[i].minute < h.ended[j].minute {
      assert h.ended[i] in h.ended && h.ended[j] in h.ended;
    }
  }

  lemma RisingInit(ended: seq<Batch>)
    requires Rising(ended) && ended != []
    ensures var n := |ended| - 1;
      && Rising(ended[..n]) && ended[n].minute >= 0 && OfMinute(ended[n].samples, ended[n].minute)
      && forall b :: b in ended[..n] ==> b.minute < ended[n].minute
  {
    hide OfMinute;
    var n := |ended| - 1;
    assert ended[n] in ended && forall b :: b in ended[..n] ==> b in ended;
  }

  /** The commits of such a recorder that returned are an increasing log of exactly its committed minutes. */
  lemma {:induction false} LogIncreasing(ended: seq<Batch>)
    requires Rising(ended)
    ensures Increasing(LogOf(ended))
    ensures forall e :: e in LogOf(ended) <==> exists b :: b in ended && b.end == Committed && EntryFor(b) == e
  {
    if ended != [] {
      var n := |ended| - 1;
      var init, last := ended[..n], ended[n];
      RisingInit(ended);
      LogIncreasing(init);
      hide Rising, RowFor;
      assert forall b :: b in ended <==> b in init || b == last;
      forall k | 0 <= k < |LogOf(init)| ensures LogOf(init)[k].minute < last.minute {
        assert LogOf(init)[k] in LogOf(init);
      }
    }
  }

  // ---------------------------------------------------------------- minutes of samples

  /** The samples whose time is in minute x. */
  function SamplesIn(samples: seq<Accepted>, x: int): seq<Accepted> {
    if samples == [] then []
    else
      var n := |samples| - 1;
      SamplesIn(samples[..n], x) + if MinuteOf(samples[n].at) == x then [samples[n]] else []
  }

  lemma {:induction false} SamplesInBoth(a: seq<Accepted>, b: seq<Accepted>, x: int)
    ensures SamplesIn(a + b, x) == SamplesIn(a, x) + SamplesIn(b, x)
  {
    if b == [] {
      assert a + b == a;
    } else {
      SamplesInBoth(a, b[..|b| - 1], x);
      assert (a + b)[..|a + b| - 1] == a + b[..|b| - 1];
    }
  }

  lemma {:induction false} SamplesInOne(samples: seq<Accepted>, minute: int, x: int)
    requires forall s :: s in samples ==> MinuteOf(s.at) == minute
    ensures SamplesIn(samples, x) == if x == minute then samples else []
  {
    if samples != [] {
      var n := |samples| - 1;
      SamplesInOne(samples[..n], minute, x);
      assert samples[n] in samples;
      assert samples == samples[..n] + [samples[n]];
    }
  }

  /** In increasing minutes, the samples of minute x are those of its batch, if there is one. */
  lemma {:induction false} SamplesOfMinute(ended: seq<Batch>, x: int)
    requires Rising(ended)
    ensures forall b :: b in ended && b.minute == x ==> SamplesIn(SamplesOf(ended), x) == b.samples
    ensures (forall b :: b in ended ==> b.minute != x) ==> SamplesIn(SamplesOf(ended), x) == []
  {
    if ended != [] {
      var n := |ended| - 1;
      var init, last := ended[..n], ended[n];
      assert ended == init + [last];
      RisingInit(ended);
      SamplesOfMinute(init, x);
      SamplesInBoth(SamplesOf(init), last.samples, x);
      SamplesInOne(last.samples, last.minute, x);
      hide SamplesIn, SamplesOf, OfMinute, Rising;
    }
  }

  // ---------------------------------------------------------------- what the ring holds

  /** Mean, least and greatest of some values; a gap without any. */
  function StatsOf(vs: seq<real>): Cell {
    if vs == [] then None else Some(MinuteValue(Total(vs) / |vs| as real, Least(vs), Greatest(vs)))
  }

  /** What was recorded for a key in minute x. */
  function RecordedCell(samples: seq<Accepted>, x: int, key: string): Cell {
    StatsOf(ValuesOf(SamplesIn(samples, x), key))
  }

  /** The cell of a committed minute under the index its key has now. */
  lemma CellOfEntry(b: Batch, known: seq<string>, i: nat)
    requires Distinct(known) && b.known <= known && i < |known| && Gathered(b.samples).Keys <= SetOf(b.known)
    ensures CellOf(EntryFor(b), i) == StatsOf(ValuesOf(b.samples, known[i]))
  {
    SummaryExact(b.samples, known[i]);
    GatheredExact(b.samples, known[i]);
    hide Gathered, ValuesOf, Total, Least, Greatest;
    if i >= |b.known| {
      assert known[i] !in b.known;
    }
  }

  // ---------------------------------------------------------------- the ring against the history

  /** The last try to commit a minute of this slot. A minute lost to a clock step was never tried. */
  function LastTry(ended: seq<Batch>, slot: nat): Option<Batch> {
    if ended == [] then None
    else
      var n := |ended| - 1;
      if ended[n].end != ClockStepped && SlotOf(ended[n].minute) == slot then Some(ended[n]) else LastTry(ended[..n], slot)
  }

  lemma {:induction false} LastTryIn(ended: seq<Batch>, slot: nat)
    ensures LastTry(ended, slot).Some? ==>
      var b := LastTry(ended, slot).value; b in ended && b.end != ClockStepped && SlotOf(b.minute) == slot
  {
    if ended != [] {
      LastTryIn(ended[..|ended| - 1], slot);
    }
  }

  lemma LastTryNext(ended: seq<Batch>, b: Batch, slot: nat)
    ensures LastTry(ended + [b], slot) == if b.end != ClockStepped && SlotOf(b.minute) == slot then Some(b) else LastTry(ended, slot)
  {
    assert (ended + [b])[..|ended|] == ended;
  }

  /** begun are, in order, minutes of some of the batches whose commit was tried. */
  predicate Tried(begun: seq<nat>, ended: seq<Batch>) {
    begun == [] ||
    (ended != [] &&
     var n, m := |ended| - 1, |begun| - 1;
     || Tried(begun, ended[..n])
     || (ended[n].end != ClockStepped && begun[m] == ended[n].minute && Tried(begun[..m], ended[..n])))
  }

  lemma TriedNext(begun: seq<nat>, ended: seq<Batch>, b: Batch)
    requires Tried(begun, ended)
    ensures Tried(begun, ended + [b])
    ensures b.end != ClockStepped && b.minute >= 0 ==> Tried(begun + [b.minute], ended + [b])
  {
    assert (ended + [b])[..|ended|] == ended;
    if b.minute >= 0 {
      assert (begun + [b.minute as nat])[..|begun|] == begun;
    }
  }

  ghost predicate SameSlot(a: map<nat, Entry>, b: map<nat, Entry>, slot: nat) {
    (slot in a <==> slot in b) && (slot in a ==> a[slot] == b[slot])
  }

  /**
   * A slot no commit was tried for since the ring was in state start is as it
   * was; one whose last try returned holds that minute and shows nothing else.
   */
  ghost predicate SlotHolds(start: RingSafety.Ring, ended: seq<Batch>, ring: RingSafety.Ring, slot: nat) {
    match LastTry(ended, slot)
    case None => SameSlot(start.kept, ring.kept, slot) && (slot !in RingStamps.Unclean(start) ==> slot !in RingStamps.Unclean(ring))
    case Some(b) => b.end == Committed ==> slot !in RingStamps.Unclean(ring) && SameSlot(KeptWith(map[], EntryFor(b)), ring.kept, slot)
  }

  /** Whatever the ring keeps was there at the start or was committed since. */
  ghost predicate SlotFrom(start: RingSafety.Ring, ended: seq<Batch>, ring: RingSafety.Ring, slot: nat) {
    slot in ring.kept ==>
      SameSlot(start.kept, ring.kept, slot) || exists b :: b in ended && b.end == Committed && EntryFor(b) == ring.kept[slot]
  }

  /** The ring is what the history made of start. */
  ghost predicate Holds(start: RingSafety.Ring, ended: seq<Batch>, ring: RingSafety.Ring) {
    && start.begun <= ring.begun && Tried(ring.begun[|start.begun|..], ended)
    && forall slot: nat :: SlotHolds(start, ended, ring, slot) && SlotFrom(start, ended, ring, slot)
  }

  /** What the end of a minute may do to the ring. */
  ghost predicate EndsAs(b: Batch, before: RingSafety.Ring, after: RingSafety.Ring) {
    match b.end
    case Committed => b.minute >= 0 && RingFiles.Kept(before, after, EntryFor(b))
    case CommitFailed => RingFiles.SameBooks(before, after) || (b.minute >= 0 && RingFiles.Lost(before, after, b.minute))
    case ClockStepped => RingFiles.SameBooks(before, after)
  }

  lemma StartHolds(start: RingSafety.Ring)
    ensures Holds(start, [], start)
  {
    hide RingStamps.Unclean;
  }

  lemma SameHolds(start: RingSafety.Ring, ended: seq<Batch>, before: RingSafety.Ring, after: RingSafety.Ring)
    requires Holds(start, ended, before) && RingFiles.SameBooks(before, after)
    ensures Holds(start, ended, after)
  {
    hide LastTry, RingStamps.Unclean, EntryFor, Tried;
    forall slot: nat ensures SlotHolds(start, ended, after, slot) && SlotFrom(start, ended, after, slot) {
      assert SlotHolds(start, ended, before, slot) && SlotFrom(start, ended, before, slot);
    }
  }

  /** The end of one more minute. */
  lemma EndHolds(start: RingSafety.Ring, ended: seq<Batch>, before: RingSafety.Ring, after: RingSafety.Ring, b: Batch)
    requires Holds(start, ended, before) && EndsAs(b, before, after)
    ensures Holds(start, ended + [b], after)
  {
    EndTried(start, ended, before, after, b);
    hide LastTry, RingStamps.Unclean, Tried, RowFor;
    forall slot: nat ensures SlotHolds(start, ended + [b], after, slot) && SlotFrom(start, ended + [b], after, slot) {
      assert SlotHolds(start, ended, before, slot) && SlotFrom(start, ended, before, slot);
      LastTryNext(ended, b, slot);
      EndFrom(start, ended, before, after, b, slot);
    }
  }

  lemma EndFrom(start: RingSafety.Ring, ended: seq<Batch>, before: RingSafety.Ring, after: RingSafety.Ring, b: Batch, slot: nat)
    requires SlotFrom(start, ended, before, slot) && EndsAs(b, before, after)
    ensures SlotFrom(start, ended + [b], after, slot)
  {
    hide RingStamps.Unclean, EntryFor;
    EntryMinute(b);
    assert b in ended + [b] && forall x :: x in ended ==> x in ended + [b];
  }

  lemma EndTried(start: RingSafety.Ring, ended: seq<Batch>, before: RingSafety.Ring, after: RingSafety.Ring, b: Batch)
    requires Holds(start, ended, before) && EndsAs(b, before, after)
    ensures start.begun <= after.begun && Tried(after.begun[|start.begun|..], ended + [b])
  {
    hide RingStamps.Unclean, SlotHolds, RowFor;
    var begun := before.begun[|start.begun|..];
    TriedNext(begun, ended, b);
    assert after.begun[|start.begun|..] == begun || (b.minute >= 0 && after.begun[|start.begun|..] == begun + [b.minute]);
    hide Tried;
  }

  // ---------------------------------------------------------------- what the ring shows

  /** The slot can be read: its last commit returned, or there was none and it was clean at the start. */
  ghost predicate Readable(start: RingSafety.Ring, ended: seq<Batch>, slot: nat) {
    match LastTry(ended, slot)
    case None => slot !in RingStamps.Unclean(start)
    case Some(b) => b.end == Committed
  }

  /**
   * What was last recorded for a key at minute x: if the last minute committed
   * to its slot was x, the statistics of that batch; if none was, what the ring
   * held at the start.
   */
  function LastRecorded(start: map<nat, Entry>, ended: seq<Batch>, key: string, i: nat, x: int): Cell {
    match LastTry(ended, SlotOf(x))
    case None => KeptCell(start, i, x)
    case Some(b) => if b.minute == x then StatsOf(ValuesOf(b.samples, key)) else None
  }

  /**
   * After any run, clock steps and failed commits included, the ring holds at
   * every minute whose slot can be read exactly what was last recorded there.
   */
  lemma LastRecordedHeld(h: History, start: RingSafety.Ring, ring: RingSafety.Ring, i: nat, x: int)
    requires RecorderRuns.Inv(h) && Filed(h) && Holds(start, h.ended, ring) && i < |h.r.known|
    requires Readable(start, h.ended, SlotOf(x)) && x != 0
    ensures SlotOf(x) !in RingStamps.Unclean(ring)
    ensures KeptCell(ring.kept, i, x) == LastRecorded(start.kept, h.ended, h.r.known[i], i, x)
  {
    hide LastTry, RingStamps.Unclean, Tried, Ordered, PendingExact, SamplesOf, Gathered, ValuesOf, OfMinute, StatsOf, EntryFor, CellOf;
    assert SlotHolds(start, h.ended, ring, SlotOf(x));
    LastTryIn(h.ended, SlotOf(x));
    var try := LastTry(h.ended, SlotOf(x));
    if try.Some? {
      EntryMinute(try.value);
      CellOfEntry(try.value, h.r.known, i);
    }
  }

  lemma EntryMinute(b: Batch)
    ensures b.minute >= 0 ==> EntryFor(b).minute == b.minute
  {
  }

  /** In increasing minutes the last try of a slot within the last lap is the only one of its minute. */
  lemma {:induction false} LastTryOfMinute(ended: seq<Batch>, b: Batch)
    requires Rising(ended) && b in ended && b.minute > ended[|ended| - 1].minute - MINUTES
    ensures LastTry(ended, SlotOf(b.minute)) == Some(b)
  {
    var n := |ended| - 1;
    assert ended[n] in ended;
    if ended[n] != b {
      RisingInit(ended);
      assert ended == ended[..n] + [ended[n]];
      SameSlotApart(b.minute, ended[n].minute);
      assert ended[n - 1] in ended[..n];
      hide OfMinute, Rising;
      LastTryOfMinute(ended[..n], b);
    }
  }

  /**
   * While the clock does not step back, that is exactly what was recorded for
   * the key in minute x, for any minute of the last lap; a gap if there was none.
   */
  lemma LastIsRecorded(h: History, start: RingSafety.Ring, i: nat, x: int)
    requires RecorderRuns.Inv(h) && Filed(h) && h.era == 0 && i < |h.r.known|
    requires h.ended != [] ==> x > h.ended[|h.ended| - 1].minute - MINUTES
    requires Lookup(start.kept, x).None? || exists b :: b in h.ended && b.minute == x
    ensures LastRecorded(start.kept, h.ended, h.r.known[i], i, x) == RecordedCell(SamplesOf(h.ended), x, h.r.known[i])
  {
    OneEraRises(h);
    SamplesOfMinute(h.ended, x);
    LastTryIn(h.ended, SlotOf(x));
    hide RecorderRuns.Inv, SamplesOf, SamplesIn, OfMinute, LastTry, Rising, Filed, ValuesOf;
    if b :| b in h.ended && b.minute == x {
      LastTryOfMinute(h.ended, b);
    }
  }

  /** When no commit failed, a ring that held a log holds that log and the commits since, and shows nothing else. */
  lemma HoldsLog(start: RingSafety.Ring, before: seq<Entry>, ended: seq<Batch>, ring: RingSafety.Ring)
    requires Holds(start, ended, ring) && start.kept == MapAfter(before) && Clean(start)
    requires forall b :: b in ended ==> b.end != CommitFailed && b.minute >= 0
    ensures ring.kept == MapAfter(before + LogOf(ended)) && Clean(ring)
  {
    hide LastTry, RingStamps.Unclean, Tried, LogOf, MapAfter, EntryFor;
    var log := MapAfter(before + LogOf(ended));
    forall slot: nat
      ensures slot in ring.kept <==> slot in log
      ensures slot in log ==> ring.kept[slot] == log[slot]
      ensures slot !in RingStamps.Unclean(ring)
    {
      assert SlotHolds(start, ended, ring, slot);
      LastTryIn(ended, slot);
      LogAtSlot(before, ended, slot);
    }
  }

  lemma {:induction false} LogAtSlot(before: seq<Entry>, ended: seq<Batch>, slot: nat)
    requires forall b :: b in ended ==> b.end != CommitFailed && b.minute >= 0
    ensures match LastTry(ended, slot)
      case None => SameSlot(MapAfter(before), MapAfter(before + LogOf(ended)), slot)
      case Some(b) => SameSlot(KeptWith(map[], EntryFor(b)), MapAfter(before + LogOf(ended)), slot)
  {
    if ended == [] {
      assert before + LogOf(ended) == before;
    } else {
      var n := |ended| - 1;
      LogAtSlot(before, ended[..n], slot);
      var log := before + LogOf(ended[..n]);
      EntryMinute(ended[n]);
      assert ended[n] in ended;
      assert before + LogOf(ended) == log + if ended[n].end == Committed then [EntryFor(ended[n])] else [];
      assert (log + [EntryFor(ended[n])])[..|log|] == log && log + [] == log;
      hide EntryFor;
    }
  }
}

/** Readers beside an item's recorder: the recorder commits rising minutes while its clock does not step back, which is what readers rely on. */
module RecorderReads {
  import opened Types
  import opened RingProtocol
  import opened Recorders
  import opened RecorderRuns
  import opened RecorderLogs
  import Disk
  import RingSafety
  import RingRuns
  import RingMap
  import Seqlock
  import RisingWrites
  import Entries

  ghost predicate MinutesRise(ended: seq<Batch>) {
    forall i, j :: 0 <= i < j < |ended| ==> ended[i].minute < ended[j].minute
  }

  /** The minutes tried of batches in increasing order rise. */
  lemma {:induction false} TriedRises(begun: seq<nat>, ended: seq<Batch>)
    requires Tried(begun, ended) && MinutesRise(ended)
    ensures RisingWrites.Rises(begun)
    ensures forall m :: m in begun ==> exists b :: b in ended && b.minute == m
  {
    if begun != [] {
      var n, m := |ended| - 1, |begun| - 1;
      var init, last := ended[..n], ended[n];
      assert ended == init + [last] && begun == begun[..m] + [begun[m]];
      if Tried(begun, init) {
        TriedRises(begun, init);
      } else {
        TriedRises(begun[..m], init);
        forall x | x in begun[..m] ensures x < begun[m] {
          var b :| b in init && b.minute == x;
        }
        RisingWrites.AppendRises(begun[..m], begun[m]);
      }
    }
  }

  /** The minutes of one era rise. */
  lemma EraRises(known: seq<string>, inputs: seq<Input>, h: History, from: nat)
    requires Fits(Opened(known).r) && RecorderRuns.Exec(known, inputs) == Some(h) && from <= |h.ended|
    requires forall b :: b in h.ended[from..] ==> b.era == h.ended[from].era
    ensures MinutesRise(h.ended[from..])
  {
    hide RecorderRuns.Exec, Fits;
    var part := h.ended[from..];
    forall i, j | 0 <= i < j < |part| ensures part[i].minute < part[j].minute {
      MinutesIncrease(known, inputs, from + i, from + j);
      assert part[i] in part && part[j] in part;
    }
  }

  /**
   * Beside any run of a recorder, in any interleaving: if the commits begun on
   * the ring since it was in state r are, in order, minutes of one era of the
   * run, every cell a reader returns is that of one whole committed minute,
   * save for a minute the ring held at the start and the recorder committed
   * again. When the first of them is above everything the ring held, as after a
   * restart whose clock went on, there is no exception.
   */
  lemma RecorderNeverTears(known: seq<string>, inputs: seq<Input>, h: History, from: nat,
                           r: RingSafety.Ring, actions: seq<Seqlock.Action>, w: Seqlock.World, k: nat, i: nat, j: nat)
    requires Fits(Opened(known).r) && RecorderRuns.Exec(known, inputs) == Some(h) && from <= |h.ended|
    requires forall b :: b in h.ended[from..] ==> b.era == h.ended[from].era
    requires RingRuns.Inv(r) && Disk.Sane(r.file) && r.call.None? && Seqlock.Exec(r, actions) == Some(w)
    requires Tried(RisingWrites.Begun(r, w), h.ended[from..])
    requires k < |w.results| && i < w.results[k].series && j < w.results[k].n && 0 < w.results[k].from + j < STAMP_LIMIT
    ensures Seqlock.AllRead(w.results[k], i, j)
    ensures var m := w.results[k].from + j;
      Seqlock.IsWhole(w.commits, w.results[k], i, j)
      || (Disk.Visible(r.file).stamps[SlotOf(m)] == m && m in RisingWrites.Begun(r, w))
    ensures var begun := RisingWrites.Begun(r, w);
      (begun != [] ==> begun[0] > RingMap.Newest(Disk.Visible(r.file).stamps)) ==> Seqlock.IsWhole(w.commits, w.results[k], i, j)
  {
    EraRises(known, inputs, h, from);
    TriedNeverTears(h.ended[from..], r, actions, w, k, i, j);
  }

  lemma TriedNeverTears(ended: seq<Batch>, r: RingSafety.Ring, actions: seq<Seqlock.Action>, w: Seqlock.World, k: nat, i: nat, j: nat)
    requires MinutesRise(ended)
    requires RingRuns.Inv(r) && Disk.Sane(r.file) && r.call.None? && Seqlock.Exec(r, actions) == Some(w)
    requires Tried(RisingWrites.Begun(r, w), ended)
    requires k < |w.results| && i < w.results[k].series && j < w.results[k].n && 0 < w.results[k].from + j < STAMP_LIMIT
    ensures Seqlock.AllRead(w.results[k], i, j)
    ensures var m := w.results[k].from + j;
      Seqlock.IsWhole(w.commits, w.results[k], i, j)
      || (Disk.Visible(r.file).stamps[SlotOf(m)] == m && m in RisingWrites.Begun(r, w))
    ensures var begun := RisingWrites.Begun(r, w);
      (begun != [] ==> begun[0] > RingMap.Newest(Disk.Visible(r.file).stamps)) ==> Seqlock.IsWhole(w.commits, w.results[k], i, j)
  {
    var begun := RisingWrites.Begun(r, w);
    TriedRises(begun, ended);
    hide Seqlock.Exec, RingRuns.Inv, Disk.Visible, RisingWrites.Begun, Seqlock.IsWhole, Seqlock.AllRead, Tried;
    RisingWrites.TornOnlyIfKeptAgain(r, actions, k, i, j);
    if begun != [] && begun[0] > RingMap.Newest(Disk.Visible(r.file).stamps) {
      assert forall m :: m in begun ==> m >= begun[0];
      RisingWrites.RisingNeverTears(r, actions, k, i, j);
    }
  }

  /**
   * For the item itself: until its clock steps back, readers in any
   * interleaving with everything it did to its ring since it was opened return
   * whole minutes, with the same exception.
   */
  lemma ItemNeverTears(e: Entries.Entry, actions: seq<Seqlock.Action>, w: Seqlock.World, k: nat, i: nat, j: nat)
    requires e.Valid() && e.h.era == 0
    requires Seqlock.Exec(e.start, actions) == Some(w) && w.ring == e.ring.ring
    requires k < |w.results| && i < w.results[k].series && j < w.results[k].n && 0 < w.results[k].from + j < STAMP_LIMIT
    ensures Disk.Sane(e.start.file) && Seqlock.AllRead(w.results[k], i, j)
    ensures var m := w.results[k].from + j;
      Seqlock.IsWhole(w.commits, w.results[k], i, j)
      || (Disk.Visible(e.start.file).stamps[SlotOf(m)] == m && m in RisingWrites.Begun(e.start, w))
    ensures var begun := RisingWrites.Begun(e.start, w);
      (begun != [] ==> begun[0] > RingMap.Newest(Disk.Visible(e.start.file).stamps)) ==> Seqlock.IsWhole(w.commits, w.results[k], i, j)
  {
    hide RingRuns.Inv, Recorders.Fits, RecorderRuns.Inv, Filed, SlotHolds, Seqlock.Exec, Tried, Seqlock.AllRead, Seqlock.IsWhole;
    RingRuns.InvSane(e.start);
    OneEraRises(e.h);
    TriedNeverTears(e.h.ended, e.start, actions, w, k, i, j);
  }
}

/** A ring file refines a map from minutes to values: what a window returns, whatever wraps and whatever was overwritten. */
module RingMap {
  import opened Types
  import opened Disk
  import opened RingProtocol
  import opened RingSafety
  import opened RingSteps
  import opened RingRuns
  import opened RingStamps

  /** The map from slots to minutes after committing log in order. */
  function MapAfter(log: seq<Entry>): map<nat, Entry> {
    if log == [] then map[] else KeptWith(MapAfter(log[..|log| - 1]), log[|log| - 1])
  }

  /** log[k] is the last minute written to its slot. */
  ghost predicate LastOfSlot(log: seq<Entry>, k: nat) {
    k < |log| && forall l :: k < l < |log| ==> SlotOf(log[l].minute) != SlotOf(log[k].minute)
  }

  /** What the map holds for minute x: the entry last written to the slot of x, if it is for x. */
  function Lookup(m: map<nat, Entry>, x: int): Option<Entry> {
    if SlotOf(x) in m && m[SlotOf(x)].minute == x then Some(m[SlotOf(x)]) else None
  }

  /** The cell the map holds for series i at minute x. */
  function KeptCell(m: map<nat, Entry>, i: nat, x: int): Cell {
    match Lookup(m, x) case None => None case Some(e) => CellOf(e, i)
  }

  lemma {:induction false} MapAfterHolds(log: seq<Entry>, k: nat)
    requires LastOfSlot(log, k)
    ensures var slot := SlotOf(log[k].minute);
      if log[k].minute == 0 then slot !in MapAfter(log) else slot in MapAfter(log) && MapAfter(log)[slot] == log[k]
  {
    if k < |log| - 1 {
      MapAfterHolds(log[..|log| - 1], k);
    }
  }

  lemma {:induction false} MapAfterOnly(log: seq<Entry>, slot: nat)
    requires slot in MapAfter(log)
    ensures MapAfter(log)[slot].minute != 0
    ensures exists k: nat :: LastOfSlot(log, k) && log[k] == MapAfter(log)[slot] && SlotOf(log[k].minute) == slot
  {
    hide SlotOf;
    var last := |log| - 1;
    if SlotOf(log[last].minute) == slot {
      assert LastOfSlot(log, last);
    } else {
      MapAfterOnly(log[..last], slot);
      var k: nat :| LastOfSlot(log[..last], k) && log[..last][k] == MapAfter(log[..last])[slot] && SlotOf(log[..last][k].minute) == slot;
      assert LastOfSlot(log, k);
    }
  }

  /** A minute other than 0 is found exactly when it was the last one written to its slot, and as it was written. */
  lemma LookupIff(log: seq<Entry>, x: int, e: Entry)
    ensures Lookup(MapAfter(log), x) == Some(e) <==> x != 0 && exists k: nat :: LastOfSlot(log, k) && log[k] == e && e.minute == x
  {
    if Lookup(MapAfter(log), x) == Some(e) {
      MapAfterOnly(log, SlotOf(x));
    }
    if x != 0 && exists k: nat :: LastOfSlot(log, k) && log[k] == e && e.minute == x {
      var k: nat :| LastOfSlot(log, k) && log[k] == e && e.minute == x;
      MapAfterHolds(log, k);
    }
  }

  ghost predicate Increasing(log: seq<Entry>) {
    forall k, l :: 0 <= k < l < |log| ==> log[k].minute < log[l].minute
  }

  /** Under increasing commits every minute but 0 written among the last 10 080 is found, and no other of them is. */
  lemma RecentFound(log: seq<Entry>, x: int, e: Entry)
    requires log != [] && Increasing(log)
    requires log[|log| - 1].minute - MINUTES < x <= log[|log| - 1].minute
    ensures Lookup(MapAfter(log), x) == Some(e) <==> e in log && e.minute == x != 0
  {
    LookupIff(log, x, e);
    if e in log && e.minute == x {
      var k: nat :| k < |log| && log[k] == e;
      NotReused(log, k);
    }
  }

  lemma NotReused(log: seq<Entry>, k: nat)
    requires k < |log| && Increasing(log) && log[|log| - 1].minute - MINUTES < log[k].minute
    ensures LastOfSlot(log, k)
  {
    forall l | k < l < |log| ensures SlotOf(log[l].minute) != SlotOf(log[k].minute) {
      assert log[l].minute <= log[|log| - 1].minute;
      SameSlotApart(log[k].minute, log[l].minute);
    }
  }

  lemma MapBelowLast(log: seq<Entry>, slot: nat)
    requires log != [] && Increasing(log) && slot in MapAfter(log)
    ensures MapAfter(log)[slot].minute <= log[|log| - 1].minute
  {
    MapAfterOnly(log, slot);
    var k: nat :| LastOfSlot(log, k) && log[k] == MapAfter(log)[slot];
  }

  /** Two minutes of one slot are at least 10 080 apart. */
  lemma SameSlotApart(x: int, y: int)
    ensures x < y < x + MINUTES ==> SlotOf(x) != SlotOf(y)
  {
  }

  // ---------------------------------------------------------------- rings

  /** Every stamp in the file is of a commit that returned without error and was not overwritten since. */
  ghost predicate Clean(r: Ring) {
    Unclean(r) == {}
  }

  lemma VisibleSlot(r: Ring, slot: nat)
    requires Inv(r) && slot < MINUTES
    ensures ReadsWhole(Visible(r.file), slot, r.books, |r.hdr.keys|)
    ensures Visible(r.file).stamps[slot] < STAMP_LIMIT
  {
    VisibleMay(r.file);
    SafeReadsWhole(r.file, r.hdr, r.cur, r.books, r.tried, r.width, Visible(r.file), slot);
    assert MayStamp(r.file, slot, Visible(r.file).stamps[slot]);
    assert SlotSafe(r.file, slot, r.books, r.width);
  }

  lemma SeriesInFile(r: Ring, i: nat)
    requires Inv(r) && i < |r.hdr.keys|
    ensures ValueAt(i + 1, 0, 0) <= |Visible(r.file).vals|
  {
    assert ValueAt(i + 1, 0, 0) <= ValueAt(r.width, 0, 0);
  }

  /** A minute before 1970 is compared with a stamp no slot of its own can hold. */
  lemma NegativeNeverMatches(x: int, stamp: nat)
    requires -STAMP_LIMIT < x < 0 && 0 < stamp < STAMP_LIMIT && SlotOf(stamp) == SlotOf(x)
    ensures stamp != x % STAMP_LIMIT
  {
    assert x % STAMP_LIMIT == x + STAMP_LIMIT;
  }

  /**
   * Reading any minute other than minute 0, negative ones of a window at the
   * start of the epoch included: a slot without the traces of a failed commit
   * gives exactly what the map holds, cell for cell.
   */
  lemma ReadRefinesMap(r: Ring, i: nat, x: int)
    requires Inv(r) && SlotOf(x) !in Unclean(r) && i < |r.hdr.keys| && -STAMP_LIMIT < x < STAMP_LIMIT && x != 0
    ensures ValueAt(i + 1, 0, 0) <= |Visible(r.file).vals|
    ensures ReadCell(Visible(r.file), i, x) == KeptCell(r.kept, i, x)
  {
    var slot := SlotOf(x);
    var img := Visible(r.file);
    SeriesInFile(r, i);
    VisibleSlot(r, slot);
    hide Safe;
    if img.stamps[slot] != 0 {
      assert SeriesWhole(img, i, r.books[slot]);
      if x < 0 {
        NegativeNeverMatches(x, img.stamps[slot]);
      }
    }
  }

  /** Without that, a minute still reads back as a gap or as one whole minute that was written to its slot. */
  lemma ReadIsWhole(r: Ring, i: nat, x: int)
    requires Inv(r) && i < |r.hdr.keys| && -STAMP_LIMIT < x < STAMP_LIMIT && x != 0
    ensures ValueAt(i + 1, 0, 0) <= |Visible(r.file).vals|
    ensures ReadCell(Visible(r.file), i, x).Some? ==>
              Lookup(r.books, x).Some? && ReadCell(Visible(r.file), i, x) == CellOf(Lookup(r.books, x).value, i)
  {
    var slot := SlotOf(x);
    var img := Visible(r.file);
    SeriesInFile(r, i);
    VisibleSlot(r, slot);
    hide Safe;
    if img.stamps[slot] != 0 {
      assert SeriesWhole(img, i, r.books[slot]);
      if x < 0 {
        NegativeNeverMatches(x, img.stamps[slot]);
      }
    }
  }

  /** Minute 0 is the exception: its stamp is that of an empty slot, so it reads back whatever values lie there. */
  lemma MinuteZeroReadsRaw(img: Image, i: nat)
    requires WellFormed(img) && ValueAt(i + 1, 0, 0) <= |img.vals|
    ensures ReadCell(img, i, 0).Some? <==>
              img.stamps[0] == 0
              && img.vals[ValueAt(i, 0, 0)].Val? && img.vals[ValueAt(i, 1, 0)].Val? && img.vals[ValueAt(i, 2, 0)].Val?
  {
    ValueAtBound(i, 0);
  }

  /** The largest stamp. */
  function Newest(stamps: seq<nat>): (m: nat)
    ensures forall k :: 0 <= k < |stamps| ==> stamps[k] <= m
    ensures m == 0 || m in stamps
  {
    if stamps == [] then 0 else Max(Newest(stamps[..|stamps| - 1]), stamps[|stamps| - 1])
  }

  /** Under increasing commits the newest minute is the last commit. */
  lemma NewestIsLast(r: Ring, log: seq<Entry>)
    requires Inv(r) && Clean(r) && r.kept == MapAfter(log) && log != [] && Increasing(log)
    ensures Newest(Visible(r.file).stamps) == log[|log| - 1].minute
  {
    hide Inv, Visible;
    var last := |log| - 1;
    assert LastOfSlot(log, last);
    MapAfterHolds(log, last);
    var slot := SlotOf(log[last].minute);
    hide MapAfter, LastOfSlot, Increasing;
    forall s: nat | s in r.kept ensures r.kept[s].minute <= log[last].minute {
      MapBelowLast(log, s);
    }
    KeptStamps(r);
    var stamps := Visible(r.file).stamps;
    assert forall s: nat :: s < MINUTES && stamps[s] != 0 && s !in r.kept ==> s in Unclean(r);
    assert stamps[slot] == log[last].minute;
  }

  lemma KeptStamps(r: Ring)
    requires Inv(r)
    ensures Sane(r.file)
    ensures forall s :: s in r.kept ==> s < MINUTES && r.kept[s].minute != 0 && Visible(r.file).stamps[s] == r.kept[s].minute
  {
  }

  /** A process that stops without a power loss and opens the ring again finds the same map, and no slot is less clean. */
  lemma PlainRestart(r: Ring)
    requires Inv(r) && Sane(r.file)
    ensures RingRuns.Enabled(r, Crash(Visible(r.file)))
    ensures var r' := RingRuns.Next(r, Crash(Visible(r.file)));
            Visible(r'.file) == Visible(r.file) && r'.kept == r.kept && Unclean(r') == Unclean(r)
  {
    VisibleMay(r.file);
    SafeParses(r.file, r.hdr, r.cur, r.books, r.tried, r.width, Visible(r.file));
    KeptStamps(r);
    hide Inv, Safe, Parse;
    assert Surviving(r.kept, Visible(r.file)).Keys == r.kept.Keys;
    assert Visible(File(Visible(r.file), [])) == Visible(r.file);
  }
}

/**
 * Crash safety of a ring file over every run of calls, failures and power
 * losses: what every operation keeps, and what any crash image reads back as.
 */
module RingSafety {
  import opened Types
  import opened Disk
  import opened RingProtocol

  /**
   * A ring between two disk operations. call and done say how far the call in
   * progress got. The rest is bookkeeping of what was asked of the disk: by
   * slot, the last minute whose stamp was written (books), the last minute
   * committed and not yet being overwritten (kept), and the same once a sync
   * followed (firm); the headers tried since the current one, and the largest
   * series count among them (width); and the minute of every commit begun.
   */
  datatype Ring = Ring(
    file: File,
    hdr: Header,
    cur: nat,
    call: Option<Call>,
    done: nat,
    books: map<nat, Entry>,
    kept: map<nat, Entry>,
    firm: map<nat, Entry>,
    tried: seq<Header>,
    width: nat,
    begun: seq<nat>)

  // ---------------------------------------------------------------- the invariant between calls

  predicate GoodKeys(keys: seq<string>) {
    && |keys| <= MAX_SERIES
    && (forall i :: 0 <= i < |keys| ==> KeyInBounds(keys[i]))
    && (forall i, j :: 0 <= i < j < |keys| ==> keys[i] != keys[j])
  }

  predicate GoodHeader(h: Header) {
    1 <= |h.name| <= MAX_ITEM_LEN && GoodKeys(h.keys)
  }

  /** h is hdr with the forgotten time changed or one key added, numbered next. */
  predicate Succeeds(hdr: Header, h: Header) {
    && GoodHeader(h) && h.name == hdr.name && h.number == hdr.number + 1
    && (h.keys == hdr.keys || (|h.keys| == |hdr.keys| + 1 && h.keys[..|hdr.keys|] == hdr.keys))
  }

  /** The current copy is settled; the other one is torn, older, or one of the headers tried. */
  ghost predicate HeadersSafe(f: File, hdr: Header, cur: nat, tried: seq<Header>, width: nat)
    requires Sane(f)
  {
    && cur < 2 && GoodHeader(hdr)
    && |hdr.keys| <= width <= |hdr.keys| + 1
    && (forall c :: MayCopy(f, cur, c) ==> c == Decodes(hdr))
    && (forall c :: MayCopy(f, 1 - cur, c) && c.Decodes? ==> c.h.number < hdr.number || c.h in tried)
    && (forall h :: h in tried ==> Succeeds(hdr, h) && |h.keys| <= width)
  }

  /** Whatever the stamp of slot may be, it is 0 or the minute in the books, and then every word is that minute's. */
  ghost predicate SlotSafe(f: File, slot: nat, books: map<nat, Entry>, width: nat)
    requires Sane(f) && slot < MINUTES
  {
    forall v: nat :: MayStamp(f, slot, v) && v != 0 ==>
      slot in books && books[slot].minute == v < STAMP_LIMIT && SlotOf(v) == slot && RowSafe(f, slot, books[slot], width)
  }

  ghost predicate RowSafe(f: File, slot: nat, e: Entry, width: nat)
    requires Sane(f)
  {
    forall i: nat, c: nat, x :: i < width && c < 3 && MayValue(f, ValueAt(i, c, slot), x) ==> x == WordOf(CellOf(e, i), c)
  }

  /** A series that only a tried header may list holds nothing. */
  ghost predicate NewSeriesEmpty(f: File, from: nat, width: nat)
    requires Sane(f)
  {
    forall i: nat, c: nat, slot: nat, x :: from <= i < width && c < 3 && slot < MINUTES && MayValue(f, ValueAt(i, c, slot), x) ==> x == Absent
  }

  ghost predicate Safe(f: File, hdr: Header, cur: nat, books: map<nat, Entry>, tried: seq<Header>, width: nat) {
    && Sane(f)
    && HeadersSafe(f, hdr, cur, tried, width)
    && ValueAt(width, 0, 0) <= |f.durable.vals|
    && (forall slot :: 0 <= slot < MINUTES ==> SlotSafe(f, slot, books, width))
    && NewSeriesEmpty(f, |hdr.keys|, width)
  }

  /** Safety speaks only of what may be read back, so whatever narrows that keeps it. */
  lemma NarrowsKeepsSafe(f: File, g: File, hdr: Header, cur: nat, books: map<nat, Entry>, tried: seq<Header>, width: nat)
    requires Safe(f, hdr, cur, books, tried, width) && Sane(g) && Narrows(f, g)
    ensures Safe(g, hdr, cur, books, tried, width)
  {
    assert HeadersSafe(g, hdr, cur, tried, width);
    forall slot | 0 <= slot < MINUTES ensures SlotSafe(g, slot, books, width) {
      assert SlotSafe(f, slot, books, width);
    }
  }

  // ---------------------------------------------------------------- recovery

  /** Series i reads back as e has it. */
  ghost predicate SeriesWhole(img: Image, i: nat, e: Entry)
    requires WellFormed(img)
  {
    ValueAt(i + 1, 0, 0) <= |img.vals| && ReadCell(img, i, e.minute) == CellOf(e, i)
  }

  /** The slot reads back as nothing or as the whole of the minute in the books. */
  ghost predicate ReadsWhole(img: Image, slot: nat, books: map<nat, Entry>, width: nat)
    requires WellFormed(img) && slot < MINUTES
  {
    img.stamps[slot] != 0 ==>
      && slot in books && books[slot].minute == img.stamps[slot] && SlotOf(img.stamps[slot]) == slot
      && forall i: nat :: i < width ==> SeriesWhole(img, i, books[slot])
  }

  lemma RowReadsWhole(f: File, img: Image, slot: nat, e: Entry, width: nat, i: nat)
    requires Sane(f) && CrashImage(f, img) && slot < MINUTES && SlotOf(e.minute) == slot && img.stamps[slot] == e.minute < STAMP_LIMIT
    requires RowSafe(f, slot, e, width) && i < width && ValueAt(width, 0, 0) <= |img.vals|
    ensures SeriesWhole(img, i, e)
  {
    ValueAtBound(i, slot);
    assert ValueAt(i + 1, 0, 0) <= ValueAt(width, 0, 0);
    var a, lo, hi := ValueAt(i, 0, slot), ValueAt(i, 1, slot), ValueAt(i, 2, slot);
    assert MayValue(f, a, img.vals[a]) && MayValue(f, lo, img.vals[lo]) && MayValue(f, hi, img.vals[hi]);
    assert img.vals[a] == WordOf(CellOf(e, i), 0);
    assert img.vals[lo] == WordOf(CellOf(e, i), 1);
    assert img.vals[hi] == WordOf(CellOf(e, i), 2);
  }

  lemma SafeReadsWhole(f: File, hdr: Header, cur: nat, books: map<nat, Entry>, tried: seq<Header>, width: nat, img: Image, slot: nat)
    requires Safe(f, hdr, cur, books, tried, width) && CrashImage(f, img) && slot < MINUTES
    ensures ReadsWhole(img, slot, books, width)
  {
    if img.stamps[slot] != 0 {
      assert MayStamp(f, slot, img.stamps[slot]);
      assert SlotSafe(f, slot, books, width);
      forall i: nat | i < width ensures SeriesWhole(img, i, books[slot]) {
        RowReadsWhole(f, img, slot, books[slot], width, i);
      }
    }
  }

  /** After any crash the file parses, to the header before or after the one in flight, and stays safe. */
  lemma SafeParses(f: File, hdr: Header, cur: nat, books: map<nat, Entry>, tried: seq<Header>, width: nat, img: Image)
    requires Safe(f, hdr, cur, books, tried, width) && CrashImage(f, img)
    ensures Parse(img).Some?
    ensures var (h, c) := Parse(img).value;
      && (h == hdr || h in tried)
      && |h.keys| <= width
      && Safe(File(img, []), h, c, books, [], |h.keys|)
  {
    CrashNarrows(f, img);
    var g := File(img, []);
    NarrowsKeepsSafe(f, g, hdr, cur, books, tried, width);
    assert MayCopy(g, 0, img.copies[0]) && MayCopy(g, 1, img.copies[1]);
    var other := img.copies[1 - cur];
    assert img.copies[cur] == Decodes(hdr);
    if other.Decodes? && other.h.number > hdr.number {
      assert other.h in tried;
      Adopts(g, hdr, cur, books, tried, width, other.h);
    } else {
      Stays(g, hdr, cur, books, tried, width);
    }
  }

  /** Reopening on the other copy: a tried header becomes the current one. */
  lemma Adopts(g: File, hdr: Header, cur: nat, books: map<nat, Entry>, tried: seq<Header>, width: nat, h: Header)
    requires Safe(g, hdr, cur, books, tried, width) && h in tried && g.pending == [] && g.durable.copies[1 - cur] == Decodes(h)
    ensures Safe(g, h, 1 - cur, books, [], |h.keys|)
  {
    NarrowerSafe(g, books, width, |h.keys|);
    assert HeadersSafe(g, h, 1 - cur, [], |h.keys|) by {
      assert MayCopy(g, cur, g.durable.copies[cur]);
    }
  }

  /** Reopening on the same copy: every tried header is gone. */
  lemma Stays(g: File, hdr: Header, cur: nat, books: map<nat, Entry>, tried: seq<Header>, width: nat)
    requires Safe(g, hdr, cur, books, tried, width) && g.pending == []
    requires var other := g.durable.copies[1 - cur]; other.Torn? || other.h.number <= hdr.number
    ensures Safe(g, hdr, cur, books, [], |hdr.keys|)
  {
    NarrowerSafe(g, books, width, |hdr.keys|);
  }

  lemma NarrowerSafe(g: File, books: map<nat, Entry>, width: nat, less: nat)
    requires Sane(g) && less <= width && ValueAt(width, 0, 0) <= |g.durable.vals|
    requires forall slot :: 0 <= slot < MINUTES ==> SlotSafe(g, slot, books, width)
    ensures ValueAt(less, 0, 0) <= |g.durable.vals|
    ensures forall slot :: 0 <= slot < MINUTES ==> SlotSafe(g, slot, books, less)
  {
    forall slot | 0 <= slot < MINUTES ensures SlotSafe(g, slot, books, less) {
      assert SlotSafe(g, slot, books, width);
    }
  }
}

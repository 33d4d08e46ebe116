/** What each disk operation of a call does to the safety of a ring, whether it succeeds or fails. */
module RingSteps {
  import opened Types
  import opened Disk
  import opened RingProtocol
  import opened RingSafety

  // ---------------------------------------------------------------- progress of the call in hand

  ghost predicate OnlyZero(f: File, slot: nat)
    requires Sane(f) && slot < MINUTES
  {
    forall v: nat :: MayStamp(f, slot, v) ==> v == 0
  }

  /** The first k value words of the row are written. */
  ghost predicate Laid(f: File, slot: nat, row: seq<Cell>, k: nat)
    requires Sane(f) && k <= 3 * |row|
  {
    forall q: nat :: q < k ==> Holds(f, ValueAt(q / 3, q % 3, slot), WordOf(row[q / 3], q % 3))
  }

  ghost predicate Holds(f: File, at: nat, x: Num)
    requires Sane(f)
  {
    at < |Visible(f).vals| && Visible(f).vals[at] == x
  }

  ghost predicate CommitProgress(f: File, e: Entry, done: nat, width: nat)
    requires Sane(f)
  {
    var slot := SlotOf(e.minute);
    && done < 3 * |e.row| + 4
    && (done == 1 ==> Visible(f).stamps[slot] == 0)
    && (done >= 2 ==> OnlyZero(f, slot))
    && (done >= 2 ==> Laid(f, slot, e.row, Min(done - 2, 3 * |e.row|)))
    && (done == 3 * |e.row| + 3 ==> RowSafe(f, slot, e, width))
  }

  ghost predicate BlockLaid(f: File, n: nat)
    requires Sane(f)
  {
    forall w: nat :: ValueAt(n, 0, 0) <= w < ValueAt(n + 1, 0, 0) ==> Holds(f, w, Absent)
  }

  ghost predicate SeriesProgress(f: File, n: nat, done: nat)
    requires Sane(f)
  {
    && done < 4
    && (done == 1 ==> BlockLaid(f, n))
    && (done >= 2 ==> NewSeriesEmpty(f, n, n + 1) && ValueAt(n + 1, 0, 0) <= |f.durable.vals|)
  }

  ghost predicate HeaderWritten(f: File, copy: nat, h: Header, tried: seq<Header>)
    requires Sane(f) && copy < 2
  {
    h in tried && Visible(f).copies[copy] == Decodes(h)
  }

  // ---------------------------------------------------------------- writes that are not headers

  /** Writing words that agree with what the books allow keeps safety. */
  lemma ValuesKeepSafe(f: File, ws: seq<Write>, hdr: Header, cur: nat, books: map<nat, Entry>, tried: seq<Header>, width: nat)
    requires Safe(f, hdr, cur, books, tried, width)
    requires forall i :: 0 <= i < |ws| ==> ws[i].ValueW?
    requires forall slot: nat, i: nat, c: nat, x :: slot < MINUTES && i < width && c < 3 && ValueW(ValueAt(i, c, slot), x) in ws ==>
               OnlyZero(f, slot) || (slot in books && x == WordOf(CellOf(books[slot], i), c))
    requires forall slot: nat, i: nat, c: nat, x :: slot < MINUTES && |hdr.keys| <= i < width && c < 3 && ValueW(ValueAt(i, c, slot), x) in ws ==> x == Absent
    ensures AllInRange(ws) && Safe(Issued(f, ws), hdr, cur, books, tried, width)
  {
    IssuedMay(f, ws);
    var g := Issued(f, ws);
    assert HeadersSafe(g, hdr, cur, tried, width);
    forall slot | 0 <= slot < MINUTES ensures SlotSafe(g, slot, books, width) {
      assert SlotSafe(f, slot, books, width);
    }
  }

  /** Zeroing a stamp is always safe. */
  lemma ZeroKeepsSafe(f: File, ws: seq<Write>, slot: nat, hdr: Header, cur: nat, books: map<nat, Entry>, tried: seq<Header>, width: nat)
    requires Safe(f, hdr, cur, books, tried, width) && slot < MINUTES
    requires forall i :: 0 <= i < |ws| ==> ws[i] == StampW(slot, 0)
    ensures AllInRange(ws) && Safe(Issued(f, ws), hdr, cur, books, tried, width)
  {
    IssuedMay(f, ws);
    var g := Issued(f, ws);
    assert HeadersSafe(g, hdr, cur, tried, width);
    forall s | 0 <= s < MINUTES ensures SlotSafe(g, s, books, width) {
      assert SlotSafe(f, s, books, width);
    }
  }

  /** Stamping a zeroed slot whose words are all those of the minute is safe once the minute is in the books. */
  lemma StampKeepsSafe(f: File, ws: seq<Write>, e: Entry, hdr: Header, cur: nat, books: map<nat, Entry>, tried: seq<Header>, width: nat)
    requires Safe(f, hdr, cur, books, tried, width)
    requires OnlyZero(f, SlotOf(e.minute)) && RowSafe(f, SlotOf(e.minute), e, width) && e.minute < STAMP_LIMIT
    requires forall i :: 0 <= i < |ws| ==> ws[i] == StampW(SlotOf(e.minute), e.minute)
    ensures AllInRange(ws) && Safe(Issued(f, ws), hdr, cur, books[SlotOf(e.minute) := e], tried, width)
  {
    var slot := SlotOf(e.minute);
    IssuedMay(f, ws);
    var g := Issued(f, ws);
    assert HeadersSafe(g, hdr, cur, tried, width);
    var books' := books[slot := e];
    forall s | 0 <= s < MINUTES ensures SlotSafe(g, s, books', width) {
      assert SlotSafe(f, s, books, width);
    }
  }

  // ---------------------------------------------------------------- headers

  lemma WiderSafe(f: File, hdr: Header, cur: nat, books: map<nat, Entry>, tried: seq<Header>, width: nat)
    requires Safe(f, hdr, cur, books, tried, width) && width == |hdr.keys|
    requires NewSeriesEmpty(f, width, width + 1) && ValueAt(width + 1, 0, 0) <= |f.durable.vals|
    requires BooksFit(books, width)
    ensures Safe(f, hdr, cur, books, tried, width + 1)
  {
    var wider := width + 1;
    forall slot | 0 <= slot < MINUTES ensures SlotSafe(f, slot, books, wider) {
      assert SlotSafe(f, slot, books, width);
    }
  }

  /** No minute in the books holds a series the current header lacks. */
  ghost predicate BooksFit(books: map<nat, Entry>, n: nat) {
    forall s :: s in books ==> |books[s].row| <= n
  }

  /** Writing a header that may follow the current one, whole or torn, into the other copy. */
  lemma HeaderKeepsSafe(f: File, parts: seq<Write>, h: Header, hdr: Header, cur: nat, books: map<nat, Entry>, tried: seq<Header>, width: nat)
    requires Safe(f, hdr, cur, books, tried, width) && Succeeds(hdr, h) && |h.keys| <= width
    requires Failed(f, WriteHeader(1 - cur, h), parts)
    ensures AllInRange(parts) && Safe(Issued(f, parts), hdr, cur, books, tried + [h], width)
  {
    IssuedMay(f, parts);
    var g := Issued(f, parts);
    assert HeadersSafe(g, hdr, cur, tried + [h], width);
    forall slot | 0 <= slot < MINUTES ensures SlotSafe(g, slot, books, width) {
      assert SlotSafe(f, slot, books, width);
    }
  }

  /** Once synced, the header written last in the other copy is the only one there. */
  lemma HeaderSettles(f: File, hdr: Header, cur: nat, books: map<nat, Entry>, tried: seq<Header>, width: nat, h: Header)
    requires Safe(f, hdr, cur, books, tried, width) && HeaderWritten(f, 1 - cur, h, tried)
    ensures Safe(Synced(f), h, 1 - cur, books, [], |h.keys|)
  {
    SyncNarrows(f);
    NarrowsKeepsSafe(f, Synced(f), hdr, cur, books, tried, width);
    Adopts(Synced(f), hdr, cur, books, tried, width, h);
  }

  // ---------------------------------------------------------------- what is visible after a write

  lemma VisibleAfter(f: File, w: Write)
    requires Sane(f) && InRange(w)
    ensures Sane(Issued(f, [w])) && Visible(Issued(f, [w])) == Written(Visible(f), w)
  {
    IssuedVisible(f, [w]);
    assert [w][..0] == [];
    assert WrittenAll(Visible(f), []) == Visible(f);
  }

  lemma {:induction false} BlockWritten(img: Image, at: nat, count: nat)
    requires WellFormed(img) && at <= |img.vals|
    ensures AllInRange(BlockWrites(at, count))
    ensures var res := WrittenAll(img, BlockWrites(at, count));
      && |res.vals| >= at + count && |res.vals| >= |img.vals|
      && res.stamps == img.stamps && res.copies == img.copies
      && (forall w: nat :: at <= w < at + count ==> res.vals[w] == Absent)
      && (forall w: nat :: w < at ==> res.vals[w] == img.vals[w])
  {
    var ws := BlockWrites(at, count);
    if count > 0 {
      BlockWritten(img, at, count - 1);
      assert ws[..|ws| - 1] == BlockWrites(at, count - 1);
    }
  }

  /** A word laid before stays laid when another word is written. */
  lemma LaidStays(f: File, slot: nat, row: seq<Cell>, k: nat)
    requires Sane(f) && slot < MINUTES && k < 3 * |row| && Laid(f, slot, row, k)
    ensures var g := Issued(f, [ValueW(ValueAt(k / 3, k % 3, slot), WordOf(row[k / 3], k % 3))]);
      Sane(g) && Laid(g, slot, row, k + 1)
  {
    var w := ValueW(ValueAt(k / 3, k % 3, slot), WordOf(row[k / 3], k % 3));
    VisibleAfter(f, w);
    var g := Issued(f, [w]);
    forall q: nat | q < k + 1 ensures Holds(g, ValueAt(q / 3, q % 3, slot), WordOf(row[q / 3], q % 3)) {
      if q < k {
        assert Holds(f, ValueAt(q / 3, q % 3, slot), WordOf(row[q / 3], q % 3));
      }
    }
  }

  /** A fully laid row is settled by a sync. */
  lemma LaidSettles(f: File, e: Entry, width: nat, n: nat)
    requires Sane(f) && |e.row| == n && Laid(f, SlotOf(e.minute), e.row, 3 * n)
    requires NewSeriesEmpty(f, n, width)
    ensures Sane(Synced(f)) && RowSafe(Synced(f), SlotOf(e.minute), e, width)
  {
    SyncNarrows(f);
    var g := Synced(f);
    var slot := SlotOf(e.minute);
    forall i: nat, c: nat, x | i < width && c < 3 && MayValue(g, ValueAt(i, c, slot), x) ensures x == WordOf(CellOf(e, i), c) {
      if i < n {
        var q := 3 * i + c;
        assert q / 3 == i && q % 3 == c;
        assert Holds(f, ValueAt(q / 3, q % 3, slot), WordOf(e.row[q / 3], q % 3));
      } else {
        assert MayValue(f, ValueAt(i, c, slot), x);
      }
    }
  }

  lemma BlockSettles(f: File, n: nat)
    requires Sane(f) && BlockLaid(f, n)
    ensures Sane(Synced(f)) && NewSeriesEmpty(Synced(f), n, n + 1) && ValueAt(n + 1, 0, 0) <= |Synced(f).durable.vals|
  {
    var g := Synced(f);
    assert Holds(f, ValueAt(n + 1, 0, 0) - 1, Absent);
    forall i: nat, c: nat, slot: nat, x | n <= i < n + 1 && c < 3 && slot < MINUTES && MayValue(g, ValueAt(i, c, slot), x) ensures x == Absent {
      assert Holds(f, ValueAt(n, c, slot), Absent);
    }
  }
}

/** What the evaluator reads from an item's ring when the service starts again, in terms of the minutes that were committed. */
module Histories {
  import opened Types
  import opened RingProtocol
  import opened RingMap
  import Disk
  import RingSafety
  import RingRuns
  import RingStamps
  import RingFiles
  import Rules
  import AlertModel
  import AlertRuns
  import Queries
  import ItemQueries
  import RecorderRuns
  import RecorderLogs
  import Entries

  /** The series the evaluator judges are "alert/cpu_high" and "alert/mem_high", which no query lists. */
  lemma AlertSeriesHidden(pts: seq<Queries.Point>)
    ensures AlertModel.SeriesOf(Rules.CPU) == "alert/cpu_high" && AlertModel.SeriesOf(Rules.MEM) == "alert/mem_high"
    ensures forall key :: Rules.KnownKey(key) ==> !ItemQueries.Listed(AlertModel.SeriesOf(key), pts)
  {
    ItemQueries.ListedIff(AlertModel.SeriesOf(Rules.CPU), pts);
    ItemQueries.ListedIff(AlertModel.SeriesOf(Rules.MEM), pts);
  }

  /** row is the committed minute e of a ring with these keys. */
  ghost predicate IsRow(row: AlertRuns.Row, e: Entry, keys: seq<string>) {
    && (forall k :: k in row ==> k in keys)
    && forall i: nat :: i < |keys| ==> CellOf(e, i) == if keys[i] in row then Some(row[keys[i]]) else None
  }

  /** rows are the minutes of log, which follow each other without a gap up to newest. */
  ghost predicate AreRows(rows: seq<AlertRuns.Row>, log: seq<Entry>, keys: seq<string>, newest: nat) {
    && |rows| == |log| > 0
    && forall j: nat :: j < |log| ==> log[j].minute == newest - (|log| - 1 - j) && IsRow(rows[j], log[j], keys)
  }

  lemma RowsIncrease(rows: seq<AlertRuns.Row>, log: seq<Entry>, keys: seq<string>, newest: nat)
    requires AreRows(rows, log, keys, newest)
    ensures log != [] && Increasing(log) && log[|log| - 1].minute == newest
  {
    hide IsRow;
  }

  /** At each of the last 10 080 minutes but minute 0 the map of the log holds the row of that minute. */
  lemma RowKept(rows: seq<AlertRuns.Row>, log: seq<Entry>, keys: seq<string>, newest: nat, i: nat, x: int)
    requires AreRows(rows, log, keys, newest) && i < |keys| && newest - MINUTES < x <= newest && x != 0
    ensures KeptCell(MapAfter(log), i, x) == AlertRuns.CellAt(rows, keys[i], |rows| - 1 - (newest - x))
  {
    hide MapAfter, Lookup, CellOf;
    RowsIncrease(rows, log, keys, newest);
    var j := |rows| - 1 - (newest - x);
    if j >= 0 {
      assert log[j].minute == x && log[j] in log && IsRow(rows[j], log[j], keys);
      RecentFound(log, x, log[j]);
    } else {
      var found := Lookup(MapAfter(log), x);
      LookupIff(log, x, if found.Some? then found.value else log[0]);
      assert forall k: nat :: k < |log| ==> log[k].minute != x;
    }
  }

  /** hist is what RecentMinutes answers for the 120 minutes up to newest. */
  ghost predicate IsRead(ring: RingFiles.RingFile, newest: nat, hist: map<string, seq<Cell>>)
    reads ring, ring.file
  {
    && (forall k :: k in hist <==> k in ring.keys)
    && forall i: nat :: i < |ring.keys| ==> ring.ShowsSeries(i, newest - Rules.MAX_RUN + 1, Rules.MAX_RUN, hist[ring.keys[i]])
  }

  /** The history a recount reads from a ring that holds the log of the minutes rows shows rows. */
  lemma ReadShowsRows(ring: RingFiles.RingFile, rows: seq<AlertRuns.Row>, log: seq<Entry>, newest: nat, hist: map<string, seq<Cell>>)
    requires ring.Valid() && Clean(ring.ring) && ring.ring.kept == MapAfter(log) && AreRows(rows, log, ring.keys, newest)
    requires Rules.MAX_RUN <= newest < STAMP_LIMIT && IsRead(ring, newest, hist)
    ensures AlertRuns.Shows(hist, rows)
  {
    hide RingFiles.RingFile.Valid, AreRows, MapAfter, RingStamps.Unclean, AlertModel.SeriesOf, RingFiles.RingFile.ShowsSeries;
    forall key | Rules.KnownKey(key)
      ensures AlertModel.HistoryOf(hist, key) == AlertRuns.LastCells(rows, AlertModel.SeriesOf(key), Rules.MAX_RUN)
        || (AlertModel.HistoryOf(hist, key) == [] && forall j :: 0 <= j < |rows| ==> AlertModel.SeriesOf(key) !in rows[j])
    {
      if AlertModel.SeriesOf(key) in ring.keys {
        var i: nat :| i < |ring.keys| && ring.keys[i] == AlertModel.SeriesOf(key);
        SeriesShowsRows(ring, rows, log, newest, i, hist[ring.keys[i]]);
      } else {
        NoRowHolds(rows, log, ring.keys, newest, AlertModel.SeriesOf(key));
      }
    }
  }

  lemma NoRowHolds(rows: seq<AlertRuns.Row>, log: seq<Entry>, keys: seq<string>, newest: nat, key: string)
    requires AreRows(rows, log, keys, newest) && key !in keys
    ensures forall j :: 0 <= j < |rows| ==> key !in rows[j]
  {
    forall j | 0 <= j < |rows| ensures key !in rows[j] {
      assert IsRow(rows[j], log[j], keys);
    }
  }

  lemma SeriesShowsRows(ring: RingFiles.RingFile, rows: seq<AlertRuns.Row>, log: seq<Entry>, newest: nat, i: nat, cells: seq<Cell>)
    requires ring.Valid() && Clean(ring.ring) && ring.ring.kept == MapAfter(log) && AreRows(rows, log, ring.keys, newest)
    requires Rules.MAX_RUN <= newest < STAMP_LIMIT && i < |ring.keys|
    requires ring.ShowsSeries(i, newest - Rules.MAX_RUN + 1, Rules.MAX_RUN, cells)
    ensures cells == AlertRuns.LastCells(rows, ring.keys[i], Rules.MAX_RUN)
  {
    hide RingFiles.RingFile.Valid, AreRows, MapAfter, RingStamps.Unclean, ReadCell, Disk.Visible, KeptCell, AlertRuns.CellAt;
    var from, last := newest - Rules.MAX_RUN + 1, AlertRuns.LastCells(rows, ring.keys[i], Rules.MAX_RUN);
    forall j: nat | j < Rules.MAX_RUN ensures cells[j] == last[j] {
      ItemQueries.KeptReads(ring, i, from + j);
      RowKept(rows, log, ring.keys, newest, i, from + j);
      assert |rows| - 1 - (newest - (from + j)) == |rows| - Rules.MAX_RUN + j;
    }
  }

  /** again is the ring file r left, opened without a power loss in between. */
  ghost predicate Reopened(r: RingSafety.Ring, again: RingFiles.RingFile)
    reads again, again.file
  {
    && again.Valid() && RingRuns.Inv(r) && Disk.Sane(r.file)
    && RingRuns.Enabled(r, RingRuns.Crash(Disk.Visible(r.file)))
    && again.ring == RingRuns.Next(r, RingRuns.Crash(Disk.Visible(r.file)))
  }

  /** The next start begins with the log this one leaves. */
  lemma NextSession(e: Entries.Entry, before: seq<Entry>, again: RingFiles.RingFile)
    requires e.Valid() && ItemQueries.Logged(e, before) && Reopened(e.ring.ring, again)
    ensures again.ring.kept == MapAfter(before + RecorderLogs.LogOf(e.h.ended)) && Clean(again.ring)
  {
    hide e.Valid, RingRuns.Inv, RingRuns.Next, RingStamps.Unclean, Disk.Visible, MapAfter, RecorderLogs.LogOf;
    ItemQueries.RingHoldsLog(e, before);
    PlainRestart(e.ring.ring);
  }

  /**
   * When the service stops and opens the ring again, what RecentMinutes answers
   * is the newest of the item's minutes and shows them, if no commit failed and
   * they follow each other without a gap: across any number of earlier restarts
   * (before is what those left in the ring), which is what makes a restart
   * invisible (AlertRuns.RestartsInvisible).
   */
  lemma ReopenedShowsRows(e: Entries.Entry, before: seq<Entry>, again: RingFiles.RingFile,
                          rows: seq<AlertRuns.Row>, newest: nat, hist: map<string, seq<Cell>>)
    requires e.Valid() && ItemQueries.Logged(e, before) && Reopened(e.ring.ring, again)
    requires AreRows(rows, before + RecorderLogs.LogOf(e.h.ended), again.keys, newest)
    requires Rules.MAX_RUN <= newest < STAMP_LIMIT && IsRead(again, newest, hist)
    ensures Disk.Sane(again.file.state) && Newest(Disk.Visible(again.file.state).stamps) == newest
    ensures AlertRuns.Shows(hist, rows)
  {
    hide e.Valid, RingRuns.Inv, RingRuns.Next, RingStamps.Unclean, Disk.Visible, MapAfter, Newest, AreRows, IsRead, RecorderLogs.LogOf;
    var log := before + RecorderLogs.LogOf(e.h.ended);
    NextSession(e, before, again);
    ItemQueries.SaneRing(again);
    RowsIncrease(rows, log, again.keys, newest);
    NewestIsLast(again.ring, log);
    ReadShowsRows(again, rows, log, newest, hist);
  }

  /** So the recount at such a start, within 2 minutes of the newest minute, emits nothing and keeps the alerts the item had. */
  lemma RestartFromRing(e: Entries.Entry, before: seq<Entry>, again: RingFiles.RingFile, item: string, st: AlertModel.ItemState,
                        rows: seq<AlertRuns.Row>, newest: nat, hist: map<string, seq<Cell>>, now: int)
    requires e.Valid() && ItemQueries.Logged(e, before) && Reopened(e.ring.ring, again)
    requires AreRows(rows, before + RecorderLogs.LogOf(e.h.ended), again.keys, newest)
    requires Rules.MAX_RUN <= newest < STAMP_LIMIT && IsRead(again, newest, hist)
    requires AlertRuns.ItemAgrees(st, rows, newest) && AlertRuns.UpToDate(newest, now)
    ensures var (after, events) := AlertModel.Reconcile(item, st, AlertModel.Recent(newest, hist), now);
            events == [] && AlertRuns.SameAlerts(st, after) && AlertRuns.ItemAgrees(after, rows, newest)
  {
    ReopenedShowsRows(e, before, again, rows, newest, hist);
    hide AlertModel.Reconcile, AlertRuns.Shows, AlertRuns.ItemAgrees, AreRows, IsRead, RecorderLogs.LogOf, e.Valid, Reopened;
    AlertRuns.RestartAgrees(item, st, rows, newest, hist, now);
  }
}

/** Every run of a ring file: calls, operations that succeed or fail, power losses and restarts, in any order. */
module RingRuns {
  import opened Types
  import opened Disk
  import opened RingProtocol
  import opened RingSafety
  import opened RingSteps

  datatype Step =
    | Begin(call: Call)
    | Succeed                       // the next operation of the call in progress
    | Fail(parts: seq<Write>)       // it fails after writing these parts; the call returns the error
    | Crash(img: Image)             // power is lost, the file is found as img and opened again

  /** The minute a call commits, if it is a commit. */
  function CommitOf(call: Call): seq<nat> {
    if call.Commit? then [call.minute] else []
  }

  /** The operation the call in progress does next. */
  function NextOp(r: Ring): DiskOp
    requires r.call.Some? && r.cur < 2 && r.done < |OpsOf(r.call.value, r.hdr, r.cur)|
  {
    OpsOf(r.call.value, r.hdr, r.cur)[r.done]
  }

  predicate Running(r: Ring) {
    r.call.Some? && r.cur < 2 && r.done < |OpsOf(r.call.value, r.hdr, r.cur)|
  }

  ghost predicate Enabled(r: Ring, step: Step) {
    Sane(r.file) &&
    match step
    case Begin(call) => r.call.None? && Accepts(r.hdr, call)
    case Succeed => Running(r) && OpInRange(NextOp(r))
    case Fail(parts) => Running(r) && OpInRange(NextOp(r)) && Failed(r.file, NextOp(r), parts)
    case Crash(img) => CrashImage(r.file, img) && Parse(img).Some?
  }

  function EntryOf(r: Ring): Entry
    requires r.call.Some? && r.call.value.Commit?
  {
    Entry(r.call.value.minute, RowOf(|r.hdr.keys|, r.call.value.vals))
  }

  /** The bookkeeping of an operation that reached the disk, wholly or in part. */
  function Noted(r: Ring): Ring
    requires Running(r)
  {
    match NextOp(r)
    case WriteStamp(slot, stamp) =>
      if r.call.value.Commit? && stamp != 0 then r.(books := r.books[slot := EntryOf(r)]) else r
    case WriteHeader(_, h) => r.(tried := r.tried + [h], width := Max(r.width, |h.keys|))
    case _ => r
  }

  /** The call in progress returned without error. */
  function Returned(r: Ring): Ring
    requires r.call.Some? && r.cur < 2
  {
    match r.call.value
    case Commit(_, _) => r.(call := None, done := 0, kept := KeptWith(r.kept, EntryOf(r)))
    case _ =>
      var h := HeaderAfter(r.hdr, r.call.value);
      r.(call := None, done := 0, hdr := h, cur := 1 - r.cur, tried := [], width := |h.keys|)
  }

  ghost function AfterSuccess(r: Ring): Ring
    requires Sane(r.file) && Running(r) && OpInRange(NextOp(r))
  {
    var r1 := Noted(r).(file := Succeeded(r.file, NextOp(r)), done := r.done + 1,
                        firm := if NextOp(r).Sync? then r.kept else r.firm);
    if r1.done == |OpsOf(r.call.value, r.hdr, r.cur)| then Returned(r1) else r1
  }

  /** What is still committed after a power loss: the minutes whose stamp survived it. */
  function Surviving(kept: map<nat, Entry>, img: Image): map<nat, Entry> {
    map s | s in kept && s < |img.stamps| && img.stamps[s] == kept[s].minute :: kept[s]
  }

  ghost function Next(r: Ring, step: Step): Ring
    requires Enabled(r, step)
  {
    match step
    case Begin(call) =>
      var drop := if call.Commit? then {SlotOf(call.minute)} else {};
      r.(call := Some(call), done := 0, kept := r.kept - drop, firm := r.firm - drop, begun := r.begun + CommitOf(call))
    case Succeed => AfterSuccess(r)
    case Fail(parts) => Noted(r).(file := Issued(r.file, parts), call := None, done := 0)
    case Crash(img) =>
      var (h, c) := Parse(img).value;
      Ring(File(img, []), h, c, None, 0, r.books, Surviving(r.kept, img), Surviving(r.kept, img), [], |h.keys|, r.begun)
  }

  /** A new ring: both header copies, an empty stamp column, no series (createRing, then parseRing). */
  function Created(item: string): Ring {
    var h := Header(0, item, [], 1);
    Ring(File(Image([Decodes(h), Decodes(h.(number := 0))], seq(MINUTES, i => 0), []), []),
         h, 0, None, 0, map[], map[], map[], [], 0, [])
  }

  /** A run from state r; None when a step was not possible. */
  ghost function Exec(r: Ring, steps: seq<Step>): Option<Ring> {
    if steps == [] then Some(r)
    else
      var p := Exec(r, steps[..|steps| - 1]);
      if p.Some? && Enabled(p.value, steps[|steps| - 1]) then Some(Next(p.value, steps[|steps| - 1])) else None
  }

  // ---------------------------------------------------------------- the invariant

  ghost predicate Progress(r: Ring)
    requires Sane(r.file)
  {
    match r.call
    case None => r.done == 0
    case Some(call) =>
      && Accepts(r.hdr, call) && r.cur < 2
      && match call
         case Commit(_, _) =>
           CommitProgress(r.file, EntryOf(r), r.done, r.width) && SlotOf(call.minute) !in r.kept
         case AddSeries(_) =>
           && SeriesProgress(r.file, |r.hdr.keys|, r.done)
           && (r.done == 3 ==> HeaderWritten(r.file, 1 - r.cur, HeaderAfter(r.hdr, call), r.tried))
         case SetForgotten(_) =>
           && r.done < 2
           && (r.done == 1 ==> HeaderWritten(r.file, 1 - r.cur, HeaderAfter(r.hdr, call), r.tried))
  }

  /** A committed minute is visible and in the books; once synced, nothing else can be found in its slot. */
  ghost predicate Remembers(f: File, books: map<nat, Entry>, kept: map<nat, Entry>, firm: map<nat, Entry>)
    requires Sane(f)
  {
    && (forall s :: s in kept ==>
          s < MINUTES && s in books && books[s] == kept[s] && kept[s].minute != 0 && Visible(f).stamps[s] == kept[s].minute)
    && (forall s :: s in firm ==>
          s in kept && kept[s] == firm[s] && forall v: nat :: MayStamp(f, s, v) ==> v == firm[s].minute)
  }

  ghost predicate Inv(r: Ring) {
    && Safe(r.file, r.hdr, r.cur, r.books, r.tried, r.width)
    && BooksFit(r.books, |r.hdr.keys|)
    && Progress(r)
    && Remembers(r.file, r.books, r.kept, r.firm)
  }

  lemma InvSane(r: Ring)
    requires Inv(r)
    ensures Sane(r.file) && r.cur < 2
  {
  }

  lemma CreatedInv(item: string)
    requires 1 <= |item| <= MAX_ITEM_LEN
    ensures Inv(Created(item))
  {
    var r := Created(item);
    assert forall slot :: 0 <= slot < MINUTES ==> SlotSafe(r.file, slot, r.books, r.width);
  }

  // ---------------------------------------------------------------- steps keep it

  lemma BeginKeeps(r: Ring, call: Call)
    requires Inv(r) && Enabled(r, Begin(call))
    ensures Inv(Next(r, Begin(call)))
  {
  }

  /** Writes that touch no stamp of a kept slot leave every kept minute visible. */
  lemma RemembersIssued(f: File, ws: seq<Write>, books: map<nat, Entry>, kept: map<nat, Entry>, firm: map<nat, Entry>)
    requires Sane(f) && AllInRange(ws) && Remembers(f, books, kept, firm)
    requires forall s, v :: StampW(s, v) in ws ==> s !in kept
    ensures Sane(Issued(f, ws)) && Remembers(Issued(f, ws), books, kept, firm)
  {
    IssuedMay(f, ws);
    IssuedVisible(f, ws);
    StampsUntouched(Visible(f), ws, kept.Keys);
  }

  lemma {:induction false} StampsUntouched(img: Image, ws: seq<Write>, slots: set<nat>)
    requires WellFormed(img) && AllInRange(ws)
    requires forall s, v :: StampW(s, v) in ws ==> s !in slots
    ensures forall s :: s in slots && s < MINUTES ==> WrittenAll(img, ws).stamps[s] == img.stamps[s]
  {
    if ws != [] {
      StampsUntouched(img, ws[..|ws| - 1], slots);
      assert ws[|ws| - 1] in ws;
    }
  }

  lemma RemembersSynced(f: File, books: map<nat, Entry>, kept: map<nat, Entry>, firm: map<nat, Entry>)
    requires Sane(f) && Remembers(f, books, kept, firm)
    ensures Sane(Synced(f)) && Remembers(Synced(f), books, kept, kept)
  {
    SyncNarrows(f);
    assert Visible(Synced(f)) == Visible(f);
  }

  // ---------------------------------------------------------------- which operation comes next

  lemma NextOfCommit(r: Ring)
    requires Running(r) && r.call.value.Commit?
    ensures var e := EntryOf(r);
      var slot := SlotOf(e.minute);
      var n := |e.row|;
      && n == |r.hdr.keys|
      && |OpsOf(r.call.value, r.hdr, r.cur)| == 3 * n + 4
      && (r.done == 0 ==> NextOp(r) == WriteStamp(slot, 0))
      && (r.done == 1 || r.done == 3 * n + 2 ==> NextOp(r) == Sync)
      && (2 <= r.done < 3 * n + 2 ==>
            NextOp(r) == WriteValue(ValueAt((r.done - 2) / 3, (r.done - 2) % 3, slot), WordOf(e.row[(r.done - 2) / 3], (r.done - 2) % 3)))
      && (r.done == 3 * n + 3 ==> NextOp(r) == WriteStamp(slot, e.minute))
  {
  }

  /** The parts of one operation that is not a sync, all of them or some, keep everything but the progress. */
  ghost predicate IssueKept(r: Ring, parts: seq<Write>)
    requires Running(r)
  {
    var r' := Noted(r);
    && Sane(r.file) && AllInRange(parts)
    && Safe(Issued(r.file, parts), r.hdr, r.cur, r'.books, r'.tried, r'.width)
    && BooksFit(r'.books, |r.hdr.keys|)
    && Remembers(Issued(r.file, parts), r'.books, r.kept, r.firm)
  }

  lemma CommitIssue(r: Ring, parts: seq<Write>)
    requires Inv(r) && Running(r) && r.call.value.Commit? && !NextOp(r).Sync? && Failed(r.file, NextOp(r), parts)
    ensures IssueKept(r, parts)
  {
    NextOfCommit(r);
    var e := EntryOf(r);
    var slot := SlotOf(e.minute);
    if r.done == 0 {
      ZeroKeepsSafe(r.file, parts, slot, r.hdr, r.cur, r.books, r.tried, r.width);
      RemembersIssued(r.file, parts, r.books, r.kept, r.firm);
    } else if r.done == 3 * |e.row| + 3 && e.minute == 0 {
      ZeroKeepsSafe(r.file, parts, slot, r.hdr, r.cur, r.books, r.tried, r.width);
      RemembersIssued(r.file, parts, r.books, r.kept, r.firm);
    } else if r.done == 3 * |e.row| + 3 {
      StampKeepsSafe(r.file, parts, e, r.hdr, r.cur, r.books, r.tried, r.width);
      RemembersIssued(r.file, parts, r.books, r.kept, r.firm);
    } else {
      ValueIssue(r, parts);
    }
  }

  lemma ValueIssue(r: Ring, parts: seq<Write>)
    requires Inv(r) && Running(r) && r.call.value.Commit? && NextOp(r).WriteValue? && Failed(r.file, NextOp(r), parts)
    ensures IssueKept(r, parts)
  {
    NextOfCommit(r);
    var e := EntryOf(r);
    var slot := SlotOf(e.minute);
    var q := r.done - 2;
    forall s: nat, i: nat, c: nat, x | s < MINUTES && c < 3 && ValueW(ValueAt(i, c, s), x) in parts
      ensures s == slot && i == q / 3
    {
      ValueAtInjective(i, c, s, q / 3, q % 3, slot);
    }
    ValuesKeepSafe(r.file, parts, r.hdr, r.cur, r.books, r.tried, r.width);
    RemembersIssued(r.file, parts, r.books, r.kept, r.firm);
  }

  lemma BlockIssue(r: Ring, parts: seq<Write>)
    requires Inv(r) && Running(r) && r.call.value.AddSeries? && r.done == 0 && Failed(r.file, NextOp(r), parts)
    ensures IssueKept(r, parts)
  {
    var n := |r.hdr.keys|;
    forall w | w in parts ensures w.ValueW? && ValueAt(n, 0, 0) <= w.at < ValueAt(n + 1, 0, 0) && w.x == Absent {
      assert PartOf(w, NextOp(r));
    }
    forall s: nat, i: nat, c: nat, x | s < MINUTES && i < r.width && c < 3 && ValueW(ValueAt(i, c, s), x) in parts
      ensures OnlyZero(r.file, s) || (s in r.books && x == WordOf(CellOf(r.books[s], i), c))
    {
      InBlock(i, c, s, n);
      assert SlotSafe(r.file, s, r.books, r.width);
      assert s in r.books ==> CellOf(r.books[s], i) == None;
    }
    ValuesKeepSafe(r.file, parts, r.hdr, r.cur, r.books, r.tried, r.width);
    RemembersIssued(r.file, parts, r.books, r.kept, r.firm);
  }

  lemma InBlock(i: nat, c: nat, slot: nat, n: nat)
    requires c < 3 && slot < MINUTES && ValueAt(n, 0, 0) <= ValueAt(i, c, slot) < ValueAt(n + 1, 0, 0)
    ensures i == n
  {
    ValueAtBound(i, slot);
  }

  lemma HeaderIssue(r: Ring, parts: seq<Write>)
    requires Inv(r) && Running(r) && NextOp(r).WriteHeader? && Failed(r.file, NextOp(r), parts)
    ensures IssueKept(r, parts)
  {
    var h := NextOp(r).h;
    if r.call.value.Commit? {
      NextOfCommit(r);
    }
    assert h == HeaderAfter(r.hdr, r.call.value) && NextOp(r) == WriteHeader(1 - r.cur, h);
    HeaderFollows(r.hdr, r.call.value);
    if |h.keys| > r.width {
      WiderSafe(r.file, r.hdr, r.cur, r.books, r.tried, r.width);
    }
    HeaderKeepsSafe(r.file, parts, h, r.hdr, r.cur, r.books, r.tried, Max(r.width, |h.keys|));
    RemembersIssued(r.file, parts, r.books, r.kept, r.firm);
  }

  lemma HeaderFollows(hdr: Header, call: Call)
    requires GoodHeader(hdr) && Accepts(hdr, call) && !call.Commit?
    ensures Succeeds(hdr, HeaderAfter(hdr, call))
  {
  }

  lemma IssueKeeps(r: Ring, parts: seq<Write>)
    requires Inv(r) && Running(r) && !NextOp(r).Sync? && Failed(r.file, NextOp(r), parts)
    ensures IssueKept(r, parts)
  {
    match r.call.value {
      case Commit(_, _) => CommitIssue(r, parts);
      case AddSeries(_) =>
        if r.done == 0 {
          BlockIssue(r, parts);
        } else {
          HeaderIssue(r, parts);
        }
      case SetForgotten(_) => HeaderIssue(r, parts);
    }
  }

  lemma FailKeeps(r: Ring, parts: seq<Write>)
    requires Inv(r) && Enabled(r, Fail(parts))
    ensures Inv(Next(r, Fail(parts)))
  {
    hide Safe, Remembers, BooksFit;
    if NextOp(r).Sync? {
      assert |parts| > 0 ==> PartOf(parts[0], NextOp(r));
      assert Issued(r.file, parts) == r.file;
    } else {
      IssueKeeps(r, parts);
    }
  }

  // ---------------------------------------------------------------- operations that succeed

  lemma WritesAreParts(f: File, op: DiskOp)
    ensures Failed(f, op, WritesOf(op))
  {
    var ws := WritesOf(op);
    assert forall i :: 0 <= i < |ws| ==> ws[i] in ws;
  }

  lemma ZeroMay(f: File, slot: nat)
    requires Sane(f) && slot < MINUTES && Visible(f).stamps[slot] == 0
    ensures Sane(Synced(f)) && OnlyZero(Synced(f), slot)
  {
  }

  lemma ValueWritten(r: Ring)
    requires Inv(r) && Running(r) && r.call.value.Commit? && NextOp(r).WriteValue?
    ensures AllInRange(WritesOf(NextOp(r)))
    ensures var f := Issued(r.file, WritesOf(NextOp(r))); Sane(f) && CommitProgress(f, EntryOf(r), r.done + 1, r.width)
    ensures r.done + 1 < |OpsOf(r.call.value, r.hdr, r.cur)|
  {
    NextOfCommit(r);
    var e := EntryOf(r);
    var q := r.done - 2;
    var ws := [ValueW(ValueAt(q / 3, q % 3, SlotOf(e.minute)), WordOf(e.row[q / 3], q % 3))];
    assert WritesOf(NextOp(r)) == ws;
    ValueProgress(r.file, e, r.done, r.width);
  }

  lemma ValueProgress(f: File, e: Entry, done: nat, width: nat)
    requires Sane(f) && CommitProgress(f, e, done, width) && 2 <= done < 3 * |e.row| + 2
    ensures var q := done - 2;
      var g := Issued(f, [ValueW(ValueAt(q / 3, q % 3, SlotOf(e.minute)), WordOf(e.row[q / 3], q % 3))]);
      Sane(g) && CommitProgress(g, e, done + 1, width)
  {
    var q := done - 2;
    LaidStays(f, SlotOf(e.minute), e.row, q);
    IssuedMay(f, [ValueW(ValueAt(q / 3, q % 3, SlotOf(e.minute)), WordOf(e.row[q / 3], q % 3))]);
  }

  /** The two stamp writes of a commit. */
  lemma StampWritten(r: Ring)
    requires Inv(r) && Running(r) && r.call.value.Commit? && NextOp(r).WriteStamp?
    ensures AllInRange(WritesOf(NextOp(r)))
    ensures var f := Issued(r.file, WritesOf(NextOp(r)));
      var slot := SlotOf(EntryOf(r).minute);
      && Sane(f) && NextOp(r).slot == slot && Visible(f).stamps[slot] == NextOp(r).stamp
      && (r.done == 0 ==> CommitProgress(f, EntryOf(r), 1, r.width))
      && (r.done != 0 ==> r.done + 1 == |OpsOf(r.call.value, r.hdr, r.cur)| && NextOp(r).stamp == EntryOf(r).minute)
  {
    NextOfCommit(r);
    VisibleAfter(r.file, StampW(NextOp(r).slot, NextOp(r).stamp));
  }

  lemma CommitSync(r: Ring)
    requires Inv(r) && Running(r) && r.call.value.Commit? && NextOp(r).Sync?
    ensures CommitProgress(Synced(r.file), EntryOf(r), r.done + 1, r.width)
    ensures r.done + 1 < |OpsOf(r.call.value, r.hdr, r.cur)|
  {
    NextOfCommit(r);
    var e := EntryOf(r);
    SyncNarrows(r.file);
    assert Visible(Synced(r.file)) == Visible(r.file);
    if r.done == 1 {
      ZeroMay(r.file, SlotOf(e.minute));
    } else {
      assert r.done - 2 == 3 * |e.row|;
      LaidSettles(r.file, e, r.width, |r.hdr.keys|);
      forall q: nat | q < 3 * |e.row|
        ensures Holds(Synced(r.file), ValueAt(q / 3, q % 3, SlotOf(e.minute)), WordOf(e.row[q / 3], q % 3))
      {
        assert Holds(r.file, ValueAt(q / 3, q % 3, SlotOf(e.minute)), WordOf(e.row[q / 3], q % 3));
      }
    }
  }

  lemma SyncKept(r: Ring)
    requires Inv(r)
    ensures Sane(Synced(r.file))
    ensures Safe(Synced(r.file), r.hdr, r.cur, r.books, r.tried, r.width)
    ensures Remembers(Synced(r.file), r.books, r.kept, r.kept)
    ensures Visible(Synced(r.file)) == Visible(r.file)
  {
    SyncNarrows(r.file);
    NarrowsKeepsSafe(r.file, Synced(r.file), r.hdr, r.cur, r.books, r.tried, r.width);
    RemembersSynced(r.file, r.books, r.kept, r.firm);
  }

  lemma CommitSucceeds(r: Ring)
    requires Inv(r) && Enabled(r, Succeed) && r.call.value.Commit?
    ensures Inv(AfterSuccess(r))
  {
    hide Safe, CommitProgress, BooksFit;
    NextOfCommit(r);
    if NextOp(r).Sync? {
      CommitSync(r);
      SyncKept(r);
    } else {
      WritesAreParts(r.file, NextOp(r));
      CommitIssue(r, WritesOf(NextOp(r)));
      if NextOp(r).WriteValue? {
        ValueWritten(r);
      } else {
        StampWritten(r);
        if r.done != 0 {
          CommitReturns(r);
        }
      }
    }
  }

  lemma CommitReturns(r: Ring)
    requires Running(r) && r.call.value.Commit? && Accepts(r.hdr, r.call.value) && IssueKept(r, WritesOf(NextOp(r)))
    requires NextOp(r) == WriteStamp(SlotOf(EntryOf(r).minute), EntryOf(r).minute)
    requires Visible(Issued(r.file, WritesOf(NextOp(r)))).stamps[SlotOf(EntryOf(r).minute)] == EntryOf(r).minute
    requires r.done + 1 == |OpsOf(r.call.value, r.hdr, r.cur)| && SlotOf(EntryOf(r).minute) !in r.kept
    ensures Inv(AfterSuccess(r))
  {
    hide Safe, CommitOps;
  }

  lemma BlockWrite(r: Ring)
    requires Inv(r) && Running(r) && r.call.value.AddSeries? && r.done == 0
    ensures var f := Issued(r.file, WritesOf(NextOp(r))); Sane(f) && BlockLaid(f, |r.hdr.keys|)
  {
    var n := |r.hdr.keys|;
    BlockWritten(Visible(r.file), ValueAt(n, 0, 0), 3 * MINUTES);
    IssuedVisible(r.file, WritesOf(NextOp(r)));
  }

  lemma HeaderWrite(r: Ring)
    requires Inv(r) && Running(r) && NextOp(r).WriteHeader? && !r.call.value.Commit?
    ensures var f := Issued(r.file, WritesOf(NextOp(r)));
      Sane(f) && HeaderWritten(f, 1 - r.cur, HeaderAfter(r.hdr, r.call.value), Noted(r).tried)
  {
    VisibleAfter(r.file, CopyW(1 - r.cur, HeaderAfter(r.hdr, r.call.value)));
  }

  lemma HeaderSync(r: Ring)
    requires Inv(r) && Running(r) && NextOp(r).Sync? && !r.call.value.Commit?
    requires r.done + 1 == |OpsOf(r.call.value, r.hdr, r.cur)|
    ensures Inv(AfterSuccess(r))
  {
    var h := HeaderAfter(r.hdr, r.call.value);
    SyncKept(r);
    HeaderSettles(r.file, r.hdr, r.cur, r.books, r.tried, r.width, h);
  }

  lemma SeriesSucceeds(r: Ring)
    requires Inv(r) && Enabled(r, Succeed) && r.call.value.AddSeries?
    ensures Inv(AfterSuccess(r))
  {
    hide Safe;
    if r.done == 1 {
      SyncKept(r);
      BlockSettles(r.file, |r.hdr.keys|);
    } else if r.done == 3 {
      HeaderSync(r);
    } else {
      WritesAreParts(r.file, NextOp(r));
      if r.done == 0 {
        BlockWrite(r);
        BlockIssue(r, WritesOf(NextOp(r)));
      } else {
        HeaderWrite(r);
        HeaderIssue(r, WritesOf(NextOp(r)));
        SeriesStays(r.file, WritesOf(NextOp(r)), |r.hdr.keys|);
      }
    }
  }

  lemma SeriesStays(f: File, ws: seq<Write>, n: nat)
    requires Sane(f) && AllInRange(ws) && SeriesProgress(f, n, 2) && forall i :: 0 <= i < |ws| ==> ws[i].CopyW?
    ensures Sane(Issued(f, ws)) && SeriesProgress(Issued(f, ws), n, 3)
  {
    IssuedMay(f, ws);
  }

  lemma ForgottenSucceeds(r: Ring)
    requires Inv(r) && Enabled(r, Succeed) && r.call.value.SetForgotten?
    ensures Inv(AfterSuccess(r))
  {
    hide Safe;
    if r.done == 1 {
      HeaderSync(r);
    } else {
      WritesAreParts(r.file, NextOp(r));
      HeaderWrite(r);
      HeaderIssue(r, WritesOf(NextOp(r)));
    }
  }

  lemma CrashKeeps(r: Ring, img: Image)
    requires Inv(r) && Enabled(r, Crash(img))
    ensures Inv(Next(r, Crash(img)))
    ensures forall s :: s in r.firm ==> s in Next(r, Crash(img)).firm && Next(r, Crash(img)).firm[s] == r.firm[s]
  {
    SafeParses(r.file, r.hdr, r.cur, r.books, r.tried, r.width, img);
    var (h, c) := Parse(img).value;
    assert |h.keys| >= |r.hdr.keys|;
    forall s | s in r.firm ensures img.stamps[s] == r.firm[s].minute {
      assert MayStamp(r.file, s, img.stamps[s]);
    }
  }

  lemma StepKeeps(r: Ring, step: Step)
    requires Inv(r) && Enabled(r, step)
    ensures Inv(Next(r, step))
  {
    match step {
      case Begin(call) => BeginKeeps(r, call);
      case Succeed =>
        hide Inv, AfterSuccess;
        match r.call.value {
          case Commit(_, _) => CommitSucceeds(r);
          case AddSeries(_) => SeriesSucceeds(r);
          case SetForgotten(_) => ForgottenSucceeds(r);
        }
      case Fail(parts) => FailKeeps(r, parts);
      case Crash(img) => CrashKeeps(r, img);
    }
  }

  // ---------------------------------------------------------------- what every run keeps

  lemma {:induction false} ExecKeeps(r: Ring, steps: seq<Step>)
    requires Inv(r) && Exec(r, steps).Some?
    ensures Inv(Exec(r, steps).value)
  {
    hide Inv, Next, Enabled;
    if steps != [] {
      ExecKeeps(r, steps[..|steps| - 1]);
      StepKeeps(Exec(r, steps[..|steps| - 1]).value, steps[|steps| - 1]);
    }
  }

  lemma {:induction false} ExecThen(r: Ring, a: seq<Step>, b: seq<Step>)
    requires Exec(r, a).Some? && Exec(Exec(r, a).value, b).Some?
    ensures Exec(r, a + b) == Exec(Exec(r, a).value, b)
  {
    hide Next, Enabled;
    if b == [] {
      assert a + b == a;
    } else {
      ExecThen(r, a, b[..|b| - 1]);
      assert (a + b)[..|a + b| - 1] == a + b[..|b| - 1];
    }
  }

  /** Every state of every run of a new ring is safe: any calls, failures, power losses and restarts. */
  lemma RunsAreSafe(item: string, steps: seq<Step>)
    requires 1 <= |item| <= MAX_ITEM_LEN && Exec(Created(item), steps).Some?
    ensures Inv(Exec(Created(item), steps).value)
  {
    hide Inv, Exec;
    CreatedInv(item);
    ExecKeeps(Created(item), steps);
  }

  /** Every minute of firm reads back whole, for each of the first n series. */
  ghost predicate FirmWhole(img: Image, firm: map<nat, Entry>, n: nat)
    requires WellFormed(img)
  {
    forall slot: nat, i: nat :: slot in firm && i < n ==> SeriesWhole(img, i, firm[slot])
  }

  /** Series from..n-1 read back as gaps at every minute. */
  ghost predicate GapsFrom(img: Image, from: nat, n: nat)
    requires WellFormed(img)
  {
    forall m: nat, i: nat :: from <= i < n ==> ValueAt(i + 1, 0, 0) <= |img.vals| && ReadCell(img, i, m) == None
  }

  /** Every slot reads back as nothing or as one whole minute, the last one stamped there. */
  ghost predicate AllWhole(img: Image, books: map<nat, Entry>, n: nat)
    requires WellFormed(img)
  {
    ValueAt(n, 0, 0) <= |img.vals| && forall slot :: 0 <= slot < MINUTES ==> ReadsWhole(img, slot, books, n)
  }

  /** What reopening img, left by a power loss in state r, finds under header h. */
  ghost predicate Recovers(r: Ring, img: Image, h: Header)
    requires WellFormed(img)
  {
    && (h == r.hdr || h in r.tried)
    && AllWhole(img, r.books, |h.keys|)
    && FirmWhole(img, r.firm, |h.keys|)
    && GapsFrom(img, |r.hdr.keys|, |h.keys|)
  }

  /**
   * Crash consistency. At any point of any run, whatever a power loss leaves:
   * the file parses, to the current header or one a call tried to write after
   * it, and is long enough for its series; every slot reads back as nothing or
   * as one whole minute, the last one stamped there; every minute committed
   * before the last sync reads back whole; and a series the current header
   * lacks reads back as a gap everywhere.
   */
  lemma CrashConsistent(item: string, steps: seq<Step>, img: Image)
    requires 1 <= |item| <= MAX_ITEM_LEN && Exec(Created(item), steps).Some?
    requires Sane(Exec(Created(item), steps).value.file) && CrashImage(Exec(Created(item), steps).value.file, img)
    ensures Parse(img).Some? && Recovers(Exec(Created(item), steps).value, img, Parse(img).value.0)
  {
    RunsAreSafe(item, steps);
    hide Exec;
    InvRecovers(Exec(Created(item), steps).value, img);
  }

  lemma InvRecovers(r: Ring, img: Image)
    requires Inv(r) && CrashImage(r.file, img)
    ensures Parse(img).Some? && Recovers(r, img, Parse(img).value.0)
  {
    SafeParses(r.file, r.hdr, r.cur, r.books, r.tried, r.width, img);
    var n := |Parse(img).value.0.keys|;
    hide Inv, CrashImage, Safe, Parse;
    forall slot | 0 <= slot < MINUTES ensures ValueAt(n, 0, 0) <= |img.vals| && ReadsWhole(img, slot, r.books, n) {
      WholeIn(r, img, slot, n);
    }
    WholeIn(r, img, 0, n);
    forall slot: nat, i: nat | slot in r.firm && i < n ensures SeriesWhole(img, i, r.firm[slot]) {
      FirmReads(r, img, slot, i, n);
    }
    forall m: nat, i: nat | |r.hdr.keys| <= i < n ensures ValueAt(i + 1, 0, 0) <= |img.vals| && ReadCell(img, i, m) == None {
      NewSeriesReads(r, img, m, i, n);
    }
    assert AllWhole(img, r.books, n);
    assert FirmWhole(img, r.firm, n);
    assert GapsFrom(img, |r.hdr.keys|, n);
  }

  lemma NewSeriesReads(r: Ring, img: Image, m: nat, i: nat, n: nat)
    requires Inv(r) && CrashImage(r.file, img) && |r.hdr.keys| <= i < n <= r.width
    ensures ValueAt(i + 1, 0, 0) <= |img.vals| && ReadCell(img, i, m) == None
  {
    assert ValueAt(i + 1, 0, 0) <= ValueAt(r.width, 0, 0);
    ValueAtBound(i, SlotOf(m));
    assert MayValue(r.file, ValueAt(i, 0, SlotOf(m)), img.vals[ValueAt(i, 0, SlotOf(m))]);
  }

  lemma WholeIn(r: Ring, img: Image, slot: nat, n: nat)
    requires Inv(r) && CrashImage(r.file, img) && slot < MINUTES && n <= r.width
    ensures ValueAt(n, 0, 0) <= |img.vals| && ReadsWhole(img, slot, r.books, n)
  {
    SafeReadsWhole(r.file, r.hdr, r.cur, r.books, r.tried, r.width, img, slot);
  }

  lemma FirmReads(r: Ring, img: Image, slot: nat, i: nat, n: nat)
    requires Inv(r) && CrashImage(r.file, img) && slot in r.firm && i < n <= r.width
    ensures SeriesWhole(img, i, r.firm[slot])
  {
    WholeIn(r, img, slot, n);
    assert MayStamp(r.file, slot, img.stamps[slot]);
  }

  /** A process that dies without a power loss finds every minute whose commit returned, until its slot is reused. */
  lemma KillKeepsCommitted(item: string, steps: seq<Step>, slot: nat, i: nat)
    requires 1 <= |item| <= MAX_ITEM_LEN && Exec(Created(item), steps).Some?
    requires slot in Exec(Created(item), steps).value.kept && i < |Exec(Created(item), steps).value.hdr.keys|
    ensures var r := Exec(Created(item), steps).value;
      Sane(r.file) && SeriesWhole(Visible(r.file), i, r.kept[slot])
  {
    RunsAreSafe(item, steps);
    var r := Exec(Created(item), steps).value;
    VisibleMay(r.file);
    WholeIn(r, Visible(r.file), slot, |r.hdr.keys|);
  }
}

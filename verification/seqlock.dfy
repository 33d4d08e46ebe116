/**
 * Lock-free readers beside the writer of a ring (readWindow against
 * writeMinute in ring.go). Every 4-byte read and every disk operation of the
 * writer is a step of its own; any number of readers interleave with it.
 */
module Seqlock {
  import opened Types
  import opened Disk
  import opened RingProtocol
  import opened RingSafety
  import opened RingSteps
  import opened RingRuns
  import opened RingStamps

  type Rid = nat

  /** The word of column c of series i of the j-th minute of a window. */
  datatype Spot = Spot(i: nat, c: nat, j: nat)

  /**
   * One call of readWindow: n minutes from minute from, for the first series
   * columns known when it started. It reads every stamp, then every value, then
   * every stamp again. The last fields are bookkeeping: for each stamp read,
   * how often its slot had been zeroed and which minute the books had there,
   * and how many minutes had been stamped in all at its first and second reading.
   */
  datatype Reader = Reader(
    from: int,
    n: nat,
    series: nat,
    before: map<nat, nat>,
    words: map<Spot, Num>,
    after: map<nat, nat>,
    zeroed: map<nat, nat>,
    entry: map<nat, Entry>,
    seen: map<nat, nat>,
    again: map<nat, nat>)

  datatype World = World(
    ring: Ring,
    zeros: map<nat, nat>,     // by slot, how often its stamp was zeroed
    stamped: seq<nat>,        // every minute stamped, in order
    commits: set<Entry>,      // what was stamped, and what the ring held at the start
    readers: map<Rid, Reader>,
    results: seq<Reader>)     // finished calls

  datatype Action =
    | Write(step: RingRuns.Step)
    | Open(id: Rid, from: int, n: nat)
    | ReadBefore(id: Rid, j: nat)
    | ReadWord(id: Rid, at: Spot)
    | ReadAfter(id: Rid, j: nat)
    | Finish(id: Rid)

  /** The unsigned 32-bit number a stamp is compared with. */
  function Want(from: int, j: nat): nat {
    (from + j) % STAMP_LIMIT
  }

  function SlotAt(from: int, j: nat): (slot: nat)
    ensures slot < MINUTES
  {
    SlotOf(from + j)
  }

  function Zeroed(zeros: map<nat, nat>, slot: nat): nat {
    if slot in zeros then zeros[slot] else 0
  }

  predicate InWindow(rd: Reader, at: Spot) {
    at.i < rd.series && at.c < 3 && at.j < rd.n
  }

  ghost predicate AllBefore(rd: Reader) {
    forall j: nat :: j < rd.n ==> j in rd.before
  }

  ghost predicate AllWords(rd: Reader) {
    forall at :: InWindow(rd, at) ==> at in rd.words
  }

  ghost predicate AllAfter(rd: Reader) {
    forall j: nat :: j < rd.n ==> j in rd.after
  }

  /** The j-th minute of the window was stamped again between the two readings of its stamp. */
  ghost predicate Restamped(stamped: seq<nat>, rd: Reader, j: nat) {
    j in rd.seen && j in rd.again && exists i: nat :: rd.seen[j] <= i < rd.again[j] && i < |stamped| && stamped[i] == Want(rd.from, j)
  }

  ghost predicate Enabled(w: World, a: Action) {
    Sane(w.ring.file) &&
    match a
    case Write(step) => !step.Crash? && RingRuns.Enabled(w.ring, step)
    case Open(id, _, n) => id !in w.readers && 1 <= n <= MINUTES
    case ReadBefore(id, j) => id in w.readers && j < w.readers[id].n && j !in w.readers[id].before
    case ReadWord(id, at) =>
      && id in w.readers && InWindow(w.readers[id], at) && at !in w.readers[id].words && AllBefore(w.readers[id])
      && ValueAt(at.i, at.c, SlotAt(w.readers[id].from, at.j)) < |Visible(w.ring.file).vals|
    case ReadAfter(id, j) =>
      && id in w.readers && j < w.readers[id].n && j !in w.readers[id].after
      && AllBefore(w.readers[id]) && AllWords(w.readers[id])
    case Finish(id) =>
      id in w.readers && AllBefore(w.readers[id]) && AllWords(w.readers[id]) && AllAfter(w.readers[id])
  }

  ghost function Wrote(w: World, step: RingRuns.Step): World
    requires RingRuns.Enabled(w.ring, step)
  {
    var put := StampPut(w.ring, step);
    var w1 := w.(ring := RingRuns.Next(w.ring, step));
    if put.None? then w1
    else if put.value.1 == 0 then w1.(zeros := w.zeros[put.value.0 := Zeroed(w.zeros, put.value.0) + 1])
    else w1.(stamped := w.stamped + [put.value.1],
             commits := w.commits + if w.ring.call.value.Commit? then {EntryOf(w.ring)} else {})
  }

  ghost function StampRead(w: World, rd: Reader, j: nat): Reader
    requires Sane(w.ring.file)
  {
    var slot := SlotAt(rd.from, j);
    var e := if slot in w.ring.books then w.ring.books[slot] else Entry(0, []);
    rd.(before := rd.before[j := Visible(w.ring.file).stamps[slot]],
        zeroed := rd.zeroed[j := Zeroed(w.zeros, slot)], entry := rd.entry[j := e], seen := rd.seen[j := |w.stamped|])
  }

  ghost function SecondRead(w: World, rd: Reader, j: nat): Reader
    requires Sane(w.ring.file)
  {
    rd.(after := rd.after[j := Visible(w.ring.file).stamps[SlotAt(rd.from, j)]], again := rd.again[j := |w.stamped|])
  }

  ghost function Next(w: World, a: Action): World
    requires Enabled(w, a)
  {
    match a
    case Write(step) => Wrote(w, step)
    case Open(id, from, n) =>
      w.(readers := w.readers[id := Reader(from, n, |w.ring.hdr.keys|, map[], map[], map[], map[], map[], map[], map[])])
    case ReadBefore(id, j) => w.(readers := w.readers[id := StampRead(w, w.readers[id], j)])
    case ReadWord(id, at) =>
      var rd := w.readers[id];
      w.(readers := w.readers[id := rd.(words := rd.words[at := Visible(w.ring.file).vals[ValueAt(at.i, at.c, SlotAt(rd.from, at.j))]])])
    case ReadAfter(id, j) =>
      var rd := w.readers[id];
      w.(readers := w.readers[id := SecondRead(w, rd, j)])
    case Finish(id) => w.(readers := w.readers - {id}, results := w.results + [w.readers[id]])
  }

  /** The cell a finished call returns for series i of minute from + j. */
  function CellRead(rd: Reader, i: nat, j: nat): Cell
    requires j in rd.before && j in rd.after
    requires Spot(i, 0, j) in rd.words && Spot(i, 1, j) in rd.words && Spot(i, 2, j) in rd.words
  {
    var a, lo, hi := rd.words[Spot(i, 0, j)], rd.words[Spot(i, 1, j)], rd.words[Spot(i, 2, j)];
    if rd.before[j] == Want(rd.from, j) && rd.after[j] == Want(rd.from, j) && a.Val? && lo.Val? && hi.Val?
    then Some(MinuteValue(a.r, lo.r, hi.r)) else None
  }

  function Start(r: Ring): World {
    World(r, map[], [], r.books.Values, map[], [])
  }

  /** A run from a ring in state r; None when an action was not possible. */
  ghost function Exec(r: Ring, actions: seq<Action>): Option<World> {
    if actions == [] then Some(Start(r))
    else
      var p := Exec(r, actions[..|actions| - 1]);
      var a := actions[|actions| - 1];
      if p.Some? && Enabled(p.value, a) then Some(Next(p.value, a)) else None
  }

  // ---------------------------------------------------------------- the invariant

  /** The stamp of minute from + j was found in place. */
  predicate Matched(rd: Reader, j: nat) {
    j in rd.before && rd.before[j] == Want(rd.from, j) && Want(rd.from, j) != 0
  }

  /** Since then the slot was not zeroed and still holds that minute, or it was zeroed and the minute is back only if it was stamped again. */
  ghost predicate StampLaw(w: World, rd: Reader, j: nat)
    requires Sane(w.ring.file)
  {
    var slot := SlotAt(rd.from, j);
    && j in rd.zeroed && j in rd.entry && j in rd.seen
    && rd.entry[j].minute == Want(rd.from, j)
    && rd.zeroed[j] <= Zeroed(w.zeros, slot) && rd.seen[j] <= |w.stamped|
    && (rd.zeroed[j] == Zeroed(w.zeros, slot) ==>
          Visible(w.ring.file).stamps[slot] == Want(rd.from, j) && slot in w.ring.books && w.ring.books[slot] == rd.entry[j])
    && (rd.zeroed[j] < Zeroed(w.zeros, slot) && Visible(w.ring.file).stamps[slot] == Want(rd.from, j) ==>
          StampedSince(w.stamped, rd.seen[j], Want(rd.from, j)))
  }

  ghost predicate StampedSince(stamped: seq<nat>, n: nat, m: nat) {
    exists i: nat :: n <= i < |stamped| && stamped[i] == m
  }

  /** A word read is the word of that minute, unless the slot was zeroed since the stamp was read. */
  ghost predicate WordLaw(w: World, rd: Reader, at: Spot)
    requires at in rd.words
  {
    Matched(rd, at.j) && at.j in rd.zeroed && at.j in rd.entry ==>
      || rd.words[at] == WordOf(CellOf(rd.entry[at.j], at.i), at.c)
      || rd.zeroed[at.j] < Zeroed(w.zeros, SlotAt(rd.from, at.j))
  }

  /** When both stamps matched and the minute was not stamped in between, every word is the word of one minute. */
  ghost predicate CellLaw(stamped: seq<nat>, rd: Reader, j: nat) {
    (j in rd.after ==> j in rd.again && rd.again[j] <= |stamped|) &&
    (Matched(rd, j) && j in rd.after && rd.after[j] == Want(rd.from, j) && !Restamped(stamped, rd, j) ==>
      && j in rd.entry && rd.entry[j].minute == Want(rd.from, j)
      && forall i: nat, c: nat :: InWindow(rd, Spot(i, c, j)) ==>
           Spot(i, c, j) in rd.words && rd.words[Spot(i, c, j)] == WordOf(CellOf(rd.entry[j], i), c))
  }

  ghost predicate ReaderInv(w: World, rd: Reader)
    requires Sane(w.ring.file)
  {
    && rd.series <= |w.ring.hdr.keys|
    && (forall j: nat :: Matched(rd, j) ==> StampLaw(w, rd, j))
    && (forall at :: at in rd.words ==> WordLaw(w, rd, at))
    && (forall j: nat :: CellLaw(w.stamped, rd, j))
    && (forall j: nat :: j in rd.after ==> AllWords(rd) && AllBefore(rd))
    && (forall at :: at in rd.words ==> AllBefore(rd))
  }

  ghost predicate Whole(stamped: seq<nat>, rd: Reader) {
    AllBefore(rd) && AllWords(rd) && AllAfter(rd) && forall j: nat :: CellLaw(stamped, rd, j)
  }

  /** Every stamp a slot shows is of a minute that was committed as the books say. */
  ghost predicate Booked(w: World)
    requires Sane(w.ring.file)
  {
    forall slot: nat :: slot < MINUTES && Visible(w.ring.file).stamps[slot] != 0 ==>
      slot in w.ring.books && w.ring.books[slot] in w.commits
  }

  ghost predicate EntriesIn(commits: set<Entry>, rd: Reader) {
    forall j: nat :: Matched(rd, j) ==> j in rd.entry && rd.entry[j] in commits
  }

  ghost predicate WorldInv(w: World) {
    && Inv(w.ring)
    && Booked(w)
    && (forall id :: id in w.readers ==> ReaderInv(w, w.readers[id]) && EntriesIn(w.commits, w.readers[id]))
    && (forall k :: 0 <= k < |w.results| ==> Whole(w.stamped, w.results[k]) && EntriesIn(w.commits, w.results[k]))
  }

  // ---------------------------------------------------------------- readers beside the writer

  /** How a writer's step looks to a reader. */
  ghost predicate Shifted(w: World, w': World, put: Option<(nat, nat)>)
    requires Sane(w.ring.file) && Sane(w'.ring.file)
  {
    && (put.Some? ==> put.value.0 < MINUTES)
    && Visible(w'.ring.file).stamps ==
         (if put.Some? then Visible(w.ring.file).stamps[put.value.0 := put.value.1] else Visible(w.ring.file).stamps)
    && w'.zeros == (if put.Some? && put.value.1 == 0 then w.zeros[put.value.0 := Zeroed(w.zeros, put.value.0) + 1] else w.zeros)
    && w'.stamped == (if put.Some? && put.value.1 != 0 then w.stamped + [put.value.1] else w.stamped)
    && |w.ring.hdr.keys| <= |w'.ring.hdr.keys|
    && w.commits <= w'.commits
    && (forall slot: nat :: slot < MINUTES && Visible(w.ring.file).stamps[slot] != 0 ==>
          BooksStay(w, w', slot) && (put.Some? && put.value.0 == slot ==> put.value.1 == 0))
  }

  ghost predicate BooksStay(w: World, w': World, slot: nat) {
    slot in w.ring.books ==> slot in w'.ring.books && w'.ring.books[slot] == w.ring.books[slot]
  }

  lemma WroteShifts(w: World, step: RingRuns.Step)
    requires Inv(w.ring) && RingRuns.Enabled(w.ring, step) && !step.Crash?
    ensures Sane(w.ring.file) && Sane(Wrote(w, step).ring.file)
    ensures Shifted(w, Wrote(w, step), StampPut(w.ring, step))
  {
    hide Inv, RingRuns.Next, RingRuns.Enabled, StampPut;
    InvSane(w.ring);
    StampsAfter(w.ring, step);
    SeriesGrow(w.ring, step);
    var w' := Wrote(w, step);
    forall slot: nat | slot < MINUTES && Visible(w.ring.file).stamps[slot] != 0
      ensures BooksStay(w, w', slot)
      ensures StampPut(w.ring, step).Some? && StampPut(w.ring, step).value.0 == slot ==> StampPut(w.ring, step).value.1 == 0
    {
      BooksAfter(w.ring, step, slot);
    }
  }

  /** A longer log of stamps changes nothing that was read before. */
  lemma CellLawStays(stamped: seq<nat>, more: seq<nat>, rd: Reader, j: nat)
    requires CellLaw(stamped, rd, j)
    ensures CellLaw(stamped + more, rd, j)
  {
    if j in rd.after && Restamped(stamped, rd, j) {
      var i: nat :| rd.seen[j] <= i < rd.again[j] && i < |stamped| && stamped[i] == Want(rd.from, j);
      assert (stamped + more)[i] == stamped[i];
    }
  }

  lemma StampLawStays(w: World, w': World, put: Option<(nat, nat)>, rd: Reader, j: nat)
    requires Sane(w.ring.file) && Sane(w'.ring.file) && Shifted(w, w', put)
    requires Matched(rd, j) && StampLaw(w, rd, j)
    ensures StampLaw(w', rd, j)
  {
    hide Want, SlotOf, SlotAt, StampedSince;
    var slot, m := SlotAt(rd.from, j), Want(rd.from, j);
    LongerLog(w.stamped, w'.stamped, rd.seen[j], m);
    if rd.zeroed[j] == Zeroed(w.zeros, slot) {
      assert BooksStay(w, w', slot);
    }
  }

  lemma LongerLog(stamped: seq<nat>, longer: seq<nat>, n: nat, m: nat)
    requires stamped <= longer && n <= |stamped|
    ensures StampedSince(stamped, n, m) ==> StampedSince(longer, n, m)
    ensures |stamped| < |longer| && longer[|stamped|] == m ==> StampedSince(longer, n, m)
  {
    if StampedSince(stamped, n, m) {
      var i: nat :| n <= i < |stamped| && stamped[i] == m;
      assert longer[i] == m;
    }
  }

  lemma ReaderStays(w: World, w': World, put: Option<(nat, nat)>, rd: Reader)
    requires Sane(w.ring.file) && Sane(w'.ring.file) && Shifted(w, w', put) && ReaderInv(w, rd)
    ensures ReaderInv(w', rd)
  {
    hide CellLaw, Matched, StampedSince;
    forall j: nat | Matched(rd, j) ensures StampLaw(w', rd, j) {
      StampLawStays(w, w', put, rd, j);
    }
    forall j: nat ensures CellLaw(w'.stamped, rd, j) {
      CellLawGrows(w.stamped, w'.stamped, rd, j);
    }
    hide StampLaw;
    forall at | at in rd.words ensures WordLaw(w', rd, at) {
      assert WordLaw(w, rd, at);
    }
  }

  lemma CellLawGrows(stamped: seq<nat>, longer: seq<nat>, rd: Reader, j: nat)
    requires CellLaw(stamped, rd, j) && stamped <= longer
    ensures CellLaw(longer, rd, j)
  {
    assert longer == stamped + longer[|stamped|..];
    CellLawStays(stamped, longer[|stamped|..], rd, j);
  }

  lemma PutBooks(r: Ring, step: RingRuns.Step)
    requires Inv(r) && RingRuns.Enabled(r, step) && !step.Crash? && StampPut(r, step).Some? && StampPut(r, step).value.1 != 0
    ensures r.call.Some? && r.call.value.Commit?
    ensures var slot := StampPut(r, step).value.0;
      slot in RingRuns.Next(r, step).books && RingRuns.Next(r, step).books[slot] == EntryOf(r)
  {
    hide Safe, Remembers, CommitOps, Progress;
    if r.call.value.Commit? {
      NextOfCommit(r);
    }
  }

  lemma BookedStays(w: World, step: RingRuns.Step)
    requires Inv(w.ring) && Booked(w) && RingRuns.Enabled(w.ring, step) && !step.Crash?
    ensures Sane(Wrote(w, step).ring.file) && Booked(Wrote(w, step))
  {
    hide Inv, RingRuns.Next, RingRuns.Enabled, StampPut;
    InvSane(w.ring);
    WroteShifts(w, step);
    var w' := Wrote(w, step);
    var put := StampPut(w.ring, step);
    forall slot: nat | slot < MINUTES && Visible(w'.ring.file).stamps[slot] != 0
      ensures slot in w'.ring.books && w'.ring.books[slot] in w'.commits
    {
      if put.Some? && put.value.0 == slot {
        PutBooks(w.ring, step);
      } else {
        assert BooksStay(w, w', slot);
      }
    }
  }

  lemma WriteKeeps(w: World, step: RingRuns.Step)
    requires WorldInv(w) && Enabled(w, Write(step))
    ensures WorldInv(Next(w, Write(step)))
  {
    hide Inv, ReaderInv, StampPut, Whole, Matched;
    WroteShifts(w, step);
    BookedStays(w, step);
    var w' := Wrote(w, step);
    hide Booked;
    RingRuns.StepKeeps(w.ring, step);
    WroteRing(w, step);
    forall id | id in w'.readers ensures ReaderInv(w', w'.readers[id]) && EntriesIn(w'.commits, w'.readers[id]) {
      ReaderStays(w, w', StampPut(w.ring, step), w.readers[id]);
    }
    forall k | 0 <= k < |w'.results| ensures Whole(w'.stamped, w'.results[k]) && EntriesIn(w'.commits, w'.results[k]) {
      WholeStays(w.stamped, w'.stamped, w.results[k]);
    }
  }

  lemma WholeStays(stamped: seq<nat>, longer: seq<nat>, rd: Reader)
    requires Whole(stamped, rd) && stamped <= longer
    ensures Whole(longer, rd)
  {
    forall j: nat ensures CellLaw(longer, rd, j) {
      CellLawGrows(stamped, longer, rd, j);
    }
  }

  lemma WroteRing(w: World, step: RingRuns.Step)
    requires RingRuns.Enabled(w.ring, step)
    ensures var w' := Wrote(w, step);
      w'.ring == RingRuns.Next(w.ring, step) && w'.readers == w.readers && w'.results == w.results
  {
    hide RingRuns.Next, RingRuns.Enabled, StampPut;
  }

  // ---------------------------------------------------------------- the readers' steps

  /** A stamp other than 0 is that of the minute in the books, and every visible word is that minute's. */
  lemma VisibleMinute(r: Ring, slot: nat)
    requires Inv(r) && slot < MINUTES && Visible(r.file).stamps[slot] != 0
    ensures slot in r.books && r.books[slot].minute == Visible(r.file).stamps[slot]
    ensures forall i: nat, c: nat :: i < |r.hdr.keys| && c < 3 ==>
              ValueAt(i, c, slot) < |Visible(r.file).vals|
              && Visible(r.file).vals[ValueAt(i, c, slot)] == WordOf(CellOf(r.books[slot], i), c)
  {
    VisibleMay(r.file);
    assert MayStamp(r.file, slot, Visible(r.file).stamps[slot]);
    assert SlotSafe(r.file, slot, r.books, r.width);
    forall i: nat, c: nat | i < |r.hdr.keys| && c < 3
      ensures ValueAt(i, c, slot) < |Visible(r.file).vals|
      ensures Visible(r.file).vals[ValueAt(i, c, slot)] == WordOf(CellOf(r.books[slot], i), c)
    {
      assert ValueAt(i + 1, 0, 0) <= ValueAt(r.width, 0, 0);
      ValueAtBound(i, slot);
      assert MayValue(r.file, ValueAt(i, c, slot), Visible(r.file).vals[ValueAt(i, c, slot)]);
    }
  }

  lemma ReadBeforeKeeps(w: World, rd: Reader, j: nat)
    requires Inv(w.ring) && Booked(w) && ReaderInv(w, rd) && EntriesIn(w.commits, rd) && j < rd.n && j !in rd.before
    ensures ReaderInv(w, StampRead(w, rd, j)) && EntriesIn(w.commits, StampRead(w, rd, j))
  {
    hide Want, SlotOf, SlotAt;
    var rd' := StampRead(w, rd, j);
    assert !AllBefore(rd);
    FreshMatch(w, rd, j);
    hide Inv, Booked;
    forall k: nat | Matched(rd', k) ensures StampLaw(w, rd', k) && k in rd'.entry && rd'.entry[k] in w.commits {
      if k != j {
        assert Matched(rd, k) && StampLaw(w, rd, k);
      }
    }
    assert rd.after == map[] by {
      assert forall k: nat :: k !in rd.after;
    }
    forall k: nat ensures CellLaw(w.stamped, rd', k) {
      assert CellLaw(w.stamped, rd, k);
    }
  }

  /** The stamp just read obeys the law of stamps. */
  lemma FreshMatch(w: World, rd: Reader, j: nat)
    requires Inv(w.ring) && Booked(w)
    ensures var rd' := StampRead(w, rd, j);
      Matched(rd', j) ==> StampLaw(w, rd', j) && j in rd'.entry && rd'.entry[j] in w.commits
  {
    hide Want, SlotOf, SlotAt, Inv;
    InvSane(w.ring);
    if Matched(StampRead(w, rd, j), j) {
      VisibleMinute(w.ring, SlotAt(rd.from, j));
    }
  }

  lemma ReadWordKeeps(w: World, rd: Reader, at: Spot, x: Num)
    requires Inv(w.ring) && ReaderInv(w, rd) && InWindow(rd, at) && at !in rd.words && AllBefore(rd)
    requires ValueAt(at.i, at.c, SlotAt(rd.from, at.j)) < |Visible(w.ring.file).vals|
    requires x == Visible(w.ring.file).vals[ValueAt(at.i, at.c, SlotAt(rd.from, at.j))]
    ensures ReaderInv(w, rd.(words := rd.words[at := x]))
  {
    hide Want, SlotOf, SlotAt;
    var rd' := rd.(words := rd.words[at := x]);
    assert !AllWords(rd);
    if Matched(rd, at.j) {
      assert StampLaw(w, rd, at.j);
      if rd.zeroed[at.j] == Zeroed(w.zeros, SlotAt(rd.from, at.j)) {
        VisibleMinute(w.ring, SlotAt(rd.from, at.j));
      }
    }
    hide Inv;
    forall j: nat | Matched(rd', j) ensures StampLaw(w, rd', j) {
      assert StampLaw(w, rd, j);
    }
    forall k | k in rd'.words ensures WordLaw(w, rd', k) {
      if k != at {
        assert WordLaw(w, rd, k);
      }
    }
  }

  lemma ReadAfterKeeps(w: World, rd: Reader, j: nat)
    requires Sane(w.ring.file) && ReaderInv(w, rd) && j < rd.n && j !in rd.after && AllBefore(rd) && AllWords(rd)
    ensures ReaderInv(w, SecondRead(w, rd, j))
  {
    hide Want, SlotOf, SlotAt;
    var rd' := SecondRead(w, rd, j);
    forall k: nat | Matched(rd', k) ensures StampLaw(w, rd', k) {
      assert StampLaw(w, rd, k);
    }
    forall k | k in rd'.words ensures WordLaw(w, rd', k) {
      assert WordLaw(w, rd, k);
    }
    forall k: nat ensures CellLaw(w.stamped, rd', k) {
      assert CellLaw(w.stamped, rd, k);
      if k == j {
        SecondReadLaw(w, rd, j);
      }
    }
  }

  /** A stamp that is back where it was without having been stamped again never left. */
  lemma SecondReadLaw(w: World, rd: Reader, j: nat)
    requires Sane(w.ring.file) && ReaderInv(w, rd) && j < rd.n && AllWords(rd)
    ensures CellLaw(w.stamped, SecondRead(w, rd, j), j)
  {
    hide Want, SlotOf, SlotAt;
    var rd' := SecondRead(w, rd, j);
    if Matched(rd', j) && rd'.after[j] == Want(rd'.from, j) && !Restamped(w.stamped, rd', j) {
      assert Matched(rd, j) && StampLaw(w, rd, j);
      forall i: nat, c: nat | InWindow(rd', Spot(i, c, j))
        ensures Spot(i, c, j) in rd'.words && rd'.words[Spot(i, c, j)] == WordOf(CellOf(rd'.entry[j], i), c)
      {
        assert InWindow(rd, Spot(i, c, j)) && WordLaw(w, rd, Spot(i, c, j));
      }
    }
  }

  lemma OpenKeeps(w: World, from: int, n: nat)
    requires Inv(w.ring)
    ensures var rd := Reader(from, n, |w.ring.hdr.keys|, map[], map[], map[], map[], map[], map[], map[]);
      ReaderInv(w, rd) && EntriesIn(w.commits, rd)
  {
  }

  lemma ActionKeeps(w: World, a: Action)
    requires WorldInv(w) && Enabled(w, a)
    ensures WorldInv(Next(w, a))
  {
    match a {
      case Write(step) =>
        hide WorldInv, Next;
        WriteStep(w, step);
      case Open(id, from, n) => ReaderStep(w, a, id);
      case ReadBefore(id, _) => ReaderStep(w, a, id);
      case ReadWord(id, _) => ReaderStep(w, a, id);
      case ReadAfter(id, _) => ReaderStep(w, a, id);
      case Finish(id) => FinishStep(w, id);
    }
  }

  lemma WriteStep(w: World, step: RingRuns.Step)
    requires WorldInv(w) && Enabled(w, Write(step))
    ensures WorldInv(Next(w, Write(step)))
  {
    hide WorldInv;
    WriteKeeps(w, step);
  }

  /** Changing one reader leaves the ring, the bookkeeping and every other reader alone. */
  lemma Replaced(w: World, id: Rid, rd: Reader)
    requires WorldInv(w) && Sane(w.ring.file) && ReaderInv(w, rd) && EntriesIn(w.commits, rd)
    ensures WorldInv(w.(readers := w.readers[id := rd]))
  {
    hide Inv, ReaderInv, Whole, EntriesIn;
    var w' := w.(readers := w.readers[id := rd]);
    forall k | k in w'.readers ensures ReaderInv(w', w'.readers[k]) && EntriesIn(w'.commits, w'.readers[k]) {
      SameView(w, w', w'.readers[k]);
    }
  }

  lemma ReaderStep(w: World, a: Action, id: Rid)
    requires WorldInv(w) && Enabled(w, a) && !a.Write? && !a.Finish? && a.id == id
    ensures WorldInv(Next(w, a))
  {
    hide Inv, ReaderInv, EntriesIn;
    InvSane(w.ring);
    match a {
      case Open(_, from, n) => OpenKeeps(w, from, n);
      case ReadBefore(_, j) => ReadBeforeKeeps(w, w.readers[id], j);
      case ReadWord(_, at) =>
        var x := Visible(w.ring.file).vals[ValueAt(at.i, at.c, SlotAt(w.readers[id].from, at.j))];
        ReadWordKeeps(w, w.readers[id], at, x);
        SameEntries(w.commits, w.readers[id], w.readers[id].(words := w.readers[id].words[at := x]));
      case ReadAfter(_, j) =>
        ReadAfterKeeps(w, w.readers[id], j);
        SameEntries(w.commits, w.readers[id], SecondRead(w, w.readers[id], j));
    }
    hide WorldInv, StampRead, SecondRead;
    Replaced(w, id, Next(w, a).readers[id]);
  }

  lemma SameEntries(commits: set<Entry>, rd: Reader, rd': Reader)
    requires EntriesIn(commits, rd) && rd'.from == rd.from && rd'.before == rd.before && rd'.entry == rd.entry
    ensures EntriesIn(commits, rd')
  {
    assert forall j: nat :: Matched(rd', j) ==> Matched(rd, j);
  }

  lemma SameView(w: World, w': World, rd: Reader)
    requires Sane(w.ring.file) && w'.ring == w.ring && w'.zeros == w.zeros && w'.stamped == w.stamped
    ensures ReaderInv(w', rd) <==> ReaderInv(w, rd)
  {
    hide Matched, CellLaw, AllWords, AllBefore;
    assert forall j: nat :: StampLaw(w', rd, j) <==> StampLaw(w, rd, j);
    assert forall at :: at in rd.words ==> (WordLaw(w', rd, at) <==> WordLaw(w, rd, at));
  }

  lemma FinishStep(w: World, id: Rid)
    requires WorldInv(w) && Enabled(w, Finish(id))
    ensures WorldInv(Next(w, Finish(id)))
  {
    hide Inv;
    var w' := Next(w, Finish(id));
    assert Whole(w.stamped, w.readers[id]);
    hide ReaderInv, Whole;
    forall k | k in w'.readers ensures ReaderInv(w', w'.readers[k]) && EntriesIn(w'.commits, w'.readers[k]) {
      InvSane(w.ring);
      SameView(w, w', w'.readers[k]);
    }
  }

  lemma StartKeeps(r: Ring)
    requires Inv(r)
    ensures WorldInv(Start(r))
  {
    var w := Start(r);
    forall slot: nat | slot < MINUTES && Visible(r.file).stamps[slot] != 0 ensures slot in r.books && r.books[slot] in w.commits {
      VisibleMinute(r, slot);
    }
  }

  lemma {:induction false} ExecKeeps(r: Ring, actions: seq<Action>)
    requires Inv(r) && Exec(r, actions).Some?
    ensures WorldInv(Exec(r, actions).value)
  {
    hide Inv, WorldInv, Next, Enabled;
    if actions == [] {
      StartKeeps(r);
    } else {
      ExecKeeps(r, actions[..|actions| - 1]);
      ActionKeeps(Exec(r, actions[..|actions| - 1]).value, actions[|actions| - 1]);
    }
  }

  // ---------------------------------------------------------------- no torn reads

  /**
   * In every interleaving of the writer's operations, failures included, with
   * any number of readers: a cell a reader returns for a minute is the cell of
   * that series in one committed minute, average, minimum and maximum alike,
   * unless that very minute was stamped again between the two readings of its
   * stamp by that very reader.
   */
  lemma NoTornReads(r: Ring, actions: seq<Action>, k: nat, i: nat, j: nat)
    requires Inv(r) && Exec(r, actions).Some? && k < |Exec(r, actions).value.results|
    requires var rd := Exec(r, actions).value.results[k]; i < rd.series && j < rd.n && 0 < rd.from + j < STAMP_LIMIT
    ensures AllRead(Exec(r, actions).value.results[k], i, j)
    ensures !Restamped(Exec(r, actions).value.stamped, Exec(r, actions).value.results[k], j) ==>
              IsWhole(Exec(r, actions).value.commits, Exec(r, actions).value.results[k], i, j)
  {
    ExecKeeps(r, actions);
    hide Exec, AllRead, IsWhole;
    ResultWhole(Exec(r, actions).value, k, i, j);
  }

  /** Every word of the cell was read. */
  predicate AllRead(rd: Reader, i: nat, j: nat) {
    j in rd.before && j in rd.after && Spot(i, 0, j) in rd.words && Spot(i, 1, j) in rd.words && Spot(i, 2, j) in rd.words
  }

  /** The cell is a gap, or that of one committed minute. */
  ghost predicate IsWhole(commits: set<Entry>, rd: Reader, i: nat, j: nat)
    requires AllRead(rd, i, j)
  {
    CellRead(rd, i, j).Some? ==>
      j in rd.entry && rd.entry[j] in commits && rd.entry[j].minute == rd.from + j && CellRead(rd, i, j) == CellOf(rd.entry[j], i)
  }

  lemma ResultWhole(w: World, k: nat, i: nat, j: nat)
    requires WorldInv(w) && k < |w.results|
    requires var rd := w.results[k]; i < rd.series && j < rd.n && 0 < rd.from + j < STAMP_LIMIT
    ensures AllRead(w.results[k], i, j)
    ensures !Restamped(w.stamped, w.results[k], j) ==> IsWhole(w.commits, w.results[k], i, j)
  {
    var rd := w.results[k];
    assert Whole(w.stamped, rd) && EntriesIn(w.commits, rd);
    hide WorldInv;
    assert InWindow(rd, Spot(i, 0, j)) && InWindow(rd, Spot(i, 1, j)) && InWindow(rd, Spot(i, 2, j));
    assert CellLaw(w.stamped, rd, j);
  }
}

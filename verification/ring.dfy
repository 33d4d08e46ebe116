/**
 * The ring object (ring.go): a header and a file, every call a series of disk
 * operations that may each fail. A call performs exactly the operations of
 * RingProtocol.OpsOf in order, so everything proved of RingRuns holds at each
 * point inside it.
 */
module RingFiles {
  import opened Types
  import opened Disk
  import opened RingProtocol
  import opened RingSafety
  import opened RingSteps
  import opened RingRuns
  import opened RingStamps
  import opened RingMap

  /** A commit returned: its minute is the one kept in its slot (but for minute 0, which nothing shows), and nothing else changed. */
  ghost predicate Kept(r0: Ring, r: Ring, e: Entry) {
    && r.kept == KeptWith(r0.kept, e)
    && r.begun == r0.begun + [e.minute]
    && Unclean(r) <= Unclean(r0) - {SlotOf(e.minute)}
  }

  /** A commit failed: its slot keeps nothing, and nothing else changed. */
  ghost predicate Lost(r0: Ring, r: Ring, minute: nat) {
    && r.kept == r0.kept - {SlotOf(minute)}
    && r.begun == r0.begun + [minute]
    && Unclean(r) <= Unclean(r0) + {SlotOf(minute)}
  }

  /** No minute was committed, begun or lost. */
  ghost predicate SameBooks(r0: Ring, r: Ring) {
    r.kept == r0.kept && r.begun == r0.begun && Unclean(r) <= Unclean(r0)
  }

  datatype RingError = BadItem | BadKey | SeriesCap | BadWindow | Closed | Io

  datatype Outcome<+T> = Done(value: T) | Failure(error: RingError)

  /** The open file. Each operation succeeds, or fails after writing any part of it. */
  class DiskFile {
    var state: File
    var tried: nat               // operations so far
    const works: nat -> bool     // which of them succeed: the disk's choice

    constructor (f: File, works: nat -> bool)
      ensures state == f && tried == 0 && this.works == works
    {
      state, tried, this.works := f, 0, works;
    }

    /** Every operation since the given number of them succeeded. */
    ghost predicate AllWorked(since: nat)
      reads `tried
    {
      since <= tried && forall k: nat :: since <= k < tried ==> works(k)
    }

    method Do(op: DiskOp) returns (ok: bool, parts: seq<Write>)
      requires Sane(state) && OpInRange(op)
      modifies this
      ensures Sane(state) && tried == old(tried) + 1 && ok == works(old(tried))
      ensures ok ==> state == Succeeded(old(state), op)
      ensures !ok ==> Failed(old(state), op, parts) && state == Issued(old(state), parts)
    {
      ok := works(tried);
      tried := tried + 1;
      parts := [];
      WritesInRange(op, WritesOf(op));
      if ok {
        state := Succeeded(state, op);
      } else {
        parts := SomeOf(op);
        WritesInRange(op, parts);
        state := Issued(state, parts);
      }
    }

    /** Any of the words of op, or a torn header copy. */
    method SomeOf(op: DiskOp) returns (parts: seq<Write>)
      ensures Failed(state, op, parts)
    {
      parts := [];
      var all := WritesOf(op);
      for i := 0 to |all|
        invariant Failed(state, op, parts)
      {
        if * {
          parts := parts + [all[i]];
        }
      }
      if op.WriteHeader? {
        if * {
          parts := parts + [TearW(op.copy)];
        }
      }
    }
  }

  class RingFile {
    const file: DiskFile
    var hdr: Header           // latest durable header
    var cur: nat              // copy holding hdr
    var keys: seq<string>     // published for readers
    var forgotten: int        // published for readers
    var closed: bool
    ghost var ring: Ring      // the same ring as a state of RingRuns
    ghost var began: nat      // disk operations before the last call that wrote

    ghost predicate Valid()
      reads this, file
    {
      && ring.call.None? && ring.file == file.state && ring.hdr == hdr && ring.cur == cur
      && Inv(ring)
      && keys == hdr.keys && forgotten == hdr.forgotten
    }

    /** The ring between two operations of a call. */
    ghost predicate During()
      reads this, file
    {
      && ring.file == file.state && ring.hdr == hdr && ring.cur == cur && cur < 2
      && Sane(ring.file) && Inv(ring)
    }

    /** The run of operations that led from r0, when call started, to here. */
    ghost predicate Traced(r0: Ring, call: Call, steps: seq<RingRuns.Step>)
      reads `ring
    {
      Exec(r0, steps) == Some(ring) && |steps| >= 1 && steps[0] == Begin(call)
    }

    /** done operations of call succeeded since r0. */
    ghost predicate Midway(r0: Ring, call: Call, done: nat, steps: seq<RingRuns.Step>)
      reads this, file
    {
      && During() && Traced(r0, call, steps)
      && ring.call == Some(call) && ring.done == done
      && Since(r0, ring, call) && began <= file.tried && file.AllWorked(began)
    }

    /** What an unfinished or failed call did to the books since r0: it began, and its own slot alone may have suffered. */
    static ghost predicate Since(r0: Ring, r: Ring, call: Call) {
      && r.kept == r0.kept - Dropped(call)
      && r.begun == r0.begun + CommitOf(call)
      && Unclean(r) <= Unclean(r0) + Dropped(call)
    }

    /** call returned an error, because an operation failed. */
    ghost predicate Stopped(r0: Ring, call: Call, steps: seq<RingRuns.Step>)
      reads this, file
    {
      && During() && Traced(r0, call, steps)
      && ring.call == None && Since(r0, ring, call) && FailedSince(began)
    }

    /** An operation of the disk failed since. */
    ghost predicate FailedSince(since: nat)
      reads file
    {
      since < file.tried && !file.AllWorked(since)
    }

    /** A new ring. The image is written to a temporary file, synced and renamed into place before it is opened. */
    constructor Create(item: string, works: nat -> bool)
      requires 1 <= |item| <= MAX_ITEM_LEN
      ensures Valid() && ring == Created(item) && !closed && fresh(file) && file.works == works
    {
      var r := Created(item);
      file := new DiskFile(r.file, works);
      hdr, cur, keys, forgotten, closed := r.hdr, 0, [], 0, false;
      ring := r;
      new;
      CreatedInv(item);
    }

    /** The same behind the checks and the system calls, all of which work or not (made); on an error there is no ring. */
    static method CreateRing(item: string, made: bool, works: nat -> bool) returns (r: Outcome<RingFile>)
      ensures r == Failure(BadItem) <==> !(1 <= |item| <= MAX_ITEM_LEN)
      ensures r == Failure(Io) <==> 1 <= |item| <= MAX_ITEM_LEN && !made
      ensures r.Failure? ==> r.error == BadItem || r.error == Io
      ensures r.Done? ==> fresh(r.value) && fresh(r.value.file) && r.value.Valid() && r.value.ring == Created(item) && !r.value.closed
    {
      if |item| < 1 || |item| > MAX_ITEM_LEN {
        return Failure(BadItem);
      }
      if !made {
        return Failure(Io);
      }
      var made := new RingFile.Create(item, works);
      r := Done(made);
    }

    /** Opens again what a power loss left of a ring in state r: the copy that decodes with the higher number. */
    constructor Reopen(img: Image, works: nat -> bool, ghost r: Ring)
      requires Inv(r) && CrashImage(r.file, img)
      ensures Valid() && Enabled(r, Crash(img)) && ring == Next(r, Crash(img)) && !closed && fresh(file) && file.works == works
    {
      SafeParses(r.file, r.hdr, r.cur, r.books, r.tried, r.width, img);
      file := new DiskFile(File(img, []), works);
      var (h, c) := Parse(img).value;
      hdr, cur, keys, forgotten, closed := h, c, h.keys, h.forgotten, false;
      ring := Next(r, Crash(img));
      new;
      CrashKeeps(r, img);
    }

    // ---------------------------------------------------------------- one operation

    /** The slot a call takes back before it writes. */
    static ghost function Dropped(call: Call): set<nat> {
      if call.Commit? then {SlotOf(call.minute)} else {}
    }

    /** Starts a call: from here on the ring is between two of its operations. */
    ghost method Start(call: Call) returns (steps: seq<RingRuns.Step>)
      requires Valid() && Accepts(hdr, call)
      modifies `ring, `began
      ensures Midway(old(ring), call, 0, steps) && began == file.tried
    {
      began := file.tried;
      InvSane(ring);
      var r0 := ring;
      steps := [Begin(call)];
      assert steps[..0] == [] && Exec(r0, []) == Some(r0);
      hide Inv;
      StepKeeps(r0, Begin(call));
      InvSane(Next(r0, Begin(call)));
      StepShape(r0, Begin(call));
      StepUnclean(r0, Begin(call), Dropped(call));
      ring := Next(r0, Begin(call));
      assert Since(r0, ring, call);
      assert Exec(r0, steps) == Some(ring);
    }

    /** One operation of the call in progress, as a step of RingRuns. */
    method DoNext(op: DiskOp, ghost r0: Ring, ghost before: seq<RingRuns.Step>) returns (ok: bool, ghost steps: seq<RingRuns.Step>)
      requires During() && Running(ring) && OpInRange(op) && op == NextOp(ring)
      requires Exec(r0, before) == Some(ring)
      modifies file, `ring
      ensures ring.file == file.state && Sane(ring.file) && Inv(ring)
      ensures Exec(r0, steps) == Some(ring) && |steps| == |before| + 1 && steps[..|before|] == before
      ensures if ok then steps[|before|] == Succeed else steps[|before|].Fail?
      ensures Advanced(old(ring), ring, ok)
      ensures file.tried == old(file.tried) + 1
      ensures began <= old(file.tried) ==> (file.AllWorked(began) <==> old(file.AllWorked(began)) && ok)
    {
      hide Inv, OpsOf;
      InvSane(ring);
      ghost var r := ring;
      var parts;
      ok, parts := file.Do(op);
      ghost var step := if ok then Succeed else Fail(parts);
      steps := before + [step];
      assert steps[..|before|] == before;
      StepKeeps(r, step);
      StepShape(r, step);
      PutsTouched(r, step);
      StepUnclean(r, step, Dropped(r.call.value));
      if ok && r.call.value.Commit? && r.done + 1 == |OpsOf(r.call.value, r.hdr, r.cur)| {
        ReturnedClean(r);
      }
      DoneFile(r, step);
      hide Next;
      ring := Next(r, step);
      InvSane(ring);
    }

    /** Where the call in progress is after its next operation. */
    static ghost predicate Advanced(r: Ring, r': Ring, ok: bool)
      requires Running(r)
    {
      && (!ok ==> r'.call == None && r'.hdr == r.hdr && r'.cur == r.cur && r'.kept == r.kept)
      && (ok && r.done + 1 < |OpsOf(r.call.value, r.hdr, r.cur)| ==>
            r'.call == r.call && r'.done == r.done + 1 && r'.hdr == r.hdr && r'.cur == r.cur && r'.kept == r.kept)
      && (ok && r.done + 1 == |OpsOf(r.call.value, r.hdr, r.cur)| ==>
            && r'.call == None && r'.hdr == HeaderAfter(r.hdr, r.call.value)
            && r'.cur == (if r.call.value.Commit? then r.cur else 1 - r.cur)
            && r'.kept == (if r.call.value.Commit? then KeptWith(r.kept, EntryOf(r)) else r.kept)
            && (r.call.value.Commit? ==> SlotOf(r.call.value.minute) !in Unclean(r')))
      && r'.begun == r.begun
      && Unclean(r') <= Unclean(r) + Dropped(r.call.value)
    }

    lemma DoneFile(r: Ring, step: RingRuns.Step)
      requires Enabled(r, step) && (step.Succeed? || step.Fail?)
      ensures step.Succeed? ==> Next(r, step).file == Succeeded(r.file, NextOp(r))
      ensures step.Fail? ==> Next(r, step).file == Issued(r.file, step.parts)
    {
      hide OpsOf;
    }

    lemma PutsTouched(r: Ring, step: RingRuns.Step)
      requires Inv(r) && Enabled(r, step) && Running(r)
      ensures StampPut(r, step).Some? ==> StampPut(r, step).value.0 in Dropped(r.call.value)
    {
      hide Safe, Remembers, Progress, CommitOps;
      if r.call.value.Commit? {
        NextOfCommit(r);
      }
    }

    // ---------------------------------------------------------------- writers

    /** The next operation of a commit, when it is not the last. */
    method CommitStep(op: DiskOp, ghost r0: Ring, ghost call: Call, ghost before: seq<RingRuns.Step>)
      returns (ok: bool, ghost steps: seq<RingRuns.Step>)
      requires call.Commit? && Midway(r0, call, ring.done, before)
      requires ring.done + 1 < 3 * |hdr.keys| + 4
      requires Running(ring) ==> op == NextOp(ring)
      modifies file, `ring
      ensures ok ==> Midway(r0, call, old(ring.done) + 1, steps)
      ensures !ok ==> Stopped(r0, call, steps)
    {
      hide Inv, Exec, CommitOps;
      CommitLength(ring);
      ok, steps := DoNext(op, r0, before);
    }

    lemma CommitLength(r: Ring)
      requires Inv(r) && r.call.Some? && r.call.value.Commit? && r.cur < 2 && r.done < 3 * |r.hdr.keys| + 4
      ensures |OpsOf(r.call.value, r.hdr, r.cur)| == 3 * |r.hdr.keys| + 4
      ensures Running(r) && OpInRange(NextOp(r))
    {
      hide Inv;
      NextOfCommit(r);
    }

    /** The three words of one series. */
    method WriteCell(i: nat, slot: nat, v: Cell, ghost r0: Ring, ghost call: Call, ghost before: seq<RingRuns.Step>)
      returns (ok: bool, ghost steps: seq<RingRuns.Step>)
      requires i < |hdr.keys| && call.Commit? && slot == SlotOf(call.minute) && v == RowOf(|hdr.keys|, call.vals)[i]
      requires Midway(r0, call, 3 * i + 2, before)
      modifies file, `ring
      ensures ok ==> Midway(r0, call, 3 * i + 5, steps)
      ensures !ok ==> Stopped(r0, call, steps)
    {
      hide Inv, Exec, CommitOps;
      ok, steps := true, before;
      for c := 0 to 3
        invariant ok && Midway(r0, call, 3 * i + 2 + c, steps)
      {
        CommitLength(ring);
        NextOfCommit(ring);
        assert (ring.done - 2) / 3 == i && (ring.done - 2) % 3 == c;
        ok, steps := CommitStep(WriteValue(ValueAt(i, c, slot), WordOf(v, c)), r0, call, steps);
        if !ok { return; }
      }
    }

    /** Zero the stamp, sync, write every value, sync. */
    method WriteRow(minute: nat, vals: map<int, MinuteValue>, ghost r0: Ring, ghost before: seq<RingRuns.Step>)
      returns (ok: bool, ghost steps: seq<RingRuns.Step>)
      requires Midway(r0, Commit(minute, vals), 0, before)
      modifies file, `ring
      ensures ok ==> Midway(r0, Commit(minute, vals), 3 * |hdr.keys| + 3, steps)
      ensures !ok ==> Stopped(r0, Commit(minute, vals), steps)
    {
      hide Inv, Exec, CommitOps, RowOf;
      var slot := SlotOf(minute);
      ghost var call := Commit(minute, vals);
      CommitLength(ring);
      NextOfCommit(ring);
      ok, steps := CommitStep(WriteStamp(slot, 0), r0, call, before);
      if !ok { return; }
      CommitLength(ring);
      NextOfCommit(ring);
      ok, steps := CommitStep(Sync, r0, call, steps);
      if !ok { return; }
      for i := 0 to |hdr.keys|
        invariant ok && Midway(r0, call, 3 * i + 2, steps)
      {
        var v := if i in vals then Some(vals[i]) else None;
        RowAt(|hdr.keys|, vals, i);
        ok, steps := WriteCell(i, slot, v, r0, call, steps);
        if !ok { return; }
      }
      CommitLength(ring);
      NextOfCommit(ring);
      ok, steps := CommitStep(Sync, r0, call, steps);
    }

    lemma RowAt(n: nat, vals: map<int, MinuteValue>, i: nat)
      requires i < n
      ensures |RowOf(n, vals)| == n && RowOf(n, vals)[i] == if i in vals then Some(vals[i]) else None
    {
    }

    /** Commits a minute. On success it is the one kept in its slot; on failure the slot holds nothing or a whole minute. */
    method WriteMinute(minute: nat, vals: map<int, MinuteValue>) returns (ok: bool, ghost steps: seq<RingRuns.Step>)
      requires Valid() && minute < STAMP_LIMIT
      modifies file, `ring, `began
      ensures Valid() && Traced(old(ring), Commit(minute, vals), steps)
      ensures old(file.tried) < file.tried && (ok <==> file.AllWorked(old(file.tried)))
      ensures if ok then Kept(old(ring), ring, Entry(minute, RowOf(|hdr.keys|, vals))) else Lost(old(ring), ring, minute)
    {
      hide Inv, Exec, CommitOps, RowOf, DiskFile.AllWorked;
      ghost var r0 := ring;
      ghost var call := Commit(minute, vals);
      steps := Start(call);
      ok, steps := WriteRow(minute, vals, r0, steps);
      if !ok { return; }
      CommitLength(ring);
      NextOfCommit(ring);
      ok, steps := DoNext(WriteStamp(SlotOf(minute), minute), r0, steps);
    }

    /** Makes the header of call durable in the copy that does not hold the current one. */
    method WriteHeader(ghost r0: Ring, ghost call: Call, h: Header, ghost before: seq<RingRuns.Step>)
      returns (ok: bool, ghost steps: seq<RingRuns.Step>)
      requires !call.Commit? && h == HeaderAfter(hdr, call)
      requires Midway(r0, call, if call.AddSeries? then 2 else 0, before)
      modifies file, this
      ensures Valid() && Traced(r0, call, steps) && SameBooks(r0, ring)
      ensures hdr == if ok then h else old(hdr)
      ensures closed == old(closed)
      ensures old(file.tried) < file.tried && began == old(began) && (ok <==> file.AllWorked(began))
    {
      hide Inv, Exec, HeaderAfter, BlockWrites, DiskFile.AllWorked;
      ok, steps := DoNext(DiskOp.WriteHeader(1 - cur, h), r0, before);
      if ok {
        ok, steps := DoNext(Sync, r0, steps);
      }
      if ok {
        hdr, cur := h, 1 - cur;
      }
      keys, forgotten := hdr.keys, hdr.forgotten;
      KeptSame(ring.kept, r0.kept);
    }

    lemma KeptSame(a: map<nat, Entry>, b: map<nat, Entry>)
      ensures b - {} == b
    {
    }

    method IndexOf(key: string) returns (i: int)
      ensures -1 <= i < |hdr.keys|
      ensures if i < 0 then key !in hdr.keys else hdr.keys[i] == key
    {
      for k := 0 to |hdr.keys|
        invariant key !in hdr.keys[..k]
      {
        if hdr.keys[k] == key {
          return k;
        }
      }
      return -1;
    }

    /** Writes the columns of a new series, all gaps, then the header that lists it. */
    method AppendSeries(key: string) returns (ok: bool, ghost steps: seq<RingRuns.Step>)
      requires Valid() && Accepts(hdr, Call.AddSeries(key))
      modifies file, this
      ensures Valid() && closed == old(closed) && SameBooks(old(ring), ring)
      ensures Traced(old(ring), Call.AddSeries(key), steps)
      ensures hdr == if ok then HeaderAfter(old(hdr), Call.AddSeries(key)) else old(hdr)
      ensures old(file.tried) < file.tried && (ok <==> file.AllWorked(old(file.tried)))
    {
      hide Inv, Exec, BlockWrites;
      InvSane(ring);
      ghost var r0 := ring;
      ghost var call := Call.AddSeries(key);
      steps := Start(call);
      ok, steps := DoNext(WriteBlock(ValueAt(|hdr.keys|, 0, 0), 3 * MINUTES), r0, steps);
      if ok {
        ok, steps := DoNext(Sync, r0, steps);
      }
      if !ok {
        keys := hdr.keys;
        KeptSame(ring.kept, r0.kept);
        return;
      }
      ok, steps := WriteHeader(r0, call, hdr.(keys := hdr.keys + [key], number := hdr.number + 1), steps);
    }

    /** The index of key, a new one after the others if it has none. */
    method AddSeries(key: string) returns (r: Outcome<nat>, ghost steps: seq<RingRuns.Step>)
      requires Valid()
      modifies file, this
      ensures Valid() && closed == old(closed) && SameBooks(old(ring), ring)
      ensures Exec(old(ring), steps) == Some(ring)
      ensures r == Failure(BadKey) <==> !KeyInBounds(key)
      ensures r == Failure(SeriesCap) <==> KeyInBounds(key) && key !in old(hdr.keys) && |old(hdr.keys)| == MAX_SERIES
      ensures r == Failure(Io) <==> !file.AllWorked(old(file.tried))
      ensures r.Failure? ==> r.error == BadKey || r.error == SeriesCap || r.error == Io
      ensures old(file.tried) <= file.tried
      ensures r.Done? ==> r.value < |hdr.keys| && hdr.keys[r.value] == key
      ensures hdr.keys == if r.Done? && key !in old(hdr.keys) then old(hdr.keys) + [key] else old(hdr.keys)
      ensures hdr.forgotten == old(hdr.forgotten) && hdr.name == old(hdr.name)
    {
      hide Inv;
      InvSane(ring);
      KeysWithinCap(ring);
      steps := [];
      if |key| < 1 || |key| > MAX_KEY_LEN {
        return Failure(BadKey), steps;
      }
      var i := IndexOf(key);
      if i >= 0 {
        return Done(i), steps;
      }
      var n := |hdr.keys|;
      if n >= MAX_SERIES {
        return Failure(SeriesCap), steps;
      }
      hide Exec;
      var ok;
      ok, steps := AppendSeries(key);
      r := if ok then Done(n) else Failure(Io);
    }

    lemma KeysWithinCap(r: Ring)
      requires Inv(r)
      ensures |r.hdr.keys| <= MAX_SERIES
    {
    }

    /** Marks the item forgotten at a time, or alive again with 0. */
    method SetForgotten(at: int) returns (ok: bool, ghost steps: seq<RingRuns.Step>)
      requires Valid()
      modifies file, this
      ensures Valid() && closed == old(closed) && SameBooks(old(ring), ring)
      ensures Traced(old(ring), Call.SetForgotten(at), steps)
      ensures forgotten == if ok then at else old(forgotten)
      ensures old(file.tried) < file.tried && (ok <==> file.AllWorked(old(file.tried)))
      ensures hdr.keys == old(hdr.keys) && hdr.name == old(hdr.name)
    {
      hide Inv, Exec;
      ghost var r0 := ring;
      ghost var call := Call.SetForgotten(at);
      steps := Start(call);
      ok, steps := WriteHeader(r0, call, hdr.(forgotten := at, number := hdr.number + 1), steps);
    }

    /** Later reads return an error. */
    method Close()
      requires Valid()
      modifies `closed
      ensures Valid() && closed
    {
      closed := true;
    }

    // ---------------------------------------------------------------- readers

    /** n words of a column, from the slot of minute from on, in one or two pieces when the window wraps. */
    method ReadPieces<T>(column: seq<T>, from: int, n: nat) returns (out: seq<T>)
      requires |column| == MINUTES && 1 <= n <= MINUTES
      ensures |out| == n && forall j: nat :: j < n ==> out[j] == column[SlotOf(from + j)]
    {
      var first := SlotOf(from);
      var count := Min(n, MINUTES - first);
      out := column[first..first + count];
      var rest := n - count;
      if rest > 0 {
        out := out + column[0..rest];
      }
      forall j: nat | j < n ensures out[j] == column[SlotOf(from + j)] {
        SlotsAhead(from, j);
      }
    }

    lemma SlotsAhead(from: int, j: nat)
      requires j < MINUTES
      ensures SlotOf(from + j) == if SlotOf(from) + j < MINUTES then SlotOf(from) + j else SlotOf(from) + j - MINUTES
    {
    }

    /** Column c of series i. */
    static function ColumnOf(img: Image, i: nat, c: nat): (column: seq<Num>)
      requires c < 3 && ValueAt(i + 1, 0, 0) <= |img.vals|
      ensures |column| == MINUTES
      ensures forall slot: nat {:trigger column[slot]} {:trigger ValueAt(i, c, slot)} :: slot < MINUTES ==>
                ValueAt(i, c, slot) < |img.vals| && column[slot] == img.vals[ValueAt(i, c, slot)]
    {
      var base := ValueAt(i, c, 0);
      assert base + MINUTES <= ValueAt(i + 1, 0, 0);
      img.vals[base..base + MINUTES]
    }

    /** n words of column c of series i. */
    method ReadColumn(i: nat, c: nat, from: int, n: nat) returns (out: seq<Num>)
      requires Valid() && i < |keys| && c < 3 && 1 <= n <= MINUTES
      ensures Sane(file.state) && ValueAt(i + 1, 0, 0) <= |Visible(file.state).vals|
      ensures |out| == n && forall j: nat :: j < n ==> out[j] == ColumnOf(Visible(file.state), i, c)[SlotOf(from + j)]
    {
      InvSane(ring);
      SeriesInFile(ring, i);
      hide Inv, Visible, SlotOf, ColumnOf;
      out := ReadPieces(ColumnOf(Visible(file.state), i, c), from, n);
    }

    /** The cells of one series, from the stamps read before and after its columns. */
    method BuildCells(from: int, n: nat, before: seq<nat>, after: seq<nat>, a: seq<Num>, lo: seq<Num>, hi: seq<Num>) returns (cells: seq<Cell>)
      requires |before| == n && |after| == n && |a| == n && |lo| == n && |hi| == n
      ensures |cells| == n
      ensures forall j: nat :: j < n ==>
                cells[j] == (if before[j] == (from + j) % STAMP_LIMIT && after[j] == (from + j) % STAMP_LIMIT && a[j].Val? && lo[j].Val? && hi[j].Val?
                             then Some(MinuteValue(a[j].r, lo[j].r, hi[j].r)) else None)
    {
      cells := [];
      for j := 0 to n
        invariant |cells| == j
        invariant forall k: nat :: k < j ==>
                    cells[k] == (if before[k] == (from + k) % STAMP_LIMIT && after[k] == (from + k) % STAMP_LIMIT && a[k].Val? && lo[k].Val? && hi[k].Val?
                                 then Some(MinuteValue(a[k].r, lo[k].r, hi[k].r)) else None)
      {
        var want := (from + j) % STAMP_LIMIT;
        var cell: Cell := None;
        if before[j] == want && after[j] == want && a[j].Val? && lo[j].Val? && hi[j].Val? {
          cell := Some(MinuteValue(a[j].r, lo[j].r, hi[j].r));
        }
        cells := cells + [cell];
      }
    }

    /** Series i over the window, with no writer at work. */
    method ReadSeries(i: nat, from: int, n: nat, before: seq<nat>, after: seq<nat>) returns (cells: seq<Cell>)
      requires Valid() && i < |keys| && 1 <= n <= MINUTES && Sane(file.state)
      requires |before| == n && forall j: nat :: j < n ==> before[j] == Visible(file.state).stamps[SlotOf(from + j)]
      requires after == before
      ensures ShowsSeries(i, from, n, cells)
    {
      hide Inv, Visible, SlotOf;
      var a := ReadColumn(i, 0, from, n);
      var lo := ReadColumn(i, 1, from, n);
      var hi := ReadColumn(i, 2, from, n);
      cells := BuildCells(from, n, before, after, a, lo, hi);
    }

    /** cells is series i of the file over n minutes from from. */
    ghost predicate ShowsSeries(i: nat, from: int, n: nat, cells: seq<Cell>)
      reads file
    {
      && |cells| == n && Sane(file.state) && ValueAt(i + 1, 0, 0) <= |Visible(file.state).vals|
      && forall j: nat :: j < n ==> cells[j] == ReadCell(Visible(file.state), i, from + j)
    }

    /** The key is asked for: all are when none is named. */
    predicate Asked(only: seq<string>, key: string) {
      only == [] || key in only
    }

    /** The cells of every series asked for over the minutes from..to, one per minute. readable: every read of the file works. */
    method ReadWindow(from: int, to: int, only: seq<string>, readable: bool) returns (r: Outcome<map<string, seq<Cell>>>)
      requires Valid()
      ensures to - from + 1 < 1 || to - from + 1 > MINUTES ==> r == Failure(BadWindow)
      ensures 1 <= to - from + 1 <= MINUTES && closed ==> r == Failure(Closed)
      ensures r == Failure(Io) <==> 1 <= to - from + 1 <= MINUTES && !closed && !readable
      ensures r.Done? <==> 1 <= to - from + 1 <= MINUTES && !closed && readable
      ensures r.Done? ==> forall k :: k in r.value <==> k in keys && Asked(only, k)
      ensures r.Done? ==> forall i: nat :: i < |keys| && Asked(only, keys[i]) ==> ShowsSeries(i, from, to - from + 1, r.value[keys[i]])
    {
      var n := to - from + 1;
      if n < 1 || n > MINUTES {
        return Failure(BadWindow);
      }
      if closed {
        return Failure(Closed);
      }
      InvSane(ring);
      KeysDistinct(ring);
      hide Inv, Visible, ReadCell, SlotOf;
      if !readable {
        return Failure(Io);
      }
      var before := ReadPieces(Visible(file.state).stamps, from, n);
      var after := ReadPieces(Visible(file.state).stamps, from, n);
      assert after == before;
      var res: map<string, seq<Cell>> := map[];
      for i := 0 to |keys|
        invariant forall k :: k in res <==> k in keys[..i] && Asked(only, k)
        invariant forall k: nat :: k < i && Asked(only, keys[k]) ==> ShowsSeries(k, from, n, res[keys[k]])
      {
        if !Asked(only, keys[i]) {
          continue;
        }
        var cells := ReadSeries(i, from, n, before, after);
        res := res[keys[i] := cells];
      }
      r := Done(res);
    }

    lemma KeysDistinct(r: Ring)
      requires Inv(r)
      ensures forall i, j :: 0 <= i < j < |r.hdr.keys| ==> r.hdr.keys[i] != r.hdr.keys[j]
    {
    }

    /** The newest committed minute, 0 when there is none. */
    method NewestMinute(readable: bool) returns (r: Outcome<nat>)
      requires Valid()
      ensures closed ==> r == Failure(Closed)
      ensures !closed && !readable ==> r == Failure(Io)
      ensures !closed && readable ==> r.Done?
      ensures r.Done? ==> Sane(file.state) && r.value == Newest(Visible(file.state).stamps)
    {
      if closed {
        return Failure(Closed);
      }
      InvSane(ring);
      if !readable {
        return Failure(Io);
      }
      var stamps := Visible(file.state).stamps;
      var m := 0;
      for i := 0 to |stamps|
        invariant m == Newest(stamps[..i])
      {
        assert stamps[..i + 1][..i] == stamps[..i];
        m := Max(m, stamps[i]);
      }
      assert stamps[..|stamps|] == stamps;
      r := Done(m);
    }
  }
}

/** One item of the store (type entry in store.go): its ring file, its live ring and its pending minute. */
module Entries {
  import opened Types
  import opened Ordering
  import opened Faults
  import opened Recorders
  import opened RecorderRuns
  import opened RecorderLogs
  import RingProtocol
  import RingSafety
  import RingStamps
  import RingRuns
  import LiveRings
  import RingFiles

  // ---------------------------------------------------------------- cleaning a sample

  /** What the caller is told about a key. */
  function RefusalOf(r: Recorder, smp: Sample, k: string): Option<Err>
    requires k in smp
  {
    if !RingProtocol.KeyInBounds(k) then Some(Wrap(Leaf(BadKey)))
    else if Refused(r, smp, k) then Some(Wrap(Leaf(SeriesCap)))
    else None
  }

  /** A bad key is one too long or empty; a cap error is for a worthy value that is not stored. */
  lemma RefusalMeans(r: Recorder, smp: Sample, k: string)
    requires |Held(r)| <= 48 && k in smp
    ensures RefusalOf(r, smp, k) == Some(Wrap(Leaf(BadKey))) <==> |k| < 1 || |k| > 63
    ensures RefusalOf(r, smp, k) == Some(Wrap(Leaf(SeriesCap))) <==> Worthy(smp, k) && k !in Cleaned(r, smp)
    ensures RefusalOf(r, smp, k).None? <==> !Refused(r, smp, k)
  {
    StoresAllItCan(r, smp);
    hide Held, HasRoom;
  }

  function FaultsOf(r: Recorder, smp: Sample, keys: seq<string>): seq<Err>
    requires forall k :: k in keys ==> k in smp
  {
    if keys == [] then []
    else
      var n := |keys| - 1;
      FaultsOf(r, smp, keys[..n]) + if RefusalOf(r, smp, keys[n]).Some? then [RefusalOf(r, smp, keys[n]).value] else []
  }

  /** Nothing, or one error for each refused key, joined, in the order of the keys. */
  ghost predicate Rejects(r: Recorder, smp: Sample, rejected: Option<Err>) {
    exists keys :: Ascending(keys) && (forall k :: k in keys <==> k in smp) && rejected == JoinAll(FaultsOf(r, smp, keys))
  }

  function JoinAll(errs: seq<Err>): Option<Err> {
    if errs == [] then None else Some(Joined(errs))
  }

  /** A refused key makes the error, and the error a partial one. */
  lemma RejectsIsPartial(r: Recorder, smp: Sample, rejected: Option<Err>)
    requires Rejects(r, smp, rejected)
    ensures rejected.Some? <==> exists k :: Refused(r, smp, k)
    ensures rejected.Some? ==> IsPartial(rejected)
  {
    var keys :| Ascending(keys) && (forall k :: k in keys <==> k in smp) && rejected == JoinAll(FaultsOf(r, smp, keys));
    FaultsIff(r, smp, keys);
    if rejected.Some? {
      AllPartial(rejected.value);
    }
  }

  lemma {:induction false} FaultsIff(r: Recorder, smp: Sample, keys: seq<string>)
    requires forall k :: k in keys ==> k in smp
    ensures FaultsOf(r, smp, keys) != [] <==> exists k :: k in keys && Refused(r, smp, k)
    ensures forall e :: e in FaultsOf(r, smp, keys) ==> e == Wrap(Leaf(BadKey)) || e == Wrap(Leaf(SeriesCap))
  {
    if keys != [] {
      var init, k := keys[..|keys| - 1], keys[|keys| - 1];
      FaultsIff(r, smp, init);
      assert k in keys && RefusalOf(r, smp, k).Some? == Refused(r, smp, k);
      assert forall x :: x in keys <==> x in init || x == k;
    }
  }

  lemma AllPartial(e: Err)
    requires e.Joined? && e.parts != [] && forall p :: p in e.parts ==> p == Wrap(Leaf(BadKey)) || p == Wrap(Leaf(SeriesCap))
    ensures IsPartialErr(e)
  {
    assert e.parts[0] in e.parts;
    assert Is(e.parts[0], BadKey) || Is(e.parts[0], SeriesCap);
    forall i | 0 <= i < |e.parts| ensures IsPartialErr(e.parts[i]) {
      assert e.parts[i] in e.parts;
    }
  }

  /** The number of keys held: those of the ring, and those of the pending minute it does not have. */
  method CountHeld(r: Recorder) returns (n: nat)
    requires Fits(r)
    ensures n == |Held(r)|
  {
    n := |r.known|;
    var rest := PendingKeys(r);
    ghost var counted := SetOf(r.known);
    DistinctSize(r.known);
    while rest != {}
      invariant rest <= PendingKeys(r)
      invariant counted + rest == Held(r) && SetOf(r.known) <= counted && counted !! (rest - SetOf(r.known))
      invariant n == |counted|
      decreases |rest|
    {
      var k :| k in rest;
      if k !in r.known {
        n, counted := n + 1, counted + {k};
      }
      rest := rest - {k};
    }
  }

  /** The newcomers among the first i keys. */
  function NewAmong(r: Recorder, smp: Sample, keys: seq<string>): set<string> {
    set k | k in keys && Newcomer(r, smp, k)
  }

  lemma AheadIsNewAmong(r: Recorder, smp: Sample, keys: seq<string>, i: nat)
    requires i < |keys| && Ascending(keys) && forall k :: k in keys <==> k in smp
    ensures Ahead(r, smp, keys[i]) == NewAmong(r, smp, keys[..i])
  {
    forall c ensures c in smp && Less(c, keys[i]) <==> c in keys[..i] {
      if c in smp {
        var j :| 0 <= j < |keys| && keys[j] == c;
        LessTotal(c, keys[i]);
        assert i < j ==> Less(keys[i], keys[j]);
      }
    }
  }

  function CleanedAmong(r: Recorder, smp: Sample, keys: seq<string>): map<string, real> {
    map k | k in keys && k in smp && IsStored(r, smp, k) :: smp[k].r
  }

  /** What the next key adds. */
  lemma NextKey(r: Recorder, smp: Sample, keys: seq<string>, i: nat)
    requires i < |keys| && Ascending(keys) && forall k :: k in keys <==> k in smp
    ensures var k, before := keys[i], NewAmong(r, smp, keys[..i]);
      && k !in before && NewAmong(r, smp, keys[..i + 1]) == (if Newcomer(r, smp, k) then before + {k} else before)
      && (HasRoom(r, smp, k) <==> k in Held(r) || |Held(r)| + |before| < MAX_SERIES)
    ensures var k := keys[i];
      && CleanedAmong(r, smp, keys[..i + 1]) ==
         (if IsStored(r, smp, k) then CleanedAmong(r, smp, keys[..i])[k := smp[k].r] else CleanedAmong(r, smp, keys[..i]))
      && FaultsOf(r, smp, keys[..i + 1]) ==
         FaultsOf(r, smp, keys[..i]) + (if RefusalOf(r, smp, k).Some? then [RefusalOf(r, smp, k).value] else [])
  {
    hide Newcomer, IsStored, RefusalOf, Held, Ahead, NewAmong, CleanedAmong, FaultsOf, Ascending;
    var k := keys[i];
    assert keys[..i + 1] == keys[..i] + [k];
    NotBefore(keys, i);
    AheadIsNewAmong(r, smp, keys, i);
    NewNext(r, smp, keys[..i], k);
    CleanedNext(r, smp, keys[..i], k);
    FaultsNext(r, smp, keys[..i], k);
  }

  lemma NotBefore(keys: seq<string>, i: nat)
    requires i < |keys| && Ascending(keys)
    ensures keys[i] !in keys[..i]
  {
    assert forall j :: 0 <= j < i ==> Less(keys[j], keys[i]);
  }

  lemma NewNext(r: Recorder, smp: Sample, keys: seq<string>, k: string)
    requires k !in keys
    ensures var before := NewAmong(r, smp, keys);
      k !in before && NewAmong(r, smp, keys + [k]) == if Newcomer(r, smp, k) then before + {k} else before
  {
    hide Newcomer;
  }

  lemma CleanedNext(r: Recorder, smp: Sample, keys: seq<string>, k: string)
    requires k in smp
    ensures var before := CleanedAmong(r, smp, keys);
      CleanedAmong(r, smp, keys + [k]) == if IsStored(r, smp, k) then before[k := smp[k].r] else before
  {
    hide HasRoom;
    assert !IsStored(r, smp, k) ==> CleanedAmong(r, smp, keys + [k]).Keys == CleanedAmong(r, smp, keys).Keys;
  }

  lemma FaultsNext(r: Recorder, smp: Sample, keys: seq<string>, k: string)
    requires k in smp && forall x :: x in keys ==> x in smp
    ensures FaultsOf(r, smp, keys + [k]) == FaultsOf(r, smp, keys) + if RefusalOf(r, smp, k).Some? then [RefusalOf(r, smp, k).value] else []
  {
    hide RefusalOf;
    assert (keys + [k])[..|keys|] == keys;
  }

  /** out, errs and n are those of the first i keys. */
  ghost predicate Partway(r: Recorder, smp: Sample, keys: seq<string>, i: nat, out: map<string, real>, errs: seq<Err>, n: nat)
    requires i <= |keys| && forall k :: k in keys <==> k in smp
  {
    && out == CleanedAmong(r, smp, keys[..i]) && errs == FaultsOf(r, smp, keys[..i])
    && n == Min(MAX_SERIES, |Held(r)| + |NewAmong(r, smp, keys[..i])|)
  }

  method CleanKey(r: Recorder, smp: Sample, ghost keys: seq<string>, k: string, ghost i: nat, out: map<string, real>, errs: seq<Err>, n: nat)
    returns (out': map<string, real>, errs': seq<Err>, n': nat)
    requires Ascending(keys) && (forall k :: k in keys <==> k in smp) && i < |keys| && k == keys[i]
    requires Partway(r, smp, keys, i, out, errs, n)
    ensures Partway(r, smp, keys, i + 1, out', errs', n')
  {
    NextKey(r, smp, keys, i);
    hide HasRoom, NewAmong, FaultsOf, CleanedAmong, Fits, Ascending, Held, RingProtocol.KeyInBounds, Storable;
    out', errs', n' := out, errs, n;
    var known := k in PendingKeys(r) || k in r.known;
    assert known <==> k in Held(r) by { HeldIs(r, k); }
    if !RingProtocol.KeyInBounds(k) {
      errs' := errs + [Wrap(Leaf(BadKey))];
      return;
    }
    if !Storable(smp[k]) {
      return;
    }
    if !known {
      if n >= MAX_SERIES {
        errs' := errs + [Wrap(Leaf(SeriesCap))];
        return;
      }
      n' := n + 1;
    }
    out' := out[k := smp[k].r];
  }

  lemma HeldIs(r: Recorder, k: string)
    ensures k in Held(r) <==> k in PendingKeys(r) || k in r.known
  {
  }

  /** Drops what is not stored and collects what the caller is told. */
  method Clean(r: Recorder, smp: Sample) returns (out: map<string, real>, rejected: Option<Err>)
    requires Fits(r)
    ensures out == Cleaned(r, smp) && Rejects(r, smp, rejected)
  {
    var n := CountHeld(r);
    var keys := Sort(smp.Keys);
    out := map[];
    var errs: seq<Err> := [];
    NoKeys(r, smp);
    assert Partway(r, smp, keys, 0, out, errs, n);
    hide Ascending, Partway;
    for i := 0 to |keys|
      invariant Partway(r, smp, keys, i, out, errs, n)
    {
      out, errs, n := CleanKey(r, smp, keys, keys[i], i, out, errs, n);
    }
    PartwayEnd(r, smp, keys, out, errs, n);
    rejected := JoinAll(errs);
  }

  lemma PartwayEnd(r: Recorder, smp: Sample, keys: seq<string>, out: map<string, real>, errs: seq<Err>, n: nat)
    requires (forall k :: k in keys <==> k in smp) && Partway(r, smp, keys, |keys|, out, errs, n)
    ensures out == Cleaned(r, smp) && errs == FaultsOf(r, smp, keys)
  {
    AllKeys(r, smp, keys);
  }

  lemma NoKeys(r: Recorder, smp: Sample)
    ensures CleanedAmong(r, smp, []) == map[] && NewAmong(r, smp, []) == {} && FaultsOf(r, smp, []) == []
  {
  }

  lemma AllKeys(r: Recorder, smp: Sample, keys: seq<string>)
    requires forall k :: k in keys <==> k in smp
    ensures keys[..|keys|] == keys && CleanedAmong(r, smp, keys) == Cleaned(r, smp)
  {
    hide IsStored;
  }

  // ---------------------------------------------------------------- committing a minute

  /** vals holds the summaries of the keys done, by series index. */
  ghost predicate Valued(vals: map<int, MinuteValue>, known: seq<string>, done: set<string>, acc: Acc) {
    && done <= SetOf(known) && done <= acc.Keys && Distinct(known)
    && (forall i :: i in vals <==> 0 <= i < |known| && known[i] in done)
    && (forall i :: i in vals ==> Summary(acc, known[i]) == Some(vals[i]))
  }

  lemma ValuedNext(vals: map<int, MinuteValue>, known: seq<string>, done: set<string>, acc: Acc, key: string, known': seq<string>, at: nat)
    requires Valued(vals, known, done, acc) && key in acc && Summary(acc, key).Some?
    requires known' == known || (known' == known + [key] && key !in known)
    requires at < |known'| && known'[at] == key
    ensures Valued(vals[at := Summary(acc, key).value], known', done + {key}, acc)
  {
    assert Distinct(known');
  }

  lemma ValuedRow(vals: map<int, MinuteValue>, known: seq<string>, acc: Acc)
    requires Valued(vals, known, acc.Keys, acc)
    ensures RingProtocol.RowOf(|known|, vals) == RowFor(acc, known)
  {
    var a, b := RingProtocol.RowOf(|known|, vals), RowFor(acc, known);
    forall i | 0 <= i < |known| ensures a[i] == b[i] {
      assert i !in vals ==> known[i] !in acc;
    }
  }

  /** The keys of the ring while the pending minute of r is being committed. */
  ghost predicate Growing(r: Recorder, known: seq<string>) {
    r.known <= known && Distinct(known) && SetOf(known) <= Held(r)
  }

  lemma GrowingNext(r: Recorder, known: seq<string>, key: string)
    requires Fits(r) && Growing(r, known) && key in PendingKeys(r)
    ensures RingProtocol.KeyInBounds(key)
    ensures key !in known ==> |known| < MAX_SERIES && Growing(r, known + [key])
  {
    assert key in Held(r);
    if key !in known {
      AddingFits(r, known, key);
      assert SetOf(known + [key]) == SetOf(known) + {key};
    }
  }

  /** Makes the series of one pending key; there is always room for it. */
  method AddOne(ring: RingFiles.RingFile, key: string, acc: Acc, vals: map<int, MinuteValue>, ghost r: Recorder, ghost done: set<string>)
    returns (ok: bool, vals': map<int, MinuteValue>)
    requires ring.Valid() && Fits(r) && r.acc == Some(acc) && key in acc && acc[key].n > 0
    requires Growing(r, ring.keys) && Valued(vals, ring.keys, done, acc)
    modifies ring, ring.file
    ensures ring.Valid() && Growing(r, ring.keys) && SameRing(ring)
    ensures old(ring.file.tried) <= ring.file.tried && (ok <==> ring.file.AllWorked(old(ring.file.tried)))
    ensures ok ==> Valued(vals', ring.keys, done + {key}, acc)
  {
    hide Fits, Growing, Valued, RingRuns.Inv, RingRuns.Exec, RingStamps.Unclean, Held;
    GrowingNext(r, ring.keys, key);
    ghost var known := ring.keys;
    var i, steps := ring.AddSeries(key);
    assert i.Failure? ==> i.error == RingFiles.Io;
    ok, vals' := i.Done?, vals;
    if ok {
      var a := acc[key];
      vals' := vals[i.value := MinuteValue(a.sum / a.n as real, a.min, a.max)];
      ValuedNext(vals, known, done, acc, key, ring.keys, i.value);
    }
  }

  /** Series were added at most. */
  twostate predicate SameRing(ring: RingFiles.RingFile)
    reads ring
  {
    && ring.closed == old(ring.closed) && ring.forgotten == old(ring.forgotten) && ring.hdr.name == old(ring.hdr.name)
    && RingFiles.SameBooks(old(ring.ring), ring.ring)
  }

  /** A ring between two calls. */
  ghost predicate Begins(r: RingSafety.Ring) {
    RingRuns.Inv(r) && r.call.None?
  }

  class Entry {
    const ring: RingFiles.RingFile
    const live: LiveRings.LiveRing
    var closed: bool
    var gone: bool            // removed from the store
    var last: Option<int>     // time of the last accepted sample
    var accMin: int           // minute of acc
    var acc: Option<Acc>      // pending minute
    ghost var h: History      // every call so far
    ghost const start: RingSafety.Ring  // the ring when the entry was made

    function Value(): Recorder
      reads this, ring
    {
      Recorder(last, acc, accMin, ring.keys, closed, gone)
    }

    /** Its parts are valid and its keys and counts within their bounds. */
    ghost predicate Sound()
      reads this, ring, ring.file, live, live.stamp, live.repr
    {
      && ring.Valid() && live.Valid() && Fits(Value())
      && (acc.Some? ==> 0 <= accMin < STAMP_LIMIT && forall k :: k in acc.value ==> acc.value[k].n > 0)
    }

    /** Sound, in the state its history led to, and the ring as that history left it. */
    ghost predicate Valid()
      reads this, ring, ring.file, live, live.stamp, live.repr
    {
      && Sound() && h.r == Value() && RecorderRuns.Inv(h) && Filed(h)
      && Begins(start) && Holds(start, h.ended, ring.ring)
    }

    constructor (r: RingFiles.RingFile)
      requires r.Valid()
      ensures Valid() && fresh(live) && fresh(live.stamp) && fresh(live.repr) && ring == r
      ensures h == Opened(r.keys) && start == r.ring
    {
      hide Fits, RecorderRuns.Inv, Filed, Holds, RingRuns.Inv, Distinct;
      ring := r;
      live := new LiveRings.LiveRing();
      closed, gone, last, accMin, acc := false, false, None, 0, None;
      h, start := Opened(r.keys), r.ring;
      new;
      KeysFit(r.ring);
      StartsOut(r.keys);
      StartHolds(r.ring);
    }

    /** Makes the series of every pending key, in byte order. */
    method AddAll() returns (ok: bool, vals: map<int, MinuteValue>)
      requires Sound() && acc.Some?
      modifies ring, ring.file
      ensures ring.Valid() && Growing(old(Value()), ring.keys) && SameRing(ring)
      ensures old(ring.file.tried) <= ring.file.tried && (ok <==> ring.file.AllWorked(old(ring.file.tried)))
      ensures ok ==> Valued(vals, ring.keys, acc.value.Keys, acc.value)
    {
      hide Fits, Growing, Valued, RingRuns.Inv, RingStamps.Unclean, Held;
      ghost var r := Value();
      StartGrowing(r, acc.value);
      var keys := Sort(acc.value.Keys);
      ok, vals := true, map[];
      assert SetOf(keys[..0]) == {};
      for i := 0 to |keys|
        invariant ok && ring.Valid() && Growing(r, ring.keys) && SameRing(ring)
        invariant old(ring.file.tried) <= ring.file.tried && ring.file.AllWorked(old(ring.file.tried))
        invariant Valued(vals, ring.keys, SetOf(keys[..i]), acc.value)
      {
        ok, vals := AddOne(ring, keys[i], acc.value, vals, r, SetOf(keys[..i]));
        if !ok { return; }
        assert SetOf(keys[..i + 1]) == SetOf(keys[..i]) + {keys[i]};
      }
      assert SetOf(keys[..|keys|]) == acc.value.Keys;
    }

    /**
     * Writes the pending minute: the mean, least and greatest of every pending
     * key. No key is ever turned down here: it fails exactly when an operation of
     * the disk does.
     */
    method Commit() returns (ok: bool, ghost fate: Fate)
      requires Sound() && acc.Some?
      modifies ring, ring.file
      ensures ring.Valid() && ring.closed == old(ring.closed) && ring.forgotten == old(ring.forgotten) && ring.hdr.name == old(ring.hdr.name)
      ensures fate == Fate(ok, ring.keys) && Possible(old(Value()), fate)
      ensures old(ring.file.tried) <= ring.file.tried && (ok <==> ring.file.AllWorked(old(ring.file.tried)))
      ensures if ok then Wrote(old(ring.ring), ring.ring, accMin, acc.value, ring.keys) else Dropped(old(ring.ring), ring.ring, accMin)
    {
      hide Fits, Growing, Valued, RingRuns.Inv, RingRuns.Exec, RingStamps.Unclean, Held, RingProtocol.RowOf, RowFor;
      ghost var r := Value();
      var vals;
      ok, vals := AddAll();
      fate := Fate(ok, ring.keys);
      if !ok {
        GrownPossible(r, ring.keys, fate);
        return;
      }
      AllGrown(r, acc.value, vals, ring.keys);
      ValuedRow(vals, ring.keys, acc.value);
      ghost var steps;
      ok, steps := ring.WriteMinute(accMin, vals);
      fate := Fate(ok, ring.keys);
      GrownPossible(r, ring.keys, fate);
    }

    /** Commits the pending minute when it is over, and opens one if none is open. */
    method Roll(at: int) returns (minute: int, committed: bool, failed: bool, ghost fate: Fate)
      requires Sound() && 0 <= at < STAMP_LIMIT * MINUTE
      modifies `last, `acc, `accMin, ring, ring.file
      ensures Sound()
      ensures Due(old(Value()), at) ==> Possible(old(Value()), fate)
      ensures Value() == Rolled(old(Value()), at, fate)
      ensures committed <==> Due(old(Value()), at) && fate.ok
      ensures Due(old(Value()), at) ==> (fate.ok <==> ring.file.AllWorked(old(ring.file.tried)))
      ensures failed <==> Due(old(Value()), at) && !fate.ok
      ensures Effect(old(Value()), at, old(ring.ring), minute, committed)
      ensures ring.closed == old(ring.closed) && ring.forgotten == old(ring.forgotten) && ring.hdr.name == old(ring.hdr.name)
    {
      hide Fits, RingRuns.Inv, Held, RowFor, FoldedIn, Possible, Distinct, Wrote, Dropped;
      ghost var r := Value();
      minute, committed, failed, fate := 0, false, false, Fate(false, ring.keys);
      var m := MinuteOf(at);
      MinuteInRange(at);
      if acc.Some? && m > accMin {
        committed, fate := Commit();
        if committed {
          minute := accMin;
        }
        failed := !committed;
        acc := None;
      }
      if acc.None? {
        acc, accMin := Some(map[]), m;
      }
      last := Some(at);
      RolledFits(r, at, fate);
    }

    /** Folds values into the minute of a time. */
    method Take(at: int, values: map<string, real>) returns (minute: int, committed: bool, failed: bool, ghost fate: Fate)
      requires Sound() && 0 <= at < STAMP_LIMIT * MINUTE
      requires |Held(Value()) + values.Keys| <= MAX_SERIES && forall k :: k in values ==> RingProtocol.KeyInBounds(k)
      modifies `last, `acc, `accMin, ring, ring.file
      ensures Sound()
      ensures Due(old(Value()), at) ==> Possible(old(Value()), fate)
      ensures Value() == Took(old(Value()), at, values, fate)
      ensures committed <==> Due(old(Value()), at) && fate.ok
      ensures Due(old(Value()), at) ==> (fate.ok <==> ring.file.AllWorked(old(ring.file.tried)))
      ensures failed <==> Due(old(Value()), at) && !fate.ok
      ensures Effect(old(Value()), at, old(ring.ring), minute, committed)
      ensures ring.closed == old(ring.closed) && ring.forgotten == old(ring.forgotten) && ring.hdr.name == old(ring.hdr.name)
    {
      hide Fits, RingRuns.Inv, Held, FoldedIn, Possible, Distinct, Wrote, Dropped, Rolled, Due, MinuteOf;
      ghost var r := Value();
      minute, committed, failed, fate := Roll(at);
      TookFits(r, at, values, fate);
      FoldedCounts(acc.value, values);
      var folded := FoldIn(acc.value, values);
      acc := Some(folded);
    }

    /** What a call does to the ring file. */
    ghost predicate Effect(r: Recorder, at: int, before: RingSafety.Ring, minute: int, committed: bool)
      reads ring
    {
      Changed(r, at, before, ring.ring, ring.keys, minute, committed)
    }

    /** Cleans a sample and records it, live and in the minute of its time. */
    method Accept(at: int, smp: Sample) returns (minute: int, committed: bool, err: Option<Err>, ghost fate: Fate)
      requires Sound() && 0 <= at < STAMP_LIMIT * MINUTE
      modifies `last, `acc, `accMin, live, live.stamp, live.repr, ring, ring.file
      ensures Sound() && live.NewColumns(old(live.repr))
      ensures Due(old(Value()), at) ==> Possible(old(Value()), fate)
      ensures Value() == Took(old(Value()), at, Cleaned(old(Value()), smp), fate)
      ensures committed <==> Due(old(Value()), at) && fate.ok
      ensures Due(old(Value()), at) ==> (fate.ok <==> ring.file.AllWorked(old(ring.file.tried)))
      ensures Effect(old(Value()), at, old(ring.ring), minute, committed)
      ensures Told(old(Value()), at, smp, fate, err)
      ensures live.Landed(old(live.log), Unix(at) / LiveRings.LIVE_STEP, Lifted(Cleaned(old(Value()), smp)))
      ensures ring.closed == old(ring.closed) && ring.forgotten == old(ring.forgotten) && ring.hdr.name == old(ring.hdr.name)
    {
      hide Fits, RingRuns.Inv, Held, Possible, Due, Took, Rejects, MinuteOf, Unix, Cleaned;
      ghost var r := Value();
      var values, rejected := Clean(Value(), smp);
      CleanedFits(r, smp);
      UnixPositive(at);
      live.Put(Unix(at), Lifted(values));
      var failed;
      minute, committed, failed, fate := Take(at, values);
      err := Join([if failed then Some(Leaf(Io)) else None, rejected]);
      TellsAll(r, at, smp, fate, rejected, failed, err);
    }

    /** What a call of Record did to the values, the ring and the live ring, and what it told. */
    twostate predicate Handled(at: int, smp: Sample, minute: int, committed: bool, new err: Option<Err>, fate: Fate)
      requires 0 <= at
      reads this, ring, ring.file, live
    {
      var r, r1 := old(Value()), Settled(old(Value()), at);
      && Value() == Recorded(r, at, smp, fate)
      && (Rolls(r, at) ==> Possible(r1, fate))
      && (committed <==> Rolls(r, at) && fate.ok)
      && (Rolls(r, at) ==> (fate.ok <==> ring.file.AllWorked(old(ring.file.tried))))
      && (if Admits(r, at)
          then
            && Effect(r1, at, old(ring.ring), minute, committed)
            && Told(r1, at, smp, fate, err)
            && live.Landed(if StepsBack(r, at) then [] else old(live.log), Unix(at) / LiveRings.LIVE_STEP, Lifted(Cleaned(r1, smp)))
          else ring.ring == old(ring.ring) && err == TurnedDown(r) && live.log == old(live.log))
      && ring.closed == old(ring.closed) && ring.forgotten == old(ring.forgotten) && ring.hdr.name == old(ring.hdr.name)
    }

    /** One sample of the item. A late one is turned down; one more than a minute back drops what is pending and live. */
    method Record(at: int, smp: Sample) returns (minute: int, committed: bool, err: Option<Err>, ghost fate: Fate)
      requires Valid() && 0 <= at < STAMP_LIMIT * MINUTE
      modifies this, live, live.stamp, live.repr, ring, ring.file
      ensures Valid() && live.NewColumns(old(live.repr))
      ensures Handled(at, smp, minute, committed, err, fate)
      ensures ErrorMeans(old(Value()), at, err)
      ensures Allowed(old(h), Input.Record(at, smp, fate)) && h == RecorderRuns.Next(old(h), Input.Record(at, smp, fate))
    {
      hide Fits, RingRuns.Inv, Held, Possible, Due, Took, MinuteOf, Unix, Cleaned, Changed, Told, live.Landed, Holds, RecorderRuns.Inv, Filed;
      hide RecorderRuns.Next, Recorded, ErrorMeans, TurnedDown, Admits, Rolls, Settled, StepsBack;
      ghost var before := h;
      ghost var ringBefore := ring.ring;
      minute, committed, err, fate := Handle(at, smp);
      ErrorIs(before.r, at, smp, fate, err);
      NextState(before, at, smp, fate);
      ghost var input := Input.Record(at, smp, fate);
      InputKeeps(before, input);
      FiledKeeps(before, input);
      RecordHolds(start, before, at, smp, fate, ringBefore, ring.ring, ring.keys, minute, committed);
      h := RecorderRuns.Next(before, input);
    }

    method Handle(at: int, smp: Sample) returns (minute: int, committed: bool, err: Option<Err>, ghost fate: Fate)
      requires Sound() && 0 <= at < STAMP_LIMIT * MINUTE
      modifies `last, `acc, `accMin, live, live.stamp, live.repr, ring, ring.file
      ensures Sound() && live.NewColumns(old(live.repr))
      ensures Handled(at, smp, minute, committed, err, fate)
    {
      hide Fits, RingRuns.Inv, Held, Possible, Due, Took, MinuteOf, Unix, Cleaned, Effect, Told, live.Landed;
      ghost var r := Value();
      minute, committed, err, fate := 0, false, None, Fate(false, ring.keys);
      if gone {
        err := Some(Leaf(Gone));
        return;
      }
      if closed {
        err := Some(Leaf(Closed));
        return;
      }
      if last.Some? && at < last.value {
        if last.value - at <= MINUTE {
          err := Some(Leaf(OutOfOrder));
          return;
        }
        acc := None;
        live.Reset();
        SettledFits(r, at);
      }
      minute, committed, err, fate := Accept(at, smp);
    }

    /** Commits what is pending, for good. */
    method Close() returns (minute: int, committed: bool, failed: bool, ghost fate: Fate)
      requires Valid() && !closed
      modifies this, ring, ring.file
      ensures Valid() && Value() == Shut(old(Value()), fate)
      ensures Allowed(old(h), Input.Close(fate)) && h == RecorderRuns.Next(old(h), Input.Close(fate))
      ensures Ended(old(Value()), old(ring.ring), fate, minute, committed, failed)
      ensures old(acc).Some? ==> (fate.ok <==> ring.file.AllWorked(old(ring.file.tried)))
      ensures ring.closed == old(ring.closed) && ring.forgotten == old(ring.forgotten) && ring.hdr.name == old(ring.hdr.name)
    {
      hide Fits, RingRuns.Inv, Held, Possible, Wrote, Dropped, Holds, RecorderRuns.Inv, Filed;
      ghost var before := h;
      ghost var ringBefore := ring.ring;
      minute, committed, failed, fate := Finish();
      ghost var input := Input.Close(fate);
      InputKeeps(before, input);
      FiledKeeps(before, input);
      CloseHolds(start, before, fate, ringBefore, ring.ring, minute, committed, failed);
      h := RecorderRuns.Next(before, input);
    }

    /** What Close did to the ring file: the pending minute whole, or nothing new. */
    ghost predicate Ended(r: Recorder, before: RingSafety.Ring, fate: Fate, minute: int, committed: bool, failed: bool)
      reads ring
    {
      && (r.acc.Some? ==> Possible(r, fate))
      && (committed <==> r.acc.Some? && fate.ok) && (failed <==> r.acc.Some? && !fate.ok)
      && (committed ==> minute == r.accMin >= 0 && Wrote(before, ring.ring, minute, r.acc.value, ring.keys))
      && (!committed ==> ring.ring == before || (r.acc.Some? && r.accMin >= 0 && Dropped(before, ring.ring, r.accMin)))
    }

    method Finish() returns (minute: int, committed: bool, failed: bool, ghost fate: Fate)
      requires Sound()
      modifies `closed, `acc, ring, ring.file
      ensures Sound() && Value() == Shut(old(Value()), fate)
      ensures Ended(old(Value()), old(ring.ring), fate, minute, committed, failed)
      ensures old(acc).Some? ==> (fate.ok <==> ring.file.AllWorked(old(ring.file.tried)))
      ensures !failed && !committed ==> ring.ring == old(ring.ring)
      ensures ring.closed == old(ring.closed) && ring.forgotten == old(ring.forgotten) && ring.hdr.name == old(ring.hdr.name)
    {
      hide Fits, RingRuns.Inv, Held, Possible, Wrote, Dropped;
      ghost var r := Value();
      minute, committed, failed, fate := 0, false, false, Fate(false, ring.keys);
      ClosingSame(r);
      closed := true;
      if acc.Some? {
        committed, fate := Commit();
        failed := !committed;
        minute := accMin;
        acc := None;
      }
      ShutFits(r, fate);
    }

    /** Marks the item forgotten at a time, or alive again with 0. */
    method SetForgotten(at: int) returns (ok: bool)
      requires Valid()
      modifies ring, ring.file
      ensures Valid() && Value() == old(Value()) && h == old(h) && RingFiles.SameBooks(old(ring.ring), ring.ring)
      ensures ring.forgotten == (if ok then at else old(ring.forgotten)) && ring.closed == old(ring.closed)
      ensures ok <==> ring.file.AllWorked(old(ring.file.tried))
    {
      hide RingRuns.Inv, RingRuns.Exec, Holds, Filed, Fits, RecorderRuns.Inv, RingFiles.SameBooks;
      ghost var before := ring.ring;
      ghost var steps;
      ok, steps := ring.SetForgotten(at);
      SameHolds(start, h.ended, before, ring.ring);
    }

    /** Takes the entry out of the store: no later call reaches it, and its ring is closed. */
    method Remove()
      requires Valid()
      modifies this, ring`closed
      ensures Valid() && Value() == old(Value()).(gone := true, closed := true)
      ensures !old(closed) ==> ring.closed
      ensures h == RecorderRuns.Next(old(h), Input.Remove) && ring.ring == old(ring.ring)
    {
      hide RingRuns.Inv, Holds, Filed, Fits, RecorderRuns.Inv;
      FiledKeeps(h, Input.Remove);
      InputKeeps(h, Input.Remove);
      InvFits(RecorderRuns.Next(h, Input.Remove));
      gone := true;
      if !closed {
        closed := true;
        ring.Close();
      }
      h := RecorderRuns.Next(h, Input.Remove);
    }
  }

  /** One whole minute is written, or nothing new. */
  ghost predicate Changed(r: Recorder, at: int, before: RingSafety.Ring, after: RingSafety.Ring, known: seq<string>, minute: int, committed: bool) {
    && (committed ==> minute == r.accMin && r.acc.Some? && minute >= 0 && Wrote(before, after, minute, r.acc.value, known))
    && (!committed ==> after == before || (Due(r, at) && r.accMin >= 0 && Dropped(before, after, r.accMin)))
  }

  lemma RecordHolds(start: RingSafety.Ring, h: History, at: int, smp: Sample, fate: Fate, before: RingSafety.Ring, after: RingSafety.Ring,
                    known: seq<string>, minute: int, committed: bool)
    requires RecorderRuns.Inv(h) && Holds(start, h.ended, before) && known == Recorded(h.r, at, smp, fate).known
    requires if Admits(h.r, at) then Changed(Settled(h.r, at), at, before, after, known, minute, committed) else after == before
    requires committed <==> Rolls(h.r, at) && fate.ok
    ensures Holds(start, RecorderRuns.Next(h, Input.Record(at, smp, fate)).ended, after)
  {
    hide Holds, RingStamps.Unclean, Fits, Ordered, OfMinute, SamplesOf, Gathered, RowFor, Cleaned, Recorded, MinuteOf;
    if Admits(h.r, at) {
      KnownAfter(h.r, at, smp, fate);
      if StepsBack(h.r, at) {
        EndedHolds(start, h, ClockStepped, h.r.known, before, after);
      } else if Rolls(h.r, at) {
        EndedHolds(start, h, EndOf(fate), fate.known, before, after);
      }
    }
  }

  lemma CloseHolds(start: RingSafety.Ring, h: History, fate: Fate, before: RingSafety.Ring, after: RingSafety.Ring,
                   minute: int, committed: bool, failed: bool)
    requires RecorderRuns.Inv(h) && Holds(start, h.ended, before)
    requires (committed <==> h.r.acc.Some? && fate.ok) && (failed <==> h.r.acc.Some? && !fate.ok)
    requires committed ==> minute == h.r.accMin >= 0 && Wrote(before, after, minute, h.r.acc.value, fate.known)
    requires !committed ==> after == before || (h.r.acc.Some? && h.r.accMin >= 0 && Dropped(before, after, h.r.accMin))
    ensures Holds(start, RecorderRuns.Next(h, Input.Close(fate)).ended, after)
  {
    hide Holds, RingStamps.Unclean, Fits, Ordered, OfMinute, SamplesOf, Gathered, RowFor;
    if h.r.acc.Some? {
      EndedHolds(start, h, EndOf(fate), fate.known, before, after);
    }
  }

  /** The pending minute ends. */
  lemma EndedHolds(start: RingSafety.Ring, h: History, end: End, known: seq<string>, before: RingSafety.Ring, after: RingSafety.Ring)
    requires PendingExact(h) && Holds(start, h.ended, before)
    requires end == ClockStepped ==> after == before
    requires h.r.acc.Some? && end == Committed ==> h.r.accMin >= 0 && Wrote(before, after, h.r.accMin, h.r.acc.value, known)
    requires h.r.acc.Some? && end == CommitFailed ==> after == before || (h.r.accMin >= 0 && Dropped(before, after, h.r.accMin))
    requires h.r.acc.None? ==> after == before
    ensures Holds(start, Over(h, end, known), after)
  {
    hide Holds, RingStamps.Unclean, OfMinute, Gathered, RowFor;
    if h.r.acc.Some? {
      EndHolds(start, h.ended, before, after, Batch(h.r.accMin, h.pending, end, h.era, known));
    }
  }

  lemma StartsOut(known: seq<string>)
    requires Fits(Opened(known).r)
    ensures RecorderRuns.Inv(Opened(known)) && Filed(Opened(known))
  {
  }

  lemma NextState(h: History, at: int, smp: Sample, fate: Fate)
    ensures RecorderRuns.Next(h, Input.Record(at, smp, fate)).r == Recorded(h.r, at, smp, fate)
  {
  }

  lemma InvFits(h: History)
    requires RecorderRuns.Inv(h)
    ensures Fits(h.r)
  {
  }

  lemma ClosingSame(r: Recorder)
    ensures var r' := r.(closed := true);
            (Fits(r') <==> Fits(r)) && forall fate :: Possible(r', fate) <==> Possible(r, fate)
  {
  }

  /** Why a call that is not admitted is turned down. */
  function TurnedDown(r: Recorder): Option<Err> {
    Some(Leaf(if r.gone then Gone else if r.closed then Closed else OutOfOrder))
  }

  /** The three errors of a sample that is not accepted, late meaning by 60 seconds at most. */
  ghost predicate ErrorMeans(r: Recorder, at: int, err: Option<Err>) {
    && (err == Some(Leaf(Gone)) <==> r.gone)
    && (err == Some(Leaf(Closed)) <==> !r.gone && r.closed)
    && (err == Some(Leaf(OutOfOrder)) <==> !r.gone && !r.closed && r.last.Some? && 0 < r.last.value - at <= 60_000_000_000)
  }

  lemma ErrorIs(r: Recorder, at: int, smp: Sample, fate: Fate, err: Option<Err>)
    requires if Admits(r, at) then Told(Settled(r, at), at, smp, fate, err) else err == TurnedDown(r)
    ensures ErrorMeans(r, at, err)
  {
    hide Settled;
  }

  function Lifted(values: map<string, real>): Sample {
    map k | k in values :: Fin(values[k])
  }

  /** No error when nothing was refused and no commit failed; a partial one exactly when keys were refused and no commit failed. */
  ghost predicate Told(r: Recorder, at: int, smp: Sample, fate: Fate, err: Option<Err>) {
    var refused, failed := exists k :: Refused(r, smp, k), Due(r, at) && !fate.ok;
    && (err.None? <==> !refused && !failed) && (err.Some? ==> err.value.Joined?)
    && (IsPartial(err) <==> refused && !failed)
  }

  lemma TellsAll(r: Recorder, at: int, smp: Sample, fate: Fate, rejected: Option<Err>, failed: bool, err: Option<Err>)
    requires Rejects(r, smp, rejected) && (failed <==> Due(r, at) && !fate.ok)
    requires err == Join([if failed then Some(Leaf(Io)) else None, rejected])
    ensures Told(r, at, smp, fate, err)
  {
    RejectsIsPartial(r, smp, rejected);
    hide Rejects, Refused, Due;
    JoinPartial(failed, rejected, err);
  }

  lemma JoinOfTwo(a: Option<Err>, b: Option<Err>)
    ensures Present([a, b]) == (if a.Some? then [a.value] else []) + (if b.Some? then [b.value] else [])
  {
    assert [a, b][..1] == [a] && [a][..0] == [];
    assert Present([a]) == [] + if a.Some? then [a.value] else [];
  }

  lemma JoinPartial(failed: bool, rejected: Option<Err>, err: Option<Err>)
    requires rejected.Some? ==> IsPartial(rejected)
    requires err == Join([if failed then Some(Leaf(Io)) else None, rejected])
    ensures err.None? <==> !failed && rejected.None?
    ensures IsPartial(err) <==> !failed && rejected.Some?
  {
    JoinOfTwo(if failed then Some(Leaf(Io)) else None, rejected);
    hide Present;
    if failed {
      assert !IsPartialErr(err.value.parts[0]);
    } else if rejected.Some? {
      var e := rejected.value;
      assert err.value == Joined([e]) && [e][0] == e;
      assert Is(err.value, SeriesCap) || Is(err.value, BadKey);
    }
  }

  /** What is stored of a sample keeps the recorder within its bounds. */
  lemma CleanedFits(r: Recorder, smp: Sample)
    requires Fits(r)
    ensures |Held(r) + Cleaned(r, smp).Keys| <= MAX_SERIES
    ensures forall k :: k in Cleaned(r, smp) ==> RingProtocol.KeyInBounds(k)
  {
    StoredFits(r, smp);
  }

  lemma UnixPositive(at: int)
    requires 0 <= at
    ensures Unix(at) >= 0
  {
  }

  lemma MinuteInRange(at: int)
    requires 0 <= at < STAMP_LIMIT * MINUTE
    ensures 0 <= MinuteOf(at) < STAMP_LIMIT
  {
  }

  /** Adds one value of each key, in any order. */
  method FoldIn(acc: Acc, values: map<string, real>) returns (res: Acc)
    ensures res == FoldedIn(acc, values)
  {
    res := acc;
    var todo := values.Keys;
    FoldedNone(acc);
    hide FoldedIn, OneMore;
    while todo != {}
      invariant todo <= values.Keys && res == FoldedIn(acc, values - todo)
      decreases |todo|
    {
      var k :| k in todo;
      FoldedOne(acc, values, todo, k);
      res := res[k := OneMore(res, k, values[k])];
      todo := todo - {k};
    }
    assert values - {} == values;
  }

  lemma FoldedNone(acc: Acc)
    ensures forall values: map<string, real> :: acc == FoldedIn(acc, values - values.Keys)
  {
  }

  /** The aggregate of a key with one value more. */
  function OneMore(acc: Acc, k: string, v: real): (a: Agg)
    ensures a.n > 0
  {
    if k !in acc then Agg(v, v, v, 1)
    else Agg(acc[k].sum + v, MinReal(acc[k].min, v), MaxReal(acc[k].max, v), acc[k].n + 1)
  }

  lemma FoldedOne(acc: Acc, values: map<string, real>, todo: set<string>, k: string)
    requires k in todo && todo <= values.Keys
    ensures FoldedIn(acc, values - (todo - {k})) == FoldedIn(acc, values - todo)[k := OneMore(FoldedIn(acc, values - todo), k, values[k])]
  {
    assert (values - (todo - {k})).Keys == (values - todo).Keys + {k};
  }

  lemma FoldedCounts(acc: Acc, values: map<string, real>)
    requires forall k :: k in acc ==> acc[k].n > 0
    ensures forall k :: k in FoldedIn(acc, values) ==> FoldedIn(acc, values)[k].n > 0
  {
  }

  /** The minute is the one kept in its slot, and nothing else changed. */
  ghost predicate Wrote(before: RingSafety.Ring, after: RingSafety.Ring, minute: nat, acc: Acc, known: seq<string>) {
    RingFiles.Kept(before, after, RingProtocol.Entry(minute, RowFor(acc, known)))
  }

  /** Nothing is kept that was not, and only the minute's own slot may have been lost. */
  ghost predicate Dropped(before: RingSafety.Ring, after: RingSafety.Ring, minute: nat) {
    RingFiles.SameBooks(before, after) || RingFiles.Lost(before, after, minute)
  }

  lemma GrownPossible(r: Recorder, known: seq<string>, fate: Fate)
    requires Growing(r, known) && fate.known == known && (fate.ok ==> Held(r) <= SetOf(known))
    ensures Possible(r, fate)
  {
  }

  lemma AllGrown(r: Recorder, acc: Acc, vals: map<int, MinuteValue>, known: seq<string>)
    requires r.acc == Some(acc) && Growing(r, known) && Valued(vals, known, acc.Keys, acc)
    ensures Held(r) <= SetOf(known)
  {
    assert forall k :: k in r.known ==> k in known;
  }

  lemma StartGrowing(r: Recorder, acc: Acc)
    requires Fits(r)
    ensures Growing(r, r.known) && Valued(map[], r.known, {}, acc)
  {
  }

  lemma KeysFit(r: RingSafety.Ring)
    requires RingRuns.Inv(r)
    ensures Fits(Recorder(None, None, 0, r.hdr.keys, false, false))
  {
    var x := Recorder(None, None, 0, r.hdr.keys, false, false);
    assert Distinct(x.known);
    DistinctSize(x.known);
    assert Held(x) == SetOf(x.known);
  }
}

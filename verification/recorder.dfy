/** What an item's recorder does with samples (entry.record, clean and commit in store.go), as values. Times are in nanoseconds. */
module Recorders {
  import opened Types
  import opened Ordering
  import opened RingProtocol
  import LiveRings
  import Queries

  const SECOND := 1_000_000_000
  const MINUTE := 60 * SECOND

  /** The largest finite 32-bit float. */
  const MAX_FLOAT32 := 340282346638528859811704183484516925440.0

  /** Whole seconds since 1970, rounded down. */
  function Unix(at: int): int {
    at / SECOND
  }

  /** The minute a time falls in; the source never asks before 1970. */
  function MinuteOf(at: int): int {
    TruncDiv(Unix(at), 60)
  }

  type Sample = LiveRings.Sample

  /** The samples of one key in the pending minute. */
  datatype Agg = Agg(sum: real, min: real, max: real, n: nat)

  type Acc = map<string, Agg>

  /**
   * last is the time of the last accepted sample, acc the pending minute accMin
   * if there is one, known the keys of the ring.
   */
  datatype Recorder = Recorder(last: Option<int>, acc: Option<Acc>, accMin: int, known: seq<string>, closed: bool, gone: bool)

  // ---------------------------------------------------------------- which values are stored

  predicate Storable(v: Float) {
    v.Fin? && -MAX_FLOAT32 <= v.r <= MAX_FLOAT32
  }

  function PendingKeys(r: Recorder): set<string> {
    if r.acc.Some? then r.acc.value.Keys else {}
  }

  function SetOf(keys: seq<string>): (res: set<string>)
    ensures forall k :: k in res <==> k in keys
  {
    set k | k in keys
  }

  /** The keys that count against the cap: those of the ring and those of the pending minute. */
  function Held(r: Recorder): set<string> {
    SetOf(r.known) + PendingKeys(r)
  }

  /** k carries a value to store under a key the item does not have. */
  predicate Newcomer(r: Recorder, smp: Sample, k: string) {
    k in smp && KeyInBounds(k) && Storable(smp[k]) && k !in Held(r)
  }

  function Ahead(r: Recorder, smp: Sample, k: string): set<string> {
    set c | c in smp && Newcomer(r, smp, c) && Less(c, k)
  }

  /** Whether the cap leaves room for k: new keys are let in by byte order, whatever order a map gives them in. */
  predicate HasRoom(r: Recorder, smp: Sample, k: string) {
    k in Held(r) || |Held(r)| + |Ahead(r, smp, k)| < MAX_SERIES
  }

  predicate IsStored(r: Recorder, smp: Sample, k: string) {
    k in smp && KeyInBounds(k) && Storable(smp[k]) && HasRoom(r, smp, k)
  }

  function Cleaned(r: Recorder, smp: Sample): map<string, real> {
    map k | k in smp && IsStored(r, smp, k) :: smp[k].r
  }

  /** A key the caller is told about: too long or empty, or past the cap. */
  predicate Refused(r: Recorder, smp: Sample, k: string) {
    k in smp && (!KeyInBounds(k) || (Storable(smp[k]) && !HasRoom(r, smp, k)))
  }

  // ---------------------------------------------------------------- one call

  /** How the commit of a rollover went, and the keys of the ring after it. */
  datatype Fate = Fate(ok: bool, known: seq<string>)

  predicate IsLate(r: Recorder, at: int) {
    r.last.Some? && at < r.last.value && r.last.value - at <= MINUTE
  }

  /** The clock stepped back: what is pending belongs to the old time. */
  predicate StepsBack(r: Recorder, at: int) {
    r.last.Some? && r.last.value - at > MINUTE
  }

  predicate Admits(r: Recorder, at: int) {
    !r.gone && !r.closed && !IsLate(r, at)
  }

  /** The recorder once a clock step dropped what it had pending. */
  function Settled(r: Recorder, at: int): Recorder {
    if StepsBack(r, at) then r.(acc := None) else r
  }

  /** The pending minute is over at the given time. */
  predicate Due(r: Recorder, at: int) {
    r.acc.Some? && MinuteOf(at) > r.accMin
  }

  /** The call commits the pending minute. */
  predicate Rolls(r: Recorder, at: int) {
    Admits(r, at) && Due(Settled(r, at), at)
  }

  function FoldedIn(acc: Acc, values: map<string, real>): Acc {
    map k | k in acc.Keys + values.Keys ::
      if k !in values then acc[k]
      else if k !in acc then Agg(values[k], values[k], values[k], 1)
      else Agg(acc[k].sum + values[k], MinReal(acc[k].min, values[k]), MaxReal(acc[k].max, values[k]), acc[k].n + 1)
  }

  /** The recorder with a minute open for the given time. */
  function Rolled(r: Recorder, at: int, fate: Fate): (r': Recorder)
    ensures r'.acc.Some?
  {
    var r1 := if Due(r, at) then r.(acc := None, known := fate.known) else r;
    r1.(last := Some(at), acc := Some(if r1.acc.None? then map[] else r1.acc.value),
        accMin := if r1.acc.None? then MinuteOf(at) else r1.accMin)
  }

  function Took(r: Recorder, at: int, values: map<string, real>, fate: Fate): Recorder {
    var r1 := Rolled(r, at, fate);
    r1.(acc := Some(FoldedIn(r1.acc.value, values)))
  }

  function Recorded(r: Recorder, at: int, smp: Sample, fate: Fate): Recorder {
    if !Admits(r, at) then r
    else Took(Settled(r, at), at, Cleaned(Settled(r, at), smp), fate)
  }

  /** Closing commits what is pending. */
  function Shut(r: Recorder, fate: Fate): Recorder {
    if r.acc.None? then r.(closed := true) else r.(closed := true, acc := None, known := fate.known)
  }

  /** What a commit may do to the keys of the ring: append keys of the pending minute, all of them when it succeeds. */
  ghost predicate Possible(r: Recorder, fate: Fate) {
    && r.known <= fate.known && Distinct(fate.known)
    && SetOf(fate.known) <= Held(r)
    && (fate.ok ==> SetOf(fate.known) == Held(r))
  }

  ghost predicate Distinct(keys: seq<string>) {
    forall i, j :: 0 <= i < j < |keys| ==> keys[i] != keys[j]
  }

  /** The bounds every recorder keeps. */
  ghost predicate Fits(r: Recorder) {
    && Distinct(r.known) && |Held(r)| <= MAX_SERIES
    && (forall k :: k in Held(r) ==> KeyInBounds(k))
  }

  // ---------------------------------------------------------------- the cap is never hit at a commit

  /** The keys of a sample that are not held and are stored never take the item past the cap. */
  lemma StoredFits(r: Recorder, smp: Sample)
    requires |Held(r)| <= MAX_SERIES
    ensures |Held(r) + Cleaned(r, smp).Keys| <= MAX_SERIES
  {
    var added := Cleaned(r, smp).Keys - Held(r);
    assert Held(r) + Cleaned(r, smp).Keys == Held(r) + added;
    if added != {} {
      var top := Last(added);
      var ahead := Ahead(r, smp, top);
      assert added - {top} <= ahead;
      SubsetSize(added - {top}, ahead);
    }
  }

  lemma SubsetSize(a: set<string>, b: set<string>)
    requires a <= b
    ensures |a| <= |b|
  {
    if a != {} {
      var x :| x in a;
      SubsetSize(a - {x}, b - {x});
    }
  }

  /** The greatest of a set of keys. */
  lemma Last(keys: set<string>) returns (top: string)
    requires keys != {}
    ensures top in keys && forall k :: k in keys && k != top ==> Less(k, top)
  {
    var x :| x in keys;
    if keys == {x} {
      top := x;
    } else {
      var rest := keys - {x};
      assert keys == {x} + rest;
      var y := Last(rest);
      LessTotal(x, y);
      top := if Less(x, y) then y else x;
      forall k | k in keys && k != top ensures Less(k, top) {
        if k != x && top == x && k != y {
          LessTransitive(k, y, x);
        }
      }
    }
  }

  /** In numbers: a key of 1 to 63 bytes with a finite value a 32-bit float can hold. */
  predicate Worthy(smp: Sample, k: string) {
    k in smp && 1 <= |k| <= 63 && smp[k].Fin? && -MAX_FLOAT32 <= smp[k].r <= MAX_FLOAT32
  }

  /** The keys of a set before c. */
  function Preceding(keys: set<string>, c: string): set<string> {
    set d | d in keys && Less(d, c)
  }

  function Rank(keys: set<string>, c: string): nat {
    |Preceding(keys, c)|
  }

  /** Those with fewer than m before them. */
  function FirstOf(keys: set<string>, m: nat): set<string> {
    set c | c in keys && Rank(keys, c) < m
  }

  /** The first m of some keys are m of them, or all. */
  lemma {:induction false} RankCount(keys: set<string>, m: nat)
    ensures |FirstOf(keys, m)| == Min(m, |keys|)
  {
    if keys == {} {
      assert FirstOf(keys, m) == {};
    } else {
      var top := Last(keys);
      var rest := keys - {top};
      RankCount(rest, m);
      assert Preceding(keys, top) == rest;
      forall c | c in rest ensures Rank(keys, c) == Rank(rest, c) {
        LessTotal(c, top);
        assert Preceding(keys, c) == Preceding(rest, c);
      }
      assert FirstOf(keys, m) == if |rest| < m then FirstOf(rest, m) + {top} else FirstOf(rest, m);
    }
  }

  /** A key comes after all those of lower rank. */
  lemma RankOrders(keys: set<string>, c: string, k: string)
    requires Rank(keys, c) < Rank(keys, k)
    ensures Less(c, k)
  {
    LessTotal(c, k);
    if Less(k, c) {
      forall d | d in Preceding(keys, k) ensures d in Preceding(keys, c) {
        LessTransitive(d, k, c);
      }
      SubsetSize(Preceding(keys, k), Preceding(keys, c));
    }
  }

  function Newcomers(r: Recorder, smp: Sample): set<string> {
    set k | k in smp && Newcomer(r, smp, k)
  }

  /** Of the new keys exactly the first for which there is room are stored. */
  lemma FirstAreStored(r: Recorder, smp: Sample, k: string)
    requires |Held(r)| <= 48 && k in Newcomers(r, smp)
    ensures k in Cleaned(r, smp) <==> k in FirstOf(Newcomers(r, smp), 48 - |Held(r)|)
  {
    assert Preceding(Newcomers(r, smp), k) == Ahead(r, smp, k);
    hide Held, Ahead;
  }

  lemma HeldAfter(r: Recorder, smp: Sample)
    requires |Held(r)| <= 48
    ensures var stored := FirstOf(Newcomers(r, smp), 48 - |Held(r)|);
      Held(r) + Cleaned(r, smp).Keys == Held(r) + stored && |Held(r) + stored| == |Held(r)| + |stored|
  {
    var stored := FirstOf(Newcomers(r, smp), 48 - |Held(r)|);
    hide Ahead, Rank, KeyInBounds, Storable;
    forall k ensures k in Held(r) + Cleaned(r, smp).Keys <==> k in Held(r) + stored {
      if k in Newcomers(r, smp) {
        FirstAreStored(r, smp, k);
      }
    }
    assert Held(r) !! stored;
  }

  /** A worthy value that is not stored. */
  lemma TurnedAway(r: Recorder, smp: Sample, k: string)
    requires |Held(r)| <= 48 && Worthy(smp, k) && k !in Cleaned(r, smp)
    ensures k !in Held(r) && |Held(r) + Cleaned(r, smp).Keys| == 48
    ensures forall c :: c in Cleaned(r, smp) && c !in Held(r) ==> Less(c, k)
  {
    var newcomers, room := Newcomers(r, smp), 48 - |Held(r)|;
    assert k in newcomers;
    FirstAreStored(r, smp, k);
    HeldAfter(r, smp);
    RankCount(newcomers, room);
    SubsetSize(Preceding(newcomers, k), newcomers);
    forall c | c in Cleaned(r, smp) && c !in Held(r) ensures Less(c, k) {
      assert c in newcomers;
      FirstAreStored(r, smp, c);
      RankOrders(newcomers, c, k);
    }
  }

  /**
   * What is stored of a sample: every worthy value of a key the item holds, and
   * of new keys all as long as 48 are not reached; when some are turned away the
   * item holds 48 and those let in come before them in byte order. The caller is
   * told of exactly the keys that are too long or empty and of the worthy ones
   * turned away.
   */
  lemma StoresAllItCan(r: Recorder, smp: Sample)
    requires |Held(r)| <= 48
    ensures forall k :: k in Cleaned(r, smp) ==> Worthy(smp, k) && Cleaned(r, smp)[k] == smp[k].r
    ensures forall k :: Worthy(smp, k) && k !in Cleaned(r, smp) ==>
              && k !in Held(r) && |Held(r) + Cleaned(r, smp).Keys| == 48
              && forall c :: c in Cleaned(r, smp) && c !in Held(r) ==> Less(c, k)
    ensures forall k :: Refused(r, smp, k) <==> k in smp && (|k| < 1 || |k| > 63 || (Worthy(smp, k) && k !in Cleaned(r, smp)))
  {
    forall k | Worthy(smp, k) && k !in Cleaned(r, smp)
      ensures k !in Held(r) && |Held(r) + Cleaned(r, smp).Keys| == 48
      ensures forall c :: c in Cleaned(r, smp) && c !in Held(r) ==> Less(c, k)
    {
      TurnedAway(r, smp, k);
    }
    hide HasRoom, Held;
  }

  lemma RolledFits(r: Recorder, at: int, fate: Fate)
    requires Fits(r) && (Due(r, at) ==> Possible(r, fate))
    ensures Fits(Rolled(r, at, fate)) && Held(Rolled(r, at, fate)) <= Held(r)
  {
    var r1 := Rolled(r, at, fate);
    assert Held(r1) <= Held(r);
    SubsetSize(Held(r1), Held(r));
  }

  lemma TookFits(r: Recorder, at: int, values: map<string, real>, fate: Fate)
    requires Fits(r) && (Due(r, at) ==> Possible(r, fate))
    requires |Held(r) + values.Keys| <= MAX_SERIES && forall k :: k in values ==> KeyInBounds(k)
    ensures Fits(Took(r, at, values, fate))
  {
    RolledFits(r, at, fate);
    HeldTaken(Rolled(r, at, fate), values);
    hide Rolled, FoldedIn, Distinct, Possible, Held, KeyInBounds;
    var most := Held(r) + values.Keys;
    SubsetSize(Held(Took(r, at, values, fate)), most);
  }

  lemma HeldTaken(r: Recorder, values: map<string, real>)
    requires r.acc.Some?
    ensures Held(r.(acc := Some(FoldedIn(r.acc.value, values)))) == Held(r) + values.Keys
  {
  }

  lemma SettledFits(r: Recorder, at: int)
    requires Fits(r)
    ensures Fits(Settled(r, at))
  {
    assert Held(Settled(r, at)) <= Held(r);
    SubsetSize(Held(Settled(r, at)), Held(r));
  }

  lemma RecordedFits(r: Recorder, at: int, smp: Sample, fate: Fate)
    requires Fits(r) && (Rolls(r, at) ==> Possible(Settled(r, at), fate))
    ensures Fits(Recorded(r, at, smp, fate))
  {
    if Admits(r, at) {
      var r1 := Settled(r, at);
      SettledFits(r, at);
      StoredFits(r1, smp);
      TookFits(r1, at, Cleaned(r1, smp), fate);
    }
  }

  lemma ShutFits(r: Recorder, fate: Fate)
    requires Fits(r) && (r.acc.Some? ==> Possible(r, fate))
    ensures Fits(Shut(r, fate))
  {
    assert Held(Shut(r, fate)) <= Held(r);
    SubsetSize(Held(Shut(r, fate)), Held(r));
  }

  /** While a commit adds its keys, those it has not added yet still fit. */
  lemma AddingFits(r: Recorder, known: seq<string>, key: string)
    requires Fits(r) && r.acc.Some? && key in r.acc.value && key !in known
    requires Distinct(known) && SetOf(known) <= Held(r)
    ensures KeyInBounds(key) && |known| < MAX_SERIES
  {
    DistinctSize(known);
    assert SetOf(known) <= Held(r) - {key};
    SubsetSize(SetOf(known), Held(r) - {key});
  }

  lemma {:induction false} DistinctSize(keys: seq<string>)
    requires Distinct(keys)
    ensures |SetOf(keys)| == |keys|
  {
    if keys != [] {
      var n := |keys| - 1;
      DistinctSize(keys[..n]);
      assert SetOf(keys) == SetOf(keys[..n]) + {keys[n]};
      assert keys[n] !in keys[..n];
    }
  }
}

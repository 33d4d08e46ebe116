/** Every run of one item's recorder: where each accepted value ends up, and in which order minutes are committed. */
module RecorderRuns {
  import opened Types
  import opened RingProtocol
  import opened Recorders
  import Queries

  /** An accepted sample: its time and the values of it that are stored. */
  datatype Accepted = Accepted(at: int, values: map<string, real>)

  datatype End = Committed | CommitFailed | ClockStepped

  /** A minute that is over: its samples, how it ended, how many clock steps came before that, and the keys of the ring then. */
  datatype Batch = Batch(minute: int, samples: seq<Accepted>, end: End, era: nat, known: seq<string>)

  datatype Input = Record(at: int, smp: Sample, fate: Fate) | Close(fate: Fate) | Remove

  /** A recorder with what it did: accepted samples in order, minutes that are over, samples of the pending one, clock steps. */
  datatype History = History(r: Recorder, accepted: seq<Accepted>, ended: seq<Batch>, pending: seq<Accepted>, era: nat)

  function EndOf(fate: Fate): End {
    if fate.ok then Committed else CommitFailed
  }

  function Over(h: History, end: End, known: seq<string>): seq<Batch> {
    if h.r.acc.None? then h.ended else h.ended + [Batch(h.r.accMin, h.pending, end, h.era, known)]
  }

  function RecordNext(h: History, at: int, smp: Sample, fate: Fate): History
    requires Admits(h.r, at)
  {
    var sample := Accepted(at, Cleaned(Settled(h.r, at), smp));
    var h1 := h.(r := Recorded(h.r, at, smp, fate), accepted := h.accepted + [sample]);
    if StepsBack(h.r, at) then h1.(ended := Over(h, ClockStepped, h.r.known), pending := [sample], era := h.era + 1)
    else if Rolls(h.r, at) then h1.(ended := Over(h, EndOf(fate), fate.known), pending := [sample])
    else h1.(pending := h.pending + [sample])
  }

  function Next(h: History, input: Input): History {
    match input
    case Record(at, smp, fate) => if Admits(h.r, at) then RecordNext(h, at, smp, fate) else h
    case Close(fate) => h.(r := Shut(h.r, fate), ended := Over(h, EndOf(fate), fate.known), pending := [])
    case Remove => h.(r := h.r.(gone := true, closed := true))
  }

  /** Times are not before 1970, commits do to the keys what a ring can do, and only one call closes the item. */
  ghost predicate Allowed(h: History, input: Input) {
    match input
    case Record(at, _, fate) => at >= 0 && (Rolls(h.r, at) ==> Possible(Settled(h.r, at), fate))
    case Close(fate) => !h.r.closed && (h.r.acc.Some? ==> Possible(h.r, fate))
    case Remove => true
  }

  /** A recorder just opened on a ring with these keys. */
  function Opened(known: seq<string>): History {
    History(Recorder(None, None, 0, known, false, false), [], [], [], 0)
  }

  ghost function Exec(known: seq<string>, inputs: seq<Input>): Option<History> {
    if inputs == [] then Some(Opened(known))
    else
      var n := |inputs| - 1;
      var before := Exec(known, inputs[..n]);
      if before.Some? && Allowed(before.value, inputs[n]) then Some(Next(before.value, inputs[n])) else None
  }

  // ---------------------------------------------------------------- what a minute holds for a key

  /** The values of key, in order. */
  function ValuesOf(samples: seq<Accepted>, key: string): seq<real> {
    if samples == [] then []
    else
      var last := samples[|samples| - 1].values;
      ValuesOf(samples[..|samples| - 1], key) + if key in last then [last[key]] else []
  }

  function Total(vs: seq<real>): real {
    if vs == [] then 0.0 else Total(vs[..|vs| - 1]) + vs[|vs| - 1]
  }

  function Least(vs: seq<real>): (lo: real)
    requires vs != []
    ensures lo in vs && forall v :: v in vs ==> lo <= v
  {
    var last := vs[|vs| - 1];
    assert forall v :: v in vs ==> v in vs[..|vs| - 1] || v == last;
    if |vs| == 1 then last else MinReal(Least(vs[..|vs| - 1]), last)
  }

  function Greatest(vs: seq<real>): (hi: real)
    requires vs != []
    ensures hi in vs && forall v :: v in vs ==> v <= hi
  {
    var last := vs[|vs| - 1];
    assert forall v :: v in vs ==> v in vs[..|vs| - 1] || v == last;
    if |vs| == 1 then last else MaxReal(Greatest(vs[..|vs| - 1]), last)
  }

  /** The aggregates after folding in the samples one by one. */
  function Gathered(samples: seq<Accepted>): Acc {
    if samples == [] then map[] else FoldedIn(Gathered(samples[..|samples| - 1]), samples[|samples| - 1].values)
  }

  ghost predicate Exact(acc: Acc, samples: seq<Accepted>, key: string) {
    var vs := ValuesOf(samples, key);
    && (key in acc <==> vs != [])
    && (vs != [] ==> acc[key] == Agg(Total(vs), Least(vs), Greatest(vs), |vs|))
  }

  /** The aggregate of a key is the exact sum, least, greatest and count of its values. */
  lemma {:induction false} GatheredExact(samples: seq<Accepted>, key: string)
    ensures Exact(Gathered(samples), samples, key)
  {
    if samples != [] {
      var init, last := samples[..|samples| - 1], samples[|samples| - 1];
      GatheredExact(init, key);
      assert samples == init + [last];
      GatheredNext(init, last);
      ExactNext(Gathered(init), init, last, key);
    }
  }

  lemma GatheredNext(samples: seq<Accepted>, next: Accepted)
    ensures Gathered(samples + [next]) == FoldedIn(Gathered(samples), next.values)
  {
    assert (samples + [next])[..|samples|] == samples;
  }

  lemma ExactNext(acc: Acc, samples: seq<Accepted>, next: Accepted, key: string)
    requires Exact(acc, samples, key)
    ensures Exact(FoldedIn(acc, next.values), samples + [next], key)
  {
    var vs := ValuesOf(samples, key);
    assert (samples + [next])[..|samples|] == samples;
    assert vs + [] == vs;
    assert ValuesOf(samples + [next], key) == if key in next.values then vs + [next.values[key]] else vs;
    hide ValuesOf, Total, Least, Greatest;
    if key in next.values {
      NextValue(vs, next.values[key]);
    }
  }

  lemma NextValue(vs: seq<real>, v: real)
    ensures Total(vs + [v]) == Total(vs) + v
    ensures Least(vs + [v]) == if vs == [] then v else MinReal(Least(vs), v)
    ensures Greatest(vs + [v]) == if vs == [] then v else MaxReal(Greatest(vs), v)
  {
    assert (vs + [v])[..|vs|] == vs;
  }

  // ---------------------------------------------------------------- the invariant

  function SamplesOf(ended: seq<Batch>): seq<Accepted> {
    if ended == [] then [] else SamplesOf(ended[..|ended| - 1]) + ended[|ended| - 1].samples
  }

  /** Every sample of a minute is of that minute, and there is one. */
  ghost predicate OfMinute(samples: seq<Accepted>, minute: int) {
    samples != [] && forall s :: s in samples ==> s.at >= 0 && MinuteOf(s.at) == minute
  }

  ghost predicate PendingExact(h: History) {
    if h.r.acc.None? then h.pending == []
    else OfMinute(h.pending, h.r.accMin) && h.r.acc.value == Gathered(h.pending)
  }

  /** Minutes of one era ended in increasing order, all before the one of the last sample unless it is pending. */
  ghost predicate Ordered(h: History) {
    && (forall i, j :: 0 <= i < j < |h.ended| ==>
          h.ended[i].era < h.ended[j].era || (h.ended[i].era == h.ended[j].era && h.ended[i].minute < h.ended[j].minute))
    && (forall b :: b in h.ended ==> b.era <= h.era && (b.era == h.era ==> BeforeNow(h, b.minute)))
    && (h.r.last.Some? ==> h.r.last.value >= 0)
    && (h.r.acc.Some? ==> h.r.last.Some? && h.r.accMin == MinuteOf(h.r.last.value))
  }

  ghost predicate BeforeNow(h: History, minute: int) {
    h.r.last.Some? && if h.r.acc.Some? then minute < MinuteOf(h.r.last.value) else h.r.closed
  }

  ghost predicate Inv(h: History) {
    && Fits(h.r)
    && h.accepted == SamplesOf(h.ended) + h.pending
    && (forall b :: b in h.ended ==> OfMinute(b.samples, b.minute))
    && PendingExact(h) && Ordered(h)
    && (h.r.gone ==> h.r.closed)
  }

  lemma OverSamples(h: History, end: End, known: seq<string>)
    requires PendingExact(h)
    ensures SamplesOf(Over(h, end, known)) == SamplesOf(h.ended) + h.pending
  {
    var over := Over(h, end, known);
    if h.r.acc.Some? {
      assert over[..|over| - 1] == h.ended;
    }
  }

  lemma MinutesMonotone(a: int, b: int)
    requires 0 <= a <= b
    ensures MinuteOf(a) <= MinuteOf(b)
  {
  }

  lemma SamplesKeep(h: History, at: int, smp: Sample, fate: Fate)
    requires Inv(h) && Admits(h.r, at)
    ensures var h' := RecordNext(h, at, smp, fate); h'.accepted == SamplesOf(h'.ended) + h'.pending
  {
    hide Recorded, Cleaned, SamplesOf, Ordered;
    OverSamples(h, ClockStepped, h.r.known);
    OverSamples(h, EndOf(fate), fate.known);
  }

  lemma PendingKeeps(h: History, at: int, smp: Sample, fate: Fate)
    requires Inv(h) && Admits(h.r, at) && at >= 0
    ensures PendingExact(RecordNext(h, at, smp, fate))
  {
    if h.r.last.Some? && h.r.last.value <= at {
      MinutesMonotone(h.r.last.value, at);
    }
    assert h.r.acc.Some? && !StepsBack(h.r, at) ==> h.r.accMin <= MinuteOf(at);
    PendingNext(h, at, smp, fate);
  }

  lemma PendingNext(h: History, at: int, smp: Sample, fate: Fate)
    requires PendingExact(h) && Admits(h.r, at) && at >= 0
    requires h.r.acc.Some? && !StepsBack(h.r, at) ==> h.r.accMin <= MinuteOf(at)
    ensures PendingExact(RecordNext(h, at, smp, fate))
  {
    hide Cleaned, Gathered, FoldedIn, MinuteOf;
    var sample := Accepted(at, Cleaned(Settled(h.r, at), smp));
    var h' := RecordNext(h, at, smp, fate);
    if StepsBack(h.r, at) || Rolls(h.r, at) || h.r.acc.None? {
      GatheredOne(sample);
      assert h'.pending == [sample];
    } else {
      GatheredNext(h.pending, sample);
      assert h'.r.accMin == h.r.accMin == MinuteOf(at);
      assert h'.r.acc.value == FoldedIn(h.r.acc.value, sample.values);
    }
  }

  lemma GatheredOne(sample: Accepted)
    ensures Gathered([sample]) == FoldedIn(map[], sample.values)
  {
    GatheredNext([], sample);
    assert [] + [sample] == [sample];
  }

  lemma EndedKeeps(h: History, at: int, smp: Sample, fate: Fate)
    requires Inv(h) && Admits(h.r, at)
    ensures forall b :: b in RecordNext(h, at, smp, fate).ended ==> OfMinute(b.samples, b.minute)
  {
    hide Cleaned, SamplesOf, Recorded, Fits, Gathered, OfMinute;
  }

  lemma OrderKeeps(h: History, at: int, smp: Sample, fate: Fate)
    requires Inv(h) && Admits(h.r, at) && at >= 0
    ensures Ordered(RecordNext(h, at, smp, fate))
  {
    hide Cleaned, SamplesOf, FoldedIn, PendingExact, Fits;
    if h.r.last.Some? && h.r.last.value <= at {
      MinutesMonotone(h.r.last.value, at);
    }
  }

  lemma RecordKeeps(h: History, at: int, smp: Sample, fate: Fate)
    requires Inv(h) && Allowed(h, Record(at, smp, fate))
    ensures Inv(Next(h, Record(at, smp, fate)))
  {
    if Admits(h.r, at) {
      SamplesKeep(h, at, smp, fate);
      PendingKeeps(h, at, smp, fate);
      EndedKeeps(h, at, smp, fate);
      OrderKeeps(h, at, smp, fate);
      RecordedFits(h.r, at, smp, fate);
      hide Ordered, PendingExact, Fits, Cleaned, SamplesOf, OfMinute;
    }
  }

  lemma CloseKeeps(h: History, fate: Fate)
    requires Inv(h) && Allowed(h, Close(fate))
    ensures Inv(Next(h, Close(fate)))
  {
    CloseAccounts(h, fate);
    ShutFits(h.r, fate);
    CloseOrdered(h, fate);
    hide SamplesOf, Fits, Possible, OfMinute, Gathered, Ordered, Recorders.Held, Over;
  }

  lemma CloseAccounts(h: History, fate: Fate)
    requires Inv(h)
    ensures var h' := Next(h, Close(fate));
      && h'.accepted == SamplesOf(h'.ended) + h'.pending
      && PendingExact(h') && forall b :: b in h'.ended ==> OfMinute(b.samples, b.minute)
  {
    OverSamples(h, EndOf(fate), fate.known);
    assert SamplesOf(Over(h, EndOf(fate), fate.known)) + [] == SamplesOf(h.ended) + h.pending;
    hide SamplesOf, Fits, OfMinute, Gathered, Ordered;
  }

  lemma CloseOrdered(h: History, fate: Fate)
    requires Inv(h) && !h.r.closed
    ensures Ordered(Next(h, Close(fate)))
  {
    hide SamplesOf, Fits, Possible, OfMinute, Gathered, PendingExact, MinuteOf;
  }

  lemma InputKeeps(h: History, input: Input)
    requires Inv(h) && Allowed(h, input)
    ensures Inv(Next(h, input))
  {
    match input
    case Record(at, smp, fate) => RecordKeeps(h, at, smp, fate);
    case Close(fate) => CloseKeeps(h, fate);
    case Remove =>
  }

  lemma {:induction false} ExecKeeps(known: seq<string>, inputs: seq<Input>)
    requires Fits(Opened(known).r) && Exec(known, inputs).Some?
    ensures Inv(Exec(known, inputs).value)
  {
    if inputs != [] {
      var n := |inputs| - 1;
      ExecKeeps(known, inputs[..n]);
      InputKeeps(Exec(known, inputs[..n]).value, inputs[n]);
    }
  }

  // ---------------------------------------------------------------- what holds of every run

  /** The values of key over the minutes that are over. */
  function BatchValues(ended: seq<Batch>, key: string): seq<real> {
    if ended == [] then [] else BatchValues(ended[..|ended| - 1], key) + ValuesOf(ended[|ended| - 1].samples, key)
  }

  lemma {:induction false} ValuesOfBoth(a: seq<Accepted>, b: seq<Accepted>, key: string)
    ensures ValuesOf(a + b, key) == ValuesOf(a, key) + ValuesOf(b, key)
  {
    if b == [] {
      assert a + b == a;
    } else {
      ValuesOfBoth(a, b[..|b| - 1], key);
      assert (a + b)[..|a + b| - 1] == a + b[..|b| - 1];
    }
  }

  lemma {:induction false} ValuesOfBatches(ended: seq<Batch>, key: string)
    ensures ValuesOf(SamplesOf(ended), key) == BatchValues(ended, key)
  {
    if ended != [] {
      ValuesOfBatches(ended[..|ended| - 1], key);
      ValuesOfBoth(SamplesOf(ended[..|ended| - 1]), ended[|ended| - 1].samples, key);
    }
  }

  /** In nanoseconds: the time is within the 60 seconds of the minute. */
  predicate Within(at: int, minute: int) {
    60_000_000_000 * minute <= at < 60_000_000_000 * (minute + 1)
  }

  lemma WithinMinute(at: int, minute: int)
    requires at >= 0 && MinuteOf(at) == minute
    ensures Within(at, minute)
  {
  }

  /**
   * Conservation: the accepted samples, in order, are those of the minutes that
   * are over followed by those of the pending one; so every stored value of a key
   * is in exactly one minute, committed, lost or pending, and in the minute of
   * its own time.
   */
  lemma Conservation(known: seq<string>, inputs: seq<Input>, key: string)
    requires Fits(Opened(known).r) && Exec(known, inputs).Some?
    ensures var h := Exec(known, inputs).value;
      && h.accepted == SamplesOf(h.ended) + h.pending
      && ValuesOf(h.accepted, key) == BatchValues(h.ended, key) + ValuesOf(h.pending, key)
      && (forall b, s :: b in h.ended && s in b.samples ==> Within(s.at, b.minute))
      && (forall s :: s in h.pending ==> Within(s.at, h.r.accMin))
  {
    ExecKeeps(known, inputs);
    var h := Exec(known, inputs).value;
    hide Exec, SamplesOf, ValuesOf, Ordered, Fits;
    ValuesOfBoth(SamplesOf(h.ended), h.pending, key);
    ValuesOfBatches(h.ended, key);
    forall b, s | b in h.ended && s in b.samples ensures Within(s.at, b.minute) {
      assert OfMinute(b.samples, b.minute);
      WithinMinute(s.at, b.minute);
    }
    forall s | s in h.pending ensures Within(s.at, h.r.accMin) {
      WithinMinute(s.at, h.r.accMin);
    }
  }

  /**
   * Which samples are accepted, in nanoseconds: those of an open item that are
   * not late, or so late, more than 60 seconds, that the clock must have stepped
   * back, which ends the era. A sample that is not accepted changes nothing.
   */
  lemma AcceptedIff(h: History, at: int, smp: Sample, fate: Fate)
    ensures var h' := Next(h, Record(at, smp, fate));
      var stepped := h.r.last.Some? && h.r.last.value - at > 60_000_000_000;
      var accepted := !h.r.gone && !h.r.closed && (h.r.last.None? || at >= h.r.last.value || stepped);
      && (!accepted ==> h' == h)
      && (accepted ==> |h'.accepted| == |h.accepted| + 1 && h'.accepted[..|h.accepted|] == h.accepted
                       && h'.accepted[|h.accepted|].at == at && h'.r.last == Some(at))
      && h'.era == h.era + (if accepted && stepped then 1 else 0)
  {
    hide Cleaned, FoldedIn, MinuteOf;
  }

  /** What a commit writes for a key. */
  function Summary(acc: Acc, key: string): Cell {
    if key in acc && acc[key].n > 0
    then Some(MinuteValue(acc[key].sum / acc[key].n as real, acc[key].min, acc[key].max)) else None
  }

  lemma {:induction false} TotalBetween(vs: seq<real>, lo: real, hi: real)
    requires forall i :: 0 <= i < |vs| ==> lo <= vs[i] <= hi
    ensures |vs| as real * lo <= Total(vs) <= |vs| as real * hi
  {
    if vs != [] {
      TotalBetween(vs[..|vs| - 1], lo, hi);
      var n := (|vs| - 1) as real;
      assert |vs| as real == n + 1.0;
      assert (n + 1.0) * lo == n * lo + lo && (n + 1.0) * hi == n * hi + hi;
    }
  }

  /** The committed cell of a key is the exact mean, least and greatest of its values in that minute, in this order; a key without value is a gap. */
  lemma SummaryExact(samples: seq<Accepted>, key: string)
    ensures var vs := ValuesOf(samples, key);
      && Summary(Gathered(samples), key) ==
         (if vs == [] then None else Some(MinuteValue(Total(vs) / |vs| as real, Least(vs), Greatest(vs))))
      && (vs != [] ==> Queries.OrderedValue(Summary(Gathered(samples), key).value))
  {
    var vs := ValuesOf(samples, key);
    GatheredExact(samples, key);
    hide Gathered, ValuesOf, Total, Least, Greatest;
    if vs != [] {
      assert forall i :: 0 <= i < |vs| ==> vs[i] in vs;
      TotalBetween(vs, Least(vs), Greatest(vs));
      Queries.Divide(Total(vs), |vs| as real, Least(vs), Greatest(vs));
    }
  }

  /** Between clock steps minutes end in increasing order, so none is committed twice, and what is pending comes after them. */
  lemma MinutesIncrease(known: seq<string>, inputs: seq<Input>, i: nat, j: nat)
    requires Fits(Opened(known).r) && Exec(known, inputs).Some?
    requires i < j < |Exec(known, inputs).value.ended|
    ensures var h := Exec(known, inputs).value;
      && h.ended[i].era <= h.ended[j].era <= h.era
      && (h.ended[i].era == h.ended[j].era ==> h.ended[i].minute < h.ended[j].minute)
      && (h.ended[j].era == h.era && h.r.acc.Some? ==> h.ended[j].minute < h.r.accMin)
  {
    ExecKeeps(known, inputs);
    var h := Exec(known, inputs).value;
    hide Exec, PendingExact, Fits, SamplesOf, MinuteOf, OfMinute;
    assert h.ended[j] in h.ended;
  }

  /** An era ends with a clock step and nothing else. */
  ghost predicate Steady(known: seq<string>, inputs: seq<Input>)
    requires Exec(known, inputs).Some?
  {
    inputs == [] ||
    var n := |inputs| - 1;
    var before := Exec(known, inputs[..n]).value;
    && Steady(known, inputs[..n])
    && (inputs[n].Record? && Admits(before.r, inputs[n].at) ==> !StepsBack(before.r, inputs[n].at))
  }

  lemma {:induction false} SteadyIsOneEra(known: seq<string>, inputs: seq<Input>)
    requires Exec(known, inputs).Some?
    ensures Steady(known, inputs) <==> Exec(known, inputs).value.era == 0
  {
    if inputs != [] {
      var n := |inputs| - 1;
      SteadyIsOneEra(known, inputs[..n]);
    }
  }
}

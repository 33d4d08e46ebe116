/** Which items a store keeps: admission, forgetting and sweeping (Store.entry, Forget, Sweep and remove in store.go). */
module Populations {
  import opened Types
  import opened Ordering
  import opened Faults
  import Recorders

  const RETENTION := 7 * 24 * 3600  // seconds

  /** What the store looks at in an item: when it was forgotten (0: alive), its newest committed minute, its last accepted sample. */
  datatype Item = Item(forgotten: int, newest: nat, last: Option<int>)

  type Items = map<string, Item>

  function Alive(items: Items): set<string> {
    set k | k in items && items[k].forgotten == 0
  }

  function Forgotten(items: Items): set<string> {
    set k | k in items && items[k].forgotten != 0
  }

  /** Forgotten longer ago; by name for the same time. */
  predicate Before(items: Items, a: string, b: string)
    requires a in items && b in items
  {
    items[a].forgotten < items[b].forgotten || (items[a].forgotten == items[b].forgotten && Less(a, b))
  }

  function After(items: Items, k: string): set<string>
    requires k in items
  {
    set j | j in items && items[j].forgotten != 0 && Before(items, k, j)
  }

  /** The forgotten items there is no room for: those with MAX_FORGOTTEN others forgotten after them. */
  function Evicted(items: Items): (gone: set<string>)
    ensures gone <= items.Keys
  {
    set k | k in items && items[k].forgotten != 0 && |After(items, k)| >= MAX_FORGOTTEN
  }

  /** Forgotten, or without data, for 7 days or more. */
  predicate Expired(it: Item, now: int) {
    var cut := Recorders.Unix(now) - RETENTION;
    var newest := if it.last.Some? then Max(60 * it.newest, Recorders.Unix(it.last.value)) else 60 * it.newest;
    (it.forgotten != 0 && it.forgotten <= cut) || newest <= cut
  }

  // ---------------------------------------------------------------- what an overflow removes

  lemma BeforeOrders(items: Items, a: string, b: string, c: string)
    requires a in items && b in items && c in items
    ensures !Before(items, a, a)
    ensures a == b || Before(items, a, b) || Before(items, b, a)
    ensures !(Before(items, a, b) && Before(items, b, a))
    ensures Before(items, a, b) && Before(items, b, c) ==> Before(items, a, c)
  {
    LessTotal(a, b);
    if Less(a, b) && Less(b, c) {
      LessTransitive(a, b, c);
    }
  }

  /** What is removed was forgotten before everything forgotten that stays. */
  lemma EvictedAreOldest(items: Items, k: string, j: string)
    requires k in Evicted(items) && j in Forgotten(items) && j !in Evicted(items)
    ensures Before(items, k, j)
  {
    if !Before(items, k, j) {
      BeforeOrders(items, k, j, j);
      forall x | x in After(items, k) ensures x in After(items, j) {
        BeforeOrders(items, j, k, x);
      }
      Recorders.SubsetSize(After(items, k), After(items, j));
    }
  }

  /** Keys in the order they were forgotten. */
  ghost predicate InOrder(items: Items, s: seq<string>) {
    && (forall k :: k in s ==> k in items)
    && (forall i, j :: 0 <= i < j < |s| ==> Before(items, s[i], s[j]))
  }

  lemma {:induction false} InOrderSize(items: Items, s: seq<string>)
    requires InOrder(items, s)
    ensures |set k | k in s| == |s|
  {
    if s != [] {
      var n := |s| - 1;
      InOrderSize(items, s[..n]);
      BeforeOrders(items, s[n], s[n], s[n]);
      assert s[n] !in s[..n];
      assert (set k | k in s) == (set k | k in s[..n]) + {s[n]};
    }
  }

  /** The key at index i has all those after it, and no other, forgotten after it. */
  lemma AfterIndex(items: Items, s: seq<string>, i: nat)
    requires InOrder(items, s) && (forall k :: k in s <==> k in Forgotten(items)) && i < |s|
    ensures |After(items, s[i])| == |s| - 1 - i
  {
    var rest := s[i + 1..];
    assert InOrder(items, rest) by {
      assert forall k :: k in rest ==> k in s;
    }
    InOrderSize(items, rest);
    forall x ensures x in After(items, s[i]) <==> x in rest {
      if x in s {
        var j :| 0 <= j < |s| && s[j] == x;
        BeforeOrders(items, x, s[i], s[i]);
        if j > i {
          assert rest[j - i - 1] == x;
        }
      }
      if x in rest {
        var j :| 0 <= j < |rest| && rest[j] == x;
        assert s[i + 1 + j] == x;
      }
    }
    assert After(items, s[i]) == set k | k in rest;
  }

  /** So the first keys past MAX_FORGOTTEN are the evicted ones, and the rest fits. */
  lemma EvictedIsPrefix(items: Items, s: seq<string>)
    requires InOrder(items, s) && forall k :: k in s <==> k in Forgotten(items)
    ensures var n := Max(|s| - MAX_FORGOTTEN, 0);
            (forall k :: k in s[..n] <==> k in Evicted(items)) && |Forgotten(items) - Evicted(items)| == |s| - n
  {
    var n := Max(|s| - MAX_FORGOTTEN, 0);
    forall i | 0 <= i < |s| ensures s[i] in Evicted(items) <==> i < n {
      AfterIndex(items, s, i);
      assert s[i] in s;
    }
    forall k | k in Evicted(items) ensures k in s[..n] {
      assert k in s;
      var i :| 0 <= i < |s| && s[i] == k;
      assert s[..n][i] == k;
    }
    var rest := s[n..];
    assert InOrder(items, rest) by {
      assert forall k :: k in rest ==> k in s;
    }
    InOrderSize(items, rest);
    forall x ensures x in Forgotten(items) - Evicted(items) <==> x in rest {
      if x in s {
        var i :| 0 <= i < |s| && s[i] == x;
        if i >= n { assert rest[i - n] == x; }
      }
      if x in rest {
        var i :| 0 <= i < |rest| && rest[i] == x;
        assert s[n + i] == x;
      }
    }
    assert Forgotten(items) - Evicted(items) == set k | k in rest;
  }

  // ---------------------------------------------------------------- the bounds every call keeps

  ghost predicate Bounded(items: Items) {
    |Alive(items)| <= MAX_ITEMS && |Forgotten(items)| <= MAX_FORGOTTEN
  }

  /** items with name alive, as it was or new. */
  function Revived(items: Items, name: string): Items {
    items[name := if name in items then items[name].(forgotten := 0) else Item(0, 0, None)]
  }

  /** Unix time of a forgetting; 0 would mean alive. */
  function ForgetTime(at: int): (t: int)
    ensures t >= 1
  {
    Max(Recorders.Unix(at), 1)
  }

  /** items with name forgotten, and without those there is no room for. */
  function AfterForget(items: Items, name: string, at: int): Items
    requires name in items
  {
    var marked := items[name := items[name].(forgotten := ForgetTime(at))];
    marked - Evicted(marked)
  }

  /** items without the expired ones that could be read. */
  function AfterSweep(items: Items, now: int, unreadable: set<string>): Items {
    map k | k in items && (k in unreadable || !Expired(items[k], now)) :: items[k]
  }

  lemma RevivedBounded(items: Items, name: string)
    requires Bounded(items) && (name in Alive(items) || |Alive(items)| < MAX_ITEMS)
    ensures Bounded(Revived(items, name))
  {
    var after := Revived(items, name);
    assert Alive(after) == Alive(items) + {name};
    assert Forgotten(after) <= Forgotten(items);
    Recorders.SubsetSize(Forgotten(after), Forgotten(items));
  }

  lemma ForgetBounded(items: Items, name: string, at: int, s: seq<string>)
    requires |Alive(items)| <= MAX_ITEMS && name in items
    requires var marked := items[name := items[name].(forgotten := ForgetTime(at))];
             InOrder(marked, s) && forall k :: k in s <==> k in Forgotten(marked)
    ensures Bounded(AfterForget(items, name, at))
  {
    var marked := items[name := items[name].(forgotten := ForgetTime(at))];
    var after := AfterForget(items, name, at);
    EvictedIsPrefix(marked, s);
    assert Forgotten(after) == Forgotten(marked) - Evicted(marked);
    assert Alive(after) <= Alive(items);
    Recorders.SubsetSize(Alive(after), Alive(items));
  }

  lemma SweepBounded(items: Items, now: int, unreadable: set<string>)
    requires Bounded(items)
    ensures Bounded(AfterSweep(items, now, unreadable))
  {
    var after := AfterSweep(items, now, unreadable);
    Recorders.SubsetSize(Alive(after), Alive(items));
    Recorders.SubsetSize(Forgotten(after), Forgotten(items));
  }

  // ---------------------------------------------------------------- how long an item stays

  /** In numbers: not forgotten for 604 800 seconds or more, and its newest minute or its last sample is younger than that. */
  predicate Stays(it: Item, now: int) {
    && (it.forgotten == 0 || Recorders.Unix(now) - it.forgotten < 604800)
    && (Recorders.Unix(now) - 60 * it.newest < 604800 || (it.last.Some? && Recorders.Unix(now) - Recorders.Unix(it.last.value) < 604800))
  }

  lemma ExpiredIff(it: Item, now: int)
    ensures Expired(it, now) <==> !Stays(it, now)
  {
  }

  datatype Call = Forget(name: string, at: int) | Sweep(now: int, unreadable: set<string>)

  /** What a call does to the items. */
  function AfterCall(items: Items, call: Call): Items {
    match call
    case Forget(name, at) => if name in items then AfterForget(items, name, at) else items
    case Sweep(now, unreadable) => AfterSweep(items, now, unreadable)
  }

  function AfterCalls(items: Items, calls: seq<Call>): Items {
    if calls == [] then items else AfterCall(AfterCalls(items, calls[..|calls| - 1]), calls[|calls| - 1])
  }

  /** No Forget of another item has to make room by removing this one. */
  ghost predicate NotEvicted(items: Items, calls: seq<Call>, name: string) {
    calls == [] ||
    var before, call := AfterCalls(items, calls[..|calls| - 1]), calls[|calls| - 1];
    && NotEvicted(items, calls[..|calls| - 1], name)
    && (call.Forget? ==> call.name != name
                         && (call.name in before ==> name !in Evicted(before[call.name := before[call.name].(forgotten := ForgetTime(call.at))])))
  }

  /** The item had data within 7 days at every sweep. */
  predicate RecentData(it: Item, calls: seq<Call>) {
    forall i :: 0 <= i < |calls| && calls[i].Sweep? ==>
      Recorders.Unix(calls[i].now) - 60 * it.newest < 604800
      || (it.last.Some? && Recorders.Unix(calls[i].now) - Recorders.Unix(it.last.value) < 604800)
  }

  /**
   * An item with recent data that was forgotten at a time is in the store after
   * any later calls of Forget and Sweep exactly when no sweep that could read it
   * came 604 800 seconds after that or later, unless it had to make room; and it
   * is as it was.
   */
  lemma {:induction false} ForgottenStaysSevenDays(items: Items, calls: seq<Call>, name: string)
    requires name in items && items[name].forgotten != 0 && NotEvicted(items, calls, name) && RecentData(items[name], calls)
    ensures name in AfterCalls(items, calls) <==>
              forall i :: 0 <= i < |calls| && calls[i].Sweep? && name !in calls[i].unreadable ==>
                Recorders.Unix(calls[i].now) < items[name].forgotten + 604800
    ensures name in AfterCalls(items, calls) ==> AfterCalls(items, calls)[name] == items[name]
  {
    if calls != [] {
      var n := |calls| - 1;
      var before, call := AfterCalls(items, calls[..n]), calls[n];
      ForgottenStaysSevenDays(items, calls[..n], name);
      assert calls[..n] + [call] == calls;
      if call.Sweep? && name in before {
        ExpiredIff(before[name], call.now);
      }
      assert forall i :: 0 <= i < n ==> calls[..n][i] == calls[i];
      hide Evicted, Expired, AfterCalls, NotEvicted;
    }
  }

  /** And so for the item a Forget has just marked: 7 days count from that time, or from second 1 of 1970 if it was earlier. */
  lemma ForgetKeepsSevenDays(items: Items, name: string, at: int, calls: seq<Call>)
    requires name in items && name in AfterForget(items, name, at)
    requires NotEvicted(AfterForget(items, name, at), calls, name) && RecentData(items[name], calls)
    ensures name in AfterCalls(AfterForget(items, name, at), calls) <==>
              forall i :: 0 <= i < |calls| && calls[i].Sweep? && name !in calls[i].unreadable ==>
                Recorders.Unix(calls[i].now) < (if Recorders.Unix(at) >= 1 then Recorders.Unix(at) else 1) + 604800
  {
    ForgottenStaysSevenDays(AfterForget(items, name, at), calls, name);
  }

  // ---------------------------------------------------------------- the store

  /** name has this forgotten time and its data as before, if it was there; what else there is is as it was. */
  ghost predicate OnlyMarked(before: Items, after: Items, name: string, forgotten: int) {
    && (name in after ==> after[name].forgotten == forgotten)
    && (name in after && name in before ==> after[name].newest == before[name].newest && after[name].last == before[name].last)
    && forall k :: k in after && k != name ==> k in before && after[k] == before[k]
  }

  class Store {
    var items: Items
    var closed: bool
    const refused: set<string>  // items whose ring file could not be read at Open

    constructor (found: Items, unreadable: set<string>)
      ensures items == found && refused == unreadable && !closed
    {
      items, refused, closed := found, unreadable, false;
    }

    method CountAlive() returns (n: nat)
      ensures n == |Alive(items)|
    {
      n := 0;
      var todo := items.Keys;
      ghost var counted: set<string> := {};
      while todo != {}
        invariant todo <= items.Keys && n == |counted|
        invariant forall k :: k in counted <==> k in Alive(items) && k !in todo
        decreases |todo|
      {
        var k :| k in todo;
        if items[k].forgotten == 0 {
          n, counted := n + 1, counted + {k};
        }
        todo := todo - {k};
      }
      assert counted == Alive(items);
    }

    /** Finds, revives or makes an item. On an error nothing changes. written: the header or the new ring file can be written. */
    method Entry(name: string, written: bool) returns (err: Option<Err>)
      modifies `items
      ensures err.None? ==> items == Revived(old(items), name)
      ensures err.Some? ==> items == old(items)
      ensures err.None? ==> name in items && OnlyMarked(old(items), items, name, 0) && old(items).Keys <= items.Keys
      ensures err.None? <==> !closed && (name in Alive(old(items))
                                         || (|Alive(old(items))| < MAX_ITEMS && (name in old(items) || name !in refused) && written))
      ensures closed <==> err == Some(Leaf(Closed))
      ensures err == Some(Leaf(TooManyItems)) <==> !closed && name !in Alive(old(items)) && |Alive(old(items))| >= MAX_ITEMS
      ensures err == Some(Leaf(RingSkipped)) <==> !closed && name !in old(items) && name in refused && |Alive(old(items))| < MAX_ITEMS
      ensures err.Some? ==> err.value.Leaf? && err.value.fault in {Closed, TooManyItems, RingSkipped, Io}
      ensures Bounded(old(items)) ==> Bounded(items)
    {
      hide Bounded;
      if closed {
        return Some(Leaf(Closed));
      }
      if name in items && items[name].forgotten == 0 {
        assert items == Revived(items, name);
        return None;
      }
      var live := CountAlive();
      if live >= MAX_ITEMS {
        return Some(Leaf(TooManyItems));
      }
      if name !in items && name in refused {
        return Some(Leaf(RingSkipped));
      }
      if !written {
        return Some(Leaf(Io));
      }
      if Bounded(items) {
        RevivedBounded(items, name);
      }
      items := if name in items then items[name := items[name].(forgotten := 0)] else items[name := Item(0, 0, None)];
      return None;
    }

    method InsertOld(s: seq<string>, k: string) returns (r: seq<string>)
      requires InOrder(items, s) && k in items && k !in s
      ensures InOrder(items, r) && forall x :: x in r <==> x in s || x == k
    {
      hide Before;
      var i := 0;
      while i < |s| && Before(items, s[i], k)
        invariant i <= |s| && forall j :: 0 <= j < i ==> Before(items, s[j], k)
      {
        i := i + 1;
      }
      forall j | i <= j < |s| ensures Before(items, k, s[j]) {
        BeforeOrders(items, s[i], k, k);
        BeforeOrders(items, k, s[i], s[j]);
      }
      r := s[..i] + [k] + s[i..];
    }

    /** The forgotten items, longest ago first. */
    method OldFirst() returns (sorted: seq<string>)
      ensures InOrder(items, sorted) && forall k :: k in sorted <==> k in Forgotten(items)
    {
      sorted := [];
      var todo := items.Keys;
      while todo != {}
        invariant todo <= items.Keys && InOrder(items, sorted)
        invariant forall k :: k in sorted <==> k in Forgotten(items) && k !in todo
        decreases |todo|
      {
        var k :| k in todo;
        if items[k].forgotten != 0 {
          sorted := InsertOld(sorted, k);
        }
        todo := todo - {k};
      }
    }

    /**
     * Forgets an item, then removes those there is no room for. written: the
     * header can be written; stuck are the items whose file cannot be deleted.
     */
    method Forget(name: string, at: int, written: bool, stuck: set<string>) returns (err: Option<Err>)
      modifies `items
      ensures closed || name !in old(items) ==> items == old(items) && err == Some(Leaf(if closed then Closed else UnknownItem))
      ensures !closed && name in old(items) && !written ==> items == old(items) && err == Some(Leaf(Io))
      ensures !closed && name in old(items) && written ==> items == AfterForget(old(items), name, at)
      ensures !closed && name in old(items) && written ==>
                OnlyMarked(old(items), items, name, if Recorders.Unix(at) >= 1 then Recorders.Unix(at) else 1)
      ensures !closed && name in old(items) && written ==> (err.Some? <==> exists k :: k in old(items) && k !in items && k in stuck)
      ensures Bounded(old(items)) ==> Bounded(items)
    {
      hide Before, Evicted, Bounded;
      if closed {
        return Some(Leaf(Closed));
      }
      if name !in items {
        return Some(Leaf(UnknownItem));
      }
      if !written {
        return Some(Leaf(Io));
      }
      ghost var before := items;
      items := items[name := items[name].(forgotten := ForgetTime(at))];
      var sorted := OldFirst();
      if Bounded(before) {
        BoundedAlive(before);
        ForgetBounded(before, name, at, sorted);
      }
      ghost var marked := items;
      err := RemoveOldest(sorted, stuck);
      assert forall k :: k in Evicted(marked) <==> k in before && k !in items;
    }

    lemma BoundedAlive(its: Items)
      requires Bounded(its)
      ensures |Alive(its)| <= MAX_ITEMS
    {
    }

    /** Removes the first of the forgotten until the rest fits. */
    method RemoveOldest(sorted: seq<string>, stuck: set<string>) returns (err: Option<Err>)
      requires InOrder(items, sorted) && forall k :: k in sorted <==> k in Forgotten(items)
      modifies `items
      ensures items == old(items) - Evicted(old(items))
      ensures err.Some? <==> exists k :: k in Evicted(old(items)) && k in stuck
    {
      ghost var before := items;
      EvictedIsPrefix(items, sorted);
      hide InOrder, Evicted, Failing, Forgotten, AnyIn;
      var n := Max(|sorted| - MAX_FORGOTTEN, 0);
      var errs: seq<Option<Err>> := [];
      NoneFailing();
      for i := 0 to n
        invariant forall k :: k in items <==> k in before && k !in sorted[..i]
        invariant forall k :: k in items ==> items[k] == before[k]
        invariant Failing(errs) <==> AnyIn(sorted[..i], stuck)
      {
        OneLonger(sorted, i);
        var e := Remove(sorted[i], stuck);
        FailingNext(errs, e);
        errs := errs + [e];
      }
      assert items == before - Evicted(before);
      err := Join(errs);
      JoinSome(errs);
      AnyOf(sorted[..n], Evicted(before), stuck);
    }

    /** Takes an item out of the store. Its file comes back at the next Open if it cannot be deleted. */
    method Remove(name: string, stuck: set<string>) returns (err: Option<Err>)
      modifies `items
      ensures items == old(items) - {name}
      ensures err == if name in stuck then Some(Leaf(Io)) else None
    {
      items := items - {name};
      err := if name in stuck then Some(Leaf(Io)) else None;
    }

    /**
     * Removes every item that can be read and is forgotten, or silent, for 7 days
     * or more. unreadable are the items whose file cannot be read, stuck those
     * whose file cannot be deleted.
     */
    method Sweep(now: int, unreadable: set<string>, stuck: set<string>) returns (err: Option<Err>)
      modifies `items
      ensures closed ==> items == old(items) && err == Some(Leaf(Closed))
      ensures !closed ==> items == AfterSweep(old(items), now, unreadable)
      ensures !closed ==> forall k :: k in items <==> k in old(items) && (k in unreadable || Stays(old(items)[k], now))
      ensures !closed ==> (err.Some? <==> exists k :: k in old(items) && (k in unreadable || (!Stays(old(items)[k], now) && k in stuck)))
      ensures Bounded(old(items)) ==> Bounded(items)
    {
      if closed {
        return Some(Leaf(Closed));
      }
      forall k | k in items ensures Expired(items[k], now) <==> !Stays(items[k], now) {
        ExpiredIff(items[k], now);
      }
      hide Expired, Stays, Bounded, Failing;
      var todo := items.Keys;
      var errs: seq<Option<Err>> := [];
      NoneFailing();
      while todo != {}
        invariant todo <= items.Keys <= old(items).Keys
        invariant forall k :: k in old(items) ==>
                    (k in items <==> k in todo || k in unreadable || !Expired(old(items)[k], now))
        invariant forall k :: k in items ==> items[k] == old(items)[k]
        invariant Failing(errs) <==>
                    exists k :: k in old(items) && k !in todo && (k in unreadable || (Expired(old(items)[k], now) && k in stuck))
        decreases |todo|
      {
        var k :| k in todo;
        todo := todo - {k};
        var e: Option<Err> := None;
        if k in unreadable {
          e := Some(Leaf(Io));
        } else if Expired(items[k], now) {
          e := Remove(k, stuck);
        }
        FailingNext(errs, e);
        errs := errs + [e];
      }
      assert items == AfterSweep(old(items), now, unreadable);
      if Bounded(old(items)) {
        SweepBounded(old(items), now, unreadable);
      }
      err := Join(errs);
      JoinSome(errs);
    }

    static lemma OneLonger(s: seq<string>, i: nat)
      requires i < |s|
      ensures forall k :: k in s[..i + 1] <==> k in s[..i] || k == s[i]
      ensures forall keys :: AnyIn(s[..i + 1], keys) <==> AnyIn(s[..i], keys) || s[i] in keys
    {
      assert s[..i + 1] == s[..i] + [s[i]];
    }

    static lemma AnyOf(s: seq<string>, gone: set<string>, keys: set<string>)
      requires forall k :: k in s <==> k in gone
      ensures AnyIn(s, keys) <==> exists k :: k in gone && k in keys
    {
    }

    static ghost predicate AnyIn(s: seq<string>, keys: set<string>) {
      exists k :: k in s && k in keys
    }

    static ghost predicate Failing(errs: seq<Option<Err>>) {
      exists e :: e in errs && e.Some?
    }

    static lemma NoneFailing()
      ensures !Failing([])
    {
    }

    static lemma FailingNext(errs: seq<Option<Err>>, e: Option<Err>)
      ensures Failing(errs + [e]) <==> Failing(errs) || e.Some?
    {
      if Failing(errs) {
        var x :| x in errs && x.Some?;
        assert x in errs + [e];
      }
      if e.Some? {
        assert e in errs + [e];
      }
    }

    static lemma JoinSome(errs: seq<Option<Err>>)
      ensures Failing(errs) <==> Join(errs).Some?
    {
      if Failing(errs) {
        var e :| e in errs && e.Some?;
        assert e.value in Present(errs);
      }
      if Join(errs).Some? {
        assert Present(errs)[0] in Present(errs);
      }
    }
  }
}

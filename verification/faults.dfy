/** Errors as trees, and IsPartial over them (types.go). */
module Faults {
  import opened Types

  datatype Fault =
    | UnknownItem | BadRange | BadItem | BadKey | SeriesCap | TooManyItems
    | OutOfOrder | Closed | Gone | RingSkipped | Io

  /** An error value, one that wraps another with a text, or several joined. */
  datatype Err = Leaf(fault: Fault) | Wrap(inner: Err) | Joined(parts: seq<Err>)

  predicate IsRejection(f: Fault) {
    f == SeriesCap || f == BadKey
  }

  /** f is somewhere in the tree. */
  predicate Is(e: Err, f: Fault) {
    match e
    case Leaf(g) => g == f
    case Wrap(inner) => Is(inner, f)
    case Joined(parts) => exists i :: 0 <= i < |parts| && Is(parts[i], f)
  }

  /** Joins what is there; nothing when there is nothing. */
  function Join(errs: seq<Option<Err>>): Option<Err> {
    var parts := Present(errs);
    if parts == [] then None else Some(Joined(parts))
  }

  function Present(errs: seq<Option<Err>>): (parts: seq<Err>)
    ensures forall e :: e in parts <==> Some(e) in errs
  {
    if errs == [] then []
    else Present(errs[..|errs| - 1]) + if errs[|errs| - 1].Some? then [errs[|errs| - 1].value] else []
  }

  /** As the code decides it: some rejection in the tree, and in every part of a join. */
  predicate IsPartialErr(e: Err) {
    (Is(e, SeriesCap) || Is(e, BadKey)) && (e.Joined? ==> forall i :: 0 <= i < |e.parts| ==> IsPartialErr(e.parts[i]))
  }

  predicate IsPartial(err: Option<Err>) {
    err.Some? && IsPartialErr(err.value)
  }

  /** The same with the loop of the source; the recursion never meets a nil part. */
  method IsPartialLoop(e: Err) returns (partial: bool)
    ensures partial == IsPartial(Some(e))
    decreases e
  {
    if Is(e, SeriesCap) || Is(e, BadKey) {
      if e.Joined? {
        for i := 0 to |e.parts|
          invariant forall k :: 0 <= k < i ==> IsPartialErr(e.parts[k])
        {
          var part := IsPartialLoop(e.parts[i]);
          if !part {
            return false;
          }
        }
      }
      return true;
    }
    return false;
  }

  // ---------------------------------------------------------------- what it is meant to say

  /** Only rejections at the leaves, and some: what the documentation promises IsPartial to mean. */
  ghost predicate OnlyRejections(e: Err) {
    (exists f :: IsRejection(f) && Is(e, f)) && forall f :: Is(e, f) ==> IsRejection(f)
  }

  /** No join in the tree is empty: errors.Join never builds one. */
  predicate Built(e: Err) {
    match e
    case Leaf(_) => true
    case Wrap(inner) => Built(inner)
    case Joined(parts) => |parts| > 0 && forall i :: 0 <= i < |parts| ==> Built(parts[i])
  }

  /** A rejection and another cause under one wrap that is not itself a join. */
  ghost predicate MixedWrap(e: Err) {
    e.Wrap? && (Is(e, SeriesCap) || Is(e, BadKey)) && exists f :: Is(e, f) && !IsRejection(f)
  }

  /** A mixed wrap, or a join of parts that are each mixed or fine, one at least mixed. */
  ghost predicate Hides(e: Err) {
    match e
    case Leaf(_) => false
    case Wrap(_) => MixedWrap(e)
    case Joined(parts) =>
      && (exists i :: 0 <= i < |parts| && Hides(parts[i]))
      && (forall i :: 0 <= i < |parts| ==> Hides(parts[i]) || OnlyRejections(parts[i]))
  }

  /** A part is read right exactly when no mixed wrap hides in it. */
  lemma {:induction false} PartialIff(e: Err)
    requires Built(e)
    ensures IsPartialErr(e) <==> OnlyRejections(e) || Hides(e)
    ensures !(OnlyRejections(e) && Hides(e))
  {
    match e
    case Leaf(f) =>
      assert Is(e, f);
    case Wrap(inner) =>
      SomeCause(e);
    case Joined(parts) =>
      forall i | 0 <= i < |parts|
        ensures IsPartialErr(parts[i]) <==> OnlyRejections(parts[i]) || Hides(parts[i])
        ensures !(OnlyRejections(parts[i]) && Hides(parts[i]))
      {
        PartialIff(parts[i]);
      }
      JoinedCauses(e);
  }

  lemma {:induction false} SomeCause(e: Err)
    requires Built(e)
    ensures exists f :: Is(e, f)
  {
    match e
    case Leaf(f) => assert Is(e, f);
    case Wrap(inner) =>
      SomeCause(inner);
      var f :| Is(inner, f);
      assert Is(e, f);
    case Joined(parts) =>
      SomeCause(parts[0]);
      var f :| Is(parts[0], f);
      assert Is(e, f);
  }

  lemma JoinedCauses(e: Err)
    requires e.Joined? && |e.parts| > 0 && Built(e)
    ensures OnlyRejections(e) <==> forall i :: 0 <= i < |e.parts| ==> OnlyRejections(e.parts[i])
  {
    if OnlyRejections(e) {
      forall i | 0 <= i < |e.parts| ensures OnlyRejections(e.parts[i]) {
        SomeCause(e.parts[i]);
        var f :| Is(e.parts[i], f);
        assert Is(e, f);
        forall g | Is(e.parts[i], g) ensures IsRejection(g) {
          assert Is(e, g);
        }
      }
    }
    if forall i :: 0 <= i < |e.parts| ==> OnlyRejections(e.parts[i]) {
      assert OnlyRejections(e.parts[0]);
      var f :| IsRejection(f) && Is(e.parts[0], f);
      assert Is(e, f);
    }
  }

  /** Every wrap holds a single cause. */
  predicate PlainWraps(e: Err) {
    match e
    case Leaf(_) => true
    case Wrap(inner) => !inner.Joined? && PlainWraps(inner)
    case Joined(parts) => forall i :: 0 <= i < |parts| ==> PlainWraps(parts[i])
  }

  /** On joins of leaves, wrapped or not, at any depth, IsPartial is exact. */
  lemma PartialExact(e: Err)
    requires Built(e) && PlainWraps(e)
    ensures IsPartialErr(e) <==> OnlyRejections(e)
  {
    PartialIff(e);
    NothingHides(e);
  }

  lemma {:induction false} NothingHides(e: Err)
    requires PlainWraps(e)
    ensures !Hides(e)
  {
    match e
    case Leaf(_) =>
    case Wrap(_) => OneCause(e);
    case Joined(parts) =>
      forall i | 0 <= i < |parts| ensures !Hides(parts[i]) {
        NothingHides(parts[i]);
      }
  }

  lemma {:induction false} OneCause(e: Err)
    requires PlainWraps(e) && !e.Joined?
    ensures forall f, g :: Is(e, f) && Is(e, g) ==> f == g
  {
    if e.Wrap? {
      OneCause(e.inner);
    }
  }

  /** Around a mixed join, one wrap is enough to call an error partial that is not. */
  lemma WrapHidesFailure()
    ensures var e := Wrap(Joined([Leaf(BadKey), Leaf(Io)]));
            Built(e) && IsPartialErr(e) && !OnlyRejections(e) && !IsPartialErr(e.inner)
  {
    var parts := [Leaf(BadKey), Leaf(Io)];
    var e := Wrap(Joined(parts));
    assert Is(parts[0], BadKey) && Is(parts[1], Io);
    assert Is(Joined(parts), BadKey) && Is(Joined(parts), Io);
    assert Is(e, Io);
    assert !IsPartialErr(parts[1]);
  }
}

/**
 * The dispatcher that drives a diff iterator to the end and delivers every
 * diff, and a boundary event at every change of item type, to an ordered
 * list of visitors. A visitor is either a plain functor (called with every
 * diff, never with boundary events) or a diff handler (per-type callbacks
 * plus `init`, `before_*`, `after_*` and `done`).
 */
module DiffVisitor {
  import opened Entities
  import opened DiffIterators

  datatype Option<T> = None | Some(value: T)

  /** Which of the two visitor protocols a visitor follows. */
  datatype Shape = Functor | Handler

  /** One call received by a visitor. */
  datatype Event =
    | Call(diff: Diff)          // functor: operator() on the narrowed diff
    | OnNode(diff: Diff)        // handler: node()
    | OnWay(diff: Diff)         // handler: way()
    | OnRelation(diff: Diff)    // handler: relation()
    | Init | Done
    | BeforeNodes | AfterNodes
    | BeforeWays | AfterWays
    | BeforeRelations | AfterRelations

  /** A call together with the position of the visitor that received it. */
  datatype Delivery = Delivery(visitor: nat, event: Event)

  type Trace = seq<Delivery>

  /** `Completed`, or aborted by the "unknown type" runtime error. */
  datatype Status = Completed | UnknownType

  /** The calls made, in order, and how the dispatch ended. */
  datatype Outcome = Outcome(trace: Trace, status: Status)

  /** The calls one visitor receives, and how the dispatch ended. */
  datatype Log = Log(events: seq<Event>, status: Status)

  /** Boundary events: the ones that leave a kind ... */
  predicate IsLeaveHook(ev: Event)
  {
    ev.Init? || ev.AfterNodes? || ev.AfterWays? || ev.AfterRelations?
  }

  /** ... and the ones that enter a kind. */
  predicate IsEnterHook(ev: Event)
  {
    ev.Done? || ev.BeforeNodes? || ev.BeforeWays? || ev.BeforeRelations?
  }

  predicate IsHook(ev: Event)
  {
    IsLeaveHook(ev) || IsEnterHook(ev)
  }

  /** The kind a leave hook closes (`init` closes the initial `Undefined`). */
  function Leaves(ev: Event): Kind
    requires IsLeaveHook(ev)
  {
    match ev
    case Init => Undefined
    case AfterNodes => Node
    case AfterWays => Way
    case AfterRelations => Relation
  }

  /** The kind an enter hook opens (`done` opens the final `Undefined`). */
  function Enters(ev: Event): Kind
    requires IsEnterHook(ev)
  {
    match ev
    case Done => Undefined
    case BeforeNodes => Node
    case BeforeWays => Way
    case BeforeRelations => Relation
  }

  /** The kinds for which a handler has boundary hooks. */
  predicate HasHooks(k: Kind)
  {
    k == Undefined || IsObjectKind(k)
  }

  /**
   * `switch_on_type`: narrow a diff to its item type and make the matching
   * call on one visitor; any other type is the "unknown type" error.
   */
  function SwitchOnType(shape: Shape, d: Diff): (r: Option<Event>)
    ensures r.Some? <==> IsObjectKind(d.kind)
    ensures r.Some? ==> !IsHook(r.value) && r.value.diff == d
    ensures r.Some? ==> (r.value.Call? <==> shape == Functor)
    ensures r.Some? && shape == Handler ==>
      && (r.value.OnNode? <==> d.kind == Node)
      && (r.value.OnWay? <==> d.kind == Way)
      && (r.value.OnRelation? <==> d.kind == Relation)
  {
    match shape
    case Functor =>
      (match d.kind
       case Node => Some(Call(d))
       case Way => Some(Call(d))
       case Relation => Some(Call(d))
       case _ => None)
    case Handler =>
      (match d.kind
       case Node => Some(OnNode(d))
       case Way => Some(OnWay(d))
       case Relation => Some(OnRelation(d))
       case _ => None)
  }

  /**
   * `switch_on_type_before_after`: for a handler, the hook that leaves
   * `last`, then the hook that enters `current`; a kind without hooks gives
   * no call for its half. A functor gets nothing.
   */
  function SwitchOnTypeBeforeAfter(last: Kind, current: Kind, shape: Shape): (r: seq<Event>)
    ensures shape == Functor ==> r == []
    ensures forall j :: 0 <= j < |r| ==> IsHook(r[j])
    ensures shape == Handler ==>
      |r| == (if HasHooks(last) then 1 else 0) + (if HasHooks(current) then 1 else 0)
    ensures shape == Handler && HasHooks(last) ==> IsLeaveHook(r[0]) && Leaves(r[0]) == last
    ensures shape == Handler && HasHooks(current) ==>
      IsEnterHook(r[|r| - 1]) && Enters(r[|r| - 1]) == current
  {
    match shape
    case Functor => []
    case Handler => LeaveHook(last) + EnterHook(current)
  }

  /** The hook that leaves the previous type, if it has one. */
  function LeaveHook(last: Kind): (r: seq<Event>)
    ensures |r| == if HasHooks(last) then 1 else 0
    ensures forall j :: 0 <= j < |r| ==> IsLeaveHook(r[j]) && Leaves(r[j]) == last
  {
    match last
    case Undefined => [Init]
    case Node => [AfterNodes]
    case Way => [AfterWays]
    case Relation => [AfterRelations]
    case Other => []
  }

  /** The hook that enters the new type, if it has one. */
  function EnterHook(current: Kind): (r: seq<Event>)
    ensures |r| == if HasHooks(current) then 1 else 0
    ensures forall j :: 0 <= j < |r| ==> IsEnterHook(r[j]) && Enters(r[j]) == current
  {
    match current
    case Undefined => [Done]
    case Node => [BeforeNodes]
    case Way => [BeforeWays]
    case Relation => [BeforeRelations]
    case Other => []
  }

  /** The calls in `t` received by visitor `v`, in order. */
  function Events(t: Trace, v: nat): seq<Event>
  {
    if |t| == 0 then []
    else (if t[0].visitor == v then [t[0].event] else []) + Events(t[1..], v)
  }

  lemma {:induction false} EventsAppend(a: Trace, b: Trace, v: nat)
    ensures Events(a + b, v) == Events(a, v) + Events(b, v)
  {
    if |a| == 0 {
      assert a + b == b;
    } else {
      var head := if a[0].visitor == v then [a[0].event] else [];
      assert (a + b)[0] == a[0];
      assert (a + b)[1..] == a[1..] + b;
      EventsAppend(a[1..], b, v);
      assert head + (Events(a[1..], v) + Events(b, v)) == (head + Events(a[1..], v)) + Events(b, v);
    }
  }

  /**
   * `apply_diff_iterator_recurse` over the visitors from position `i` on:
   * each visitor in turn gets the narrowed call; an unknown type aborts at
   * the first visitor, before anything is delivered.
   */
  function ApplyDiffIteratorRecurse(d: Diff, visitors: seq<Shape>, i: nat): (o: Outcome)
    requires i < |visitors|
    decreases |visitors| - i
    ensures o.status == Completed <==> IsObjectKind(d.kind)
    ensures o.status == UnknownType ==> o.trace == []
    ensures o.status == Completed ==> |o.trace| == |visitors| - i
  {
    match SwitchOnType(visitors[i], d)
    case None => Outcome([], UnknownType)
    case Some(ev) =>
      if i + 1 == |visitors| then Outcome([Delivery(i, ev)], Completed)
      else
        var rest := ApplyDiffIteratorRecurse(d, visitors, i + 1);
        Outcome([Delivery(i, ev)] + rest.trace, rest.status)
  }

  /** The calls go to visitor `i`, `i + 1`, ... in argument order, each the narrowed call for that visitor. */
  lemma {:induction false} CallsInOrder(d: Diff, visitors: seq<Shape>, i: nat)
    requires i < |visitors|
    decreases |visitors| - i
    ensures forall j :: 0 <= j < |ApplyDiffIteratorRecurse(d, visitors, i).trace| ==>
      ApplyDiffIteratorRecurse(d, visitors, i).trace[j] == Delivery(i + j, SwitchOnType(visitors[i + j], d).value)
  {
    var o := ApplyDiffIteratorRecurse(d, visitors, i);
    if IsObjectKind(d.kind) && i + 1 < |visitors| {
      var rest := ApplyDiffIteratorRecurse(d, visitors, i + 1);
      CallsInOrder(d, visitors, i + 1);
      assert o.trace == [Delivery(i, SwitchOnType(visitors[i], d).value)] + rest.trace;
      forall j | 0 < j < |o.trace|
        ensures o.trace[j] == Delivery(i + j, SwitchOnType(visitors[i + j], d).value)
      {
        assert o.trace[j] == rest.trace[j - 1];
        assert rest.trace[j - 1] == Delivery(i + 1 + (j - 1), SwitchOnType(visitors[i + 1 + (j - 1)], d).value);
      }
    }
  }

  /** Each visitor receives exactly its own narrowed call, and only when the type is known. */
  lemma CallsPerVisitor(d: Diff, visitors: seq<Shape>, v: nat)
    requires 0 < |visitors|
    ensures var o := ApplyDiffIteratorRecurse(d, visitors, 0);
      Events(o.trace, v) ==
        if o.status == Completed && v < |visitors| then [SwitchOnType(visitors[v], d).value] else []
  {
    var o := ApplyDiffIteratorRecurse(d, visitors, 0);
    CallsInOrder(d, visitors, 0);
    EventsOfRound(o.trace, 0, v);
  }

  /** The calls received by `v` from a trace that delivers to `i`, `i + 1`, ... in turn. */
  lemma {:induction false} EventsOfRound(t: Trace, i: nat, v: nat)
    requires forall j :: 0 <= j < |t| ==> t[j].visitor == i + j
    ensures Events(t, v) == if i <= v < i + |t| then [t[v - i].event] else []
  {
    if |t| > 0 {
      EventsOfRound(t[1..], i + 1, v);
      if i == v {
        OtherEvents(t[1..], v);
      }
    }
  }

  /** No call of a trace that only delivers to later visitors reaches `v`. */
  lemma {:induction false} OtherEvents(t: Trace, v: nat)
    requires forall j :: 0 <= j < |t| ==> t[j].visitor > v
    ensures Events(t, v) == []
  {
    if |t| > 0 {
      OtherEvents(t[1..], v);
    }
  }

  /** The transition delivered to visitor `i` alone. */
  function Deliver(i: nat, evs: seq<Event>): (r: Trace)
    ensures |r| == |evs| && forall j :: 0 <= j < |r| ==> r[j] == Delivery(i, evs[j])
  {
    if |evs| == 0 then [] else [Delivery(i, evs[0])] + Deliver(i, evs[1..])
  }

  /**
   * `apply_before_and_after_recurse` over the visitors from position `i`
   * on: each visitor receives both halves of the transition before the next
   * visitor receives anything.
   */
  function ApplyBeforeAndAfterRecurse(last: Kind, current: Kind, visitors: seq<Shape>, i: nat): (r: Trace)
    requires i < |visitors|
    decreases |visitors| - i
    ensures |r| <= 2 * (|visitors| - i)
  {
    var mine := Deliver(i, SwitchOnTypeBeforeAfter(last, current, visitors[i]));
    if i + 1 == |visitors| then mine
    else mine + ApplyBeforeAndAfterRecurse(last, current, visitors, i + 1)
  }

  /** Every call in `t` is a boundary hook addressed to a visitor in `[lo, hi)`. */
  ghost predicate HooksTo(t: Trace, lo: nat, hi: nat)
  {
    forall j :: 0 <= j < |t| ==> lo <= t[j].visitor < hi && IsHook(t[j].event)
  }

  /** The calls in `t` reach the visitors in non-decreasing position order. */
  ghost predicate InVisitorOrder(t: Trace)
  {
    forall j, j' :: 0 <= j < j' < |t| ==> t[j].visitor <= t[j'].visitor
  }

  /** A transition carries only boundary hooks, addressed to visitors `i` and later. */
  lemma {:induction false} TransitionHooks(last: Kind, current: Kind, visitors: seq<Shape>, i: nat)
    requires i < |visitors|
    decreases |visitors| - i
    ensures HooksTo(ApplyBeforeAndAfterRecurse(last, current, visitors, i), i, |visitors|)
  {
    var mine := Deliver(i, SwitchOnTypeBeforeAfter(last, current, visitors[i]));
    if i + 1 < |visitors| {
      TransitionHooks(last, current, visitors, i + 1);
      HooksAppend(mine, ApplyBeforeAndAfterRecurse(last, current, visitors, i + 1), i, |visitors|);
    }
  }

  lemma HooksAppend(a: Trace, b: Trace, lo: nat, hi: nat)
    requires HooksTo(a, lo, hi) && HooksTo(b, lo + 1, hi)
    ensures HooksTo(a + b, lo, hi)
  {
    forall j | |a| <= j < |a + b|
      ensures lo <= (a + b)[j].visitor < hi && IsHook((a + b)[j].event)
    {
      assert (a + b)[j] == b[j - |a|];
    }
  }

  /**
   * A transition is delivered in argument order: both halves for one
   * visitor come before anything for the next.
   */
  lemma {:induction false} TransitionInOrder(last: Kind, current: Kind, visitors: seq<Shape>, i: nat)
    requires i < |visitors|
    decreases |visitors| - i
    ensures InVisitorOrder(ApplyBeforeAndAfterRecurse(last, current, visitors, i))
  {
    var mine := Deliver(i, SwitchOnTypeBeforeAfter(last, current, visitors[i]));
    if i + 1 < |visitors| {
      TransitionInOrder(last, current, visitors, i + 1);
      TransitionHooks(last, current, visitors, i + 1);
      OrderAppend(mine, ApplyBeforeAndAfterRecurse(last, current, visitors, i + 1), i);
    }
  }

  lemma OrderAppend(a: Trace, b: Trace, i: nat)
    requires forall j :: 0 <= j < |a| ==> a[j].visitor == i
    requires forall j :: 0 <= j < |b| ==> i < b[j].visitor
    requires InVisitorOrder(b)
    ensures InVisitorOrder(a + b)
  {
    forall j, j' | 0 <= j < j' < |a + b|
      ensures (a + b)[j].visitor <= (a + b)[j'].visitor
    {
      if j' >= |a| {
        assert (a + b)[j'] == b[j' - |a|];
        if j >= |a| {
          assert (a + b)[j] == b[j - |a|];
        }
      }
    }
  }

  /** Each visitor receives exactly its own two halves of the transition. */
  lemma {:induction false} TransitionPerVisitor(last: Kind, current: Kind, visitors: seq<Shape>, i: nat, v: nat)
    requires i < |visitors|
    decreases |visitors| - i
    ensures i <= v < |visitors| ==>
      Events(ApplyBeforeAndAfterRecurse(last, current, visitors, i), v) == SwitchOnTypeBeforeAfter(last, current, visitors[v])
    ensures v < i || |visitors| <= v ==> Events(ApplyBeforeAndAfterRecurse(last, current, visitors, i), v) == []
  {
    if v < i || v >= |visitors| {
      TransitionElsewhere(last, current, visitors, i, v);
    } else if v == i {
      TransitionHere(last, current, visitors, i);
    } else {
      TransitionPerVisitor(last, current, visitors, i + 1, v);
      TransitionSkip(last, current, visitors, i, v);
    }
  }

  /** A visitor outside `[i, |visitors|)` receives nothing from the transition. */
  lemma TransitionElsewhere(last: Kind, current: Kind, visitors: seq<Shape>, i: nat, v: nat)
    requires i < |visitors| && (v < i || |visitors| <= v)
    ensures Events(ApplyBeforeAndAfterRecurse(last, current, visitors, i), v) == []
  {
    TransitionHooks(last, current, visitors, i);
    OutsideEvents(ApplyBeforeAndAfterRecurse(last, current, visitors, i), i, |visitors|, v);
  }

  /** Visitor `i` receives its own two halves of the transition. */
  lemma TransitionHere(last: Kind, current: Kind, visitors: seq<Shape>, i: nat)
    requires i < |visitors|
    ensures Events(ApplyBeforeAndAfterRecurse(last, current, visitors, i), i)
         == SwitchOnTypeBeforeAfter(last, current, visitors[i])
  {
    var here := SwitchOnTypeBeforeAfter(last, current, visitors[i]);
    DeliverEvents(i, here, i);
    if i + 1 < |visitors| {
      var rest := ApplyBeforeAndAfterRecurse(last, current, visitors, i + 1);
      TransitionElsewhere(last, current, visitors, i + 1, i);
      EventsOfConcat(Deliver(i, here), rest, i, i, here);
    }
  }

  /** A visitor after `i` receives nothing from visitor `i`'s part of the transition. */
  lemma TransitionSkip(last: Kind, current: Kind, visitors: seq<Shape>, i: nat, v: nat)
    requires i < v < |visitors|
    ensures Events(ApplyBeforeAndAfterRecurse(last, current, visitors, i), v)
         == Events(ApplyBeforeAndAfterRecurse(last, current, visitors, i + 1), v)
  {
    var here := SwitchOnTypeBeforeAfter(last, current, visitors[i]);
    DeliverEvents(i, here, v);
    EventsOfConcat(Deliver(i, here), ApplyBeforeAndAfterRecurse(last, current, visitors, i + 1), i, v, here);
  }

  /** The step of the induction above: what visitor `i` gets, then what the visitors after `i` get. */
  lemma EventsOfConcat(mine: Trace, rest: Trace, i: nat, v: nat, here: seq<Event>)
    requires Events(mine, v) == if v == i then here else []
    requires v <= i ==> Events(rest, v) == []
    ensures Events(mine + rest, v) == if v == i then here else Events(rest, v)
  {
    EventsAppend(mine, rest, v);
    if v == i {
      assert here + [] == here;
    } else {
      assert [] + Events(rest, v) == Events(rest, v);
    }
  }

  /** A visitor outside `[lo, hi)` receives nothing from hooks addressed to `[lo, hi)`. */
  lemma {:induction false} OutsideEvents(t: Trace, lo: nat, hi: nat, v: nat)
    requires HooksTo(t, lo, hi) && (v < lo || hi <= v)
    ensures Events(t, v) == []
  {
    if |t| > 0 {
      OutsideEvents(t[1..], lo, hi, v);
    }
  }

  /** A transition delivered to visitor `i` reaches `i` and nobody else. */
  lemma DeliverEvents(i: nat, evs: seq<Event>, v: nat)
    ensures Events(Deliver(i, evs), v) == if v == i then evs else []
  {
    if v == i {
      OwnEvents(Deliver(i, evs), i, evs);
    } else {
      NotMine(Deliver(i, evs), i, v);
    }
  }

  lemma {:induction false} OwnEvents(t: Trace, v: nat, evs: seq<Event>)
    requires |t| == |evs| && forall j :: 0 <= j < |t| ==> t[j] == Delivery(v, evs[j])
    ensures Events(t, v) == evs
  {
    if |t| > 0 {
      OwnEvents(t[1..], v, evs[1..]);
    }
  }

  lemma {:induction false} NotMine(t: Trace, v: nat, w: nat)
    requires v != w && forall j :: 0 <= j < |t| ==> t[j].visitor == v
    ensures Events(t, w) == []
  {
    if |t| > 0 {
      NotMine(t[1..], v, w);
    }
  }

  function Prepend(t: Trace, o: Outcome): Outcome
  {
    Outcome(t + o.trace, o.status)
  }

  lemma PrependAssoc(a: Trace, b: Trace, o: Outcome)
    ensures Prepend(a, Prepend(b, o)) == Prepend(a + b, o)
  {
    assert a + (b + o.trace) == a + b + o.trace;
  }

  /**
   * What `apply_diff` does for one object whose diff is `d`, when the last
   * type seen is `last`: the boundary hooks if the type changed, then the
   * diff to every visitor.
   */
  function DispatchAt(last: Kind, d: Diff, visitors: seq<Shape>): Outcome
    requires |visitors| > 0
  {
    var hooks := if last != d.kind then ApplyBeforeAndAfterRecurse(last, d.kind, visitors, 0) else [];
    var calls := ApplyDiffIteratorRecurse(d, visitors, 0);
    Outcome(hooks + calls.trace, calls.status)
  }

  /**
   * One object as one visitor sees it: its halves of the transition when the
   * type changed, then its narrowed call; the dispatch goes on exactly when
   * the type is known.
   */
  lemma DispatchAtPerVisitor(last: Kind, d: Diff, visitors: seq<Shape>, v: nat)
    requires v < |visitors|
    ensures DispatchAt(last, d, visitors).status == Completed <==> IsObjectKind(d.kind)
    ensures Events(DispatchAt(last, d, visitors).trace, v)
         == (if last != d.kind then SwitchOnTypeBeforeAfter(last, d.kind, visitors[v]) else [])
          + (if IsObjectKind(d.kind) then [SwitchOnType(visitors[v], d).value] else [])
  {
    var hooks := if last != d.kind then ApplyBeforeAndAfterRecurse(last, d.kind, visitors, 0) else [];
    var calls := ApplyDiffIteratorRecurse(d, visitors, 0);
    if last != d.kind {
      TransitionPerVisitor(last, d.kind, visitors, 0, v);
    }
    CallsPerVisitor(d, visitors, v);
    EventsAppend(hooks, calls.trace, v);
  }

  /**
   * What `apply_diff` delivers from stream position `c` on, when the last
   * type seen is `last`: each object in turn as `DispatchAt` says, stopping
   * at the first unknown type; at the end the final transition to
   * `Undefined`.
   */
  function DispatchFrom(s: seq<Entity>, begin: nat, end: nat, c: nat, last: Kind, visitors: seq<Shape>): Outcome
    requires begin <= c <= end <= |s| && |visitors| > 0
    decreases end - c
  {
    if c == end then Outcome(ApplyBeforeAndAfterRecurse(last, Undefined, visitors, 0), Completed)
    else
      var d := ExpectedDiff(s, begin, end, c);
      var here := DispatchAt(last, d, visitors);
      if here.status == UnknownType then here
      else Prepend(here.trace, DispatchFrom(s, begin, end, c + 1, d.kind, visitors))
  }

  /**
   * The dispatch loop in accumulator form: `trace` holds the calls already
   * delivered; each turn appends what `DispatchAt` delivers for the object
   * at `c` and stops at the first unknown type.
   */
  function DispatchLoop(s: seq<Entity>, begin: nat, end: nat, c: nat, last: Kind, visitors: seq<Shape>,
                        trace: Trace): Outcome
    requires begin <= c <= end <= |s| && |visitors| > 0
    decreases end - c
  {
    if c == end then Outcome(trace + ApplyBeforeAndAfterRecurse(last, Undefined, visitors, 0), Completed)
    else
      var d := ExpectedDiff(s, begin, end, c);
      var here := DispatchAt(last, d, visitors);
      if here.status == UnknownType then Outcome(trace + here.trace, UnknownType)
      else DispatchLoop(s, begin, end, c + 1, d.kind, visitors, trace + here.trace)
  }

  /** The loop delivers the calls already made, followed by the recursive dispatch of the rest. */
  lemma {:induction false} DispatchLoopIsDispatchFrom(s: seq<Entity>, begin: nat, end: nat, c: nat, last: Kind,
                                                      visitors: seq<Shape>, trace: Trace)
    requires begin <= c <= end <= |s| && |visitors| > 0
    decreases end - c
    ensures DispatchLoop(s, begin, end, c, last, visitors, trace)
         == Prepend(trace, DispatchFrom(s, begin, end, c, last, visitors))
  {
    if c < end {
      var d := ExpectedDiff(s, begin, end, c);
      var here := DispatchAt(last, d, visitors);
      if here.status == Completed {
        DispatchLoopIsDispatchFrom(s, begin, end, c + 1, d.kind, visitors, trace + here.trace);
        PrependAssoc(trace, here.trace, DispatchFrom(s, begin, end, c + 1, d.kind, visitors));
      }
    }
  }

  /**
   * The loop of `apply_diff`: drive `dit` up to `dend`, tracking the last
   * type seen, and finish with the transition to `Undefined`.
   */
  method DispatchIterators(dit: DiffIterator, dend: DiffIterator, visitors: seq<Shape>) returns (o: Outcome)
    requires dit.Valid() && dit.steps == 0 && dend.curr == dit.end && dend.end == dit.end && |visitors| > 0
    modifies dit
    ensures o == DispatchLoop(dit.s, dit.begin, dit.end, dit.begin, Undefined, visitors, [])
  {
    ghost var s, begin, end := dit.s, dit.begin, dit.end;
    var lastType := Undefined;
    var trace: Trace := [];
    ghost var c := begin;
    while !dit.Equals(dend)
      invariant dit.Valid() && dit.s == s && dit.begin == begin && dit.end == end
      invariant dend.curr == end && dend.end == end
      invariant begin <= c <= end && dit.curr == c
      invariant DispatchLoop(s, begin, end, c, lastType, visitors, trace)
             == DispatchLoop(s, begin, end, begin, Undefined, visitors, [])
      decreases end - c
    {
      var d := dit.Deref();
      var here := DispatchAt(lastType, d, visitors);
      trace := trace + here.trace;
      if here.status == UnknownType {
        return Outcome(trace, UnknownType);
      }
      lastType := d.kind;
      dit.Increment();
      c := c + 1;
    }
    trace := trace + ApplyBeforeAndAfterRecurse(lastType, Undefined, visitors, 0);
    o := Outcome(trace, Completed);
  }

  /** `apply_diff` over the range `[begin, end)` of `s`. */
  method ApplyDiff(s: seq<Entity>, begin: nat, end: nat, visitors: seq<Shape>) returns (o: Outcome)
    requires begin <= end <= |s| && |visitors| > 0
    ensures o == DispatchFrom(s, begin, end, begin, Undefined, visitors)
  {
    var dit := new DiffIterator(s, begin, end);
    var dend := new DiffIterator(s, end, end);
    o := DispatchIterators(dit, dend, visitors);
    DispatchLoopIsDispatchFrom(s, begin, end, begin, Undefined, visitors, []);
  }

  /** `apply_diff` on a buffer (mutable or read-only): the whole buffer as the range. */
  method ApplyDiffToBuffer(buffer: seq<Entity>, visitors: seq<Shape>) returns (o: Outcome)
    requires |visitors| > 0
    ensures o == DispatchFrom(buffer, 0, |buffer|, 0, Undefined, visitors)
  {
    o := ApplyDiff(buffer, 0, |buffer|, visitors);
  }

  /**
   * Reference definition: what one visitor of the given shape receives when
   * it is the only visitor, from position `c` on with last type `last`.
   */
  function VisitorRun(s: seq<Entity>, begin: nat, end: nat, c: nat, last: Kind, shape: Shape): Log
    requires begin <= c <= end <= |s|
    decreases end - c
  {
    if c == end then Log(SwitchOnTypeBeforeAfter(last, Undefined, shape), Completed)
    else
      var d := ExpectedDiff(s, begin, end, c);
      var hooks := if last != d.kind then SwitchOnTypeBeforeAfter(last, d.kind, shape) else [];
      match SwitchOnType(shape, d)
      case None => Log(hooks, UnknownType)
      case Some(ev) =>
        var rest := VisitorRun(s, begin, end, c + 1, d.kind, shape);
        Log(hooks + [ev] + rest.events, rest.status)
  }

  /**
   * Fan-out is faithful: in the interleaved trace, every visitor receives
   * exactly the calls it would receive on its own, and the dispatch ends
   * the same way.
   */
  lemma {:induction false} EachVisitorSeesItsOwnRun(s: seq<Entity>, begin: nat, end: nat, c: nat, last: Kind,
                                                    visitors: seq<Shape>, v: nat)
    requires begin <= c <= end <= |s| && v < |visitors|
    decreases end - c
    ensures Events(DispatchFrom(s, begin, end, c, last, visitors).trace, v)
         == VisitorRun(s, begin, end, c, last, visitors[v]).events
    ensures DispatchFrom(s, begin, end, c, last, visitors).status
         == VisitorRun(s, begin, end, c, last, visitors[v]).status
  {
    if c == end {
      TransitionPerVisitor(last, Undefined, visitors, 0, v);
    } else {
      var d := ExpectedDiff(s, begin, end, c);
      var here := DispatchAt(last, d, visitors);
      DispatchAtPerVisitor(last, d, visitors, v);
      if here.status == Completed {
        var rest := DispatchFrom(s, begin, end, c + 1, d.kind, visitors);
        EachVisitorSeesItsOwnRun(s, begin, end, c + 1, d.kind, visitors, v);
        EventsAppend(here.trace, rest.trace, v);
      }
    }
  }

  /** Every object from `c` up to `end` is a node, a way or a relation. */
  predicate KnownKinds(s: seq<Entity>, c: nat, end: nat)
    requires c <= end <= |s|
    decreases end - c
  {
    c == end || (IsObjectKind(s[c].kind) && KnownKinds(s, c + 1, end))
  }

  lemma {:induction false} KnownKindsMeansObjects(s: seq<Entity>, c: nat, end: nat)
    requires c <= end <= |s|
    decreases end - c
    ensures KnownKinds(s, c, end) <==> forall i :: c <= i < end ==> IsObjectKind(s[i].kind)
  {
    if c < end {
      KnownKindsMeansObjects(s, c + 1, end);
      if IsObjectKind(s[c].kind) {
        assert (forall i :: c <= i < end ==> IsObjectKind(s[i].kind))
           <==> (forall i :: c + 1 <= i < end ==> IsObjectKind(s[i].kind));
      }
    }
  }

  /**
   * The dispatch runs to the end exactly when every object from `c` on is a
   * node, a way or a relation; otherwise it stops with "unknown type".
   */
  lemma {:induction false} CompletesIffKnownKinds(s: seq<Entity>, begin: nat, end: nat, c: nat, last: Kind,
                                                  visitors: seq<Shape>)
    requires begin <= c <= end <= |s| && |visitors| > 0
    decreases end - c
    ensures DispatchFrom(s, begin, end, c, last, visitors).status == Completed <==> KnownKinds(s, c, end)
  {
    if c < end {
      CompletesIffKnownKinds(s, begin, end, c + 1, s[c].kind, visitors);
      DispatchStatusStep(s, begin, end, c, last, visitors);
    }
  }

  /** The whole dispatch completes exactly when no object has an unknown type. */
  lemma DispatchCompletesIffKnownKinds(s: seq<Entity>, begin: nat, end: nat, visitors: seq<Shape>)
    requires begin <= end <= |s| && |visitors| > 0
    ensures DispatchFrom(s, begin, end, begin, Undefined, visitors).status == Completed
        <==> forall i :: begin <= i < end ==> IsObjectKind(s[i].kind)
  {
    CompletesIffKnownKinds(s, begin, end, begin, Undefined, visitors);
    KnownKindsMeansObjects(s, begin, end);
  }

  /** One turn of the dispatch: it goes on past the object at `c` exactly when its type is known. */
  lemma DispatchStatusStep(s: seq<Entity>, begin: nat, end: nat, c: nat, last: Kind, visitors: seq<Shape>)
    requires begin <= c < end <= |s| && |visitors| > 0
    ensures DispatchFrom(s, begin, end, c, last, visitors).status
         == if IsObjectKind(s[c].kind) then DispatchFrom(s, begin, end, c + 1, s[c].kind, visitors).status
            else UnknownType
  {
    DispatchAtPerVisitor(last, ExpectedDiff(s, begin, end, c), visitors, 0);
  }

  /** `evs` are `operator()` calls on the diffs of the objects at `c`, `c + 1`, ... in turn. */
  ghost predicate DiffCallsFrom(evs: seq<Event>, s: seq<Entity>, begin: nat, end: nat, c: nat)
    requires begin <= c <= end <= |s|
  {
    && c + |evs| <= end
    && forall j :: 0 <= j < |evs| ==> evs[j] == Call(ExpectedDiff(s, begin, end, c + j))
  }

  /** One object, as a functor sees it: its diff if the type is known, else the abort. */
  lemma FunctorStep(s: seq<Entity>, begin: nat, end: nat, c: nat, last: Kind)
    requires begin <= c < end <= |s|
    ensures IsObjectKind(s[c].kind) ==>
      VisitorRun(s, begin, end, c, last, Functor).events
        == [Call(ExpectedDiff(s, begin, end, c))] + VisitorRun(s, begin, end, c + 1, s[c].kind, Functor).events
    ensures IsObjectKind(s[c].kind) ==>
      VisitorRun(s, begin, end, c, last, Functor).status == VisitorRun(s, begin, end, c + 1, s[c].kind, Functor).status
    ensures !IsObjectKind(s[c].kind) ==> VisitorRun(s, begin, end, c, last, Functor) == Log([], UnknownType)
  {
    var d := ExpectedDiff(s, begin, end, c);
    var hooks := if last != d.kind then SwitchOnTypeBeforeAfter(last, d.kind, Functor) else [];
    assert hooks == [];
  }

  lemma DiffCallsCons(s: seq<Entity>, begin: nat, end: nat, c: nat, rest: seq<Event>)
    requires begin <= c < end <= |s| && DiffCallsFrom(rest, s, begin, end, c + 1)
    ensures DiffCallsFrom([Call(ExpectedDiff(s, begin, end, c))] + rest, s, begin, end, c)
  {
    var evs := [Call(ExpectedDiff(s, begin, end, c))] + rest;
    forall j | 0 < j < |evs|
      ensures evs[j] == Call(ExpectedDiff(s, begin, end, c + j))
    {
      assert evs[j] == rest[j - 1];
    }
  }

  /**
   * A functor receives no boundary call: only the diffs, one per object, in
   * stream order, and all of them when the dispatch completes.
   */
  lemma {:induction false} FunctorSeesOnlyDiffs(s: seq<Entity>, begin: nat, end: nat, c: nat, last: Kind)
    requires begin <= c <= end <= |s|
    decreases end - c
    ensures DiffCallsFrom(VisitorRun(s, begin, end, c, last, Functor).events, s, begin, end, c)
    ensures VisitorRun(s, begin, end, c, last, Functor).status == Completed ==>
      |VisitorRun(s, begin, end, c, last, Functor).events| == end - c
  {
    if c == end {
      assert VisitorRun(s, begin, end, c, last, Functor).events == [];
    } else {
      FunctorStep(s, begin, end, c, last);
      if IsObjectKind(s[c].kind) {
        FunctorSeesOnlyDiffs(s, begin, end, c + 1, s[c].kind);
        DiffCallsCons(s, begin, end, c, VisitorRun(s, begin, end, c + 1, s[c].kind, Functor).events);
      }
    }
  }

  /** The number of objects from `c` on whose type differs from the type before it. */
  function KindChanges(s: seq<Entity>, c: nat, end: nat, last: Kind): nat
    requires c <= end <= |s|
    decreases end - c
  {
    if c == end then 0
    else (if s[c].kind != last then 1 else 0) + KindChanges(s, c + 1, end, s[c].kind)
  }

  function CountHooks(evs: seq<Event>): nat
  {
    if |evs| == 0 then 0 else (if IsHook(evs[0]) then 1 else 0) + CountHooks(evs[1..])
  }

  lemma {:induction false} CountHooksAppend(a: seq<Event>, b: seq<Event>)
    ensures CountHooks(a + b) == CountHooks(a) + CountHooks(b)
  {
    if |a| == 0 {
      assert a + b == b;
    } else {
      assert (a + b)[1..] == a[1..] + b;
      CountHooksAppend(a[1..], b);
    }
  }

  /**
   * Hooks fire exactly once per change of type: a handler receives two hooks
   * for every change (counting the first object's change away from the
   * starting type) plus two for the final transition, and one call per
   * object besides.
   */
  lemma {:induction false} HandlerHooksPerTransition(s: seq<Entity>, begin: nat, end: nat, c: nat, last: Kind)
    requires begin <= c <= end <= |s| && HasHooks(last)
    requires KnownKinds(s, c, end)
    decreases end - c
    ensures CountHooks(VisitorRun(s, begin, end, c, last, Handler).events) == 2 * KindChanges(s, c, end, last) + 2
    ensures |VisitorRun(s, begin, end, c, last, Handler).events|
         == CountHooks(VisitorRun(s, begin, end, c, last, Handler).events) + (end - c)
  {
    if c == end {
      CountHooksOfHooks(SwitchOnTypeBeforeAfter(last, Undefined, Handler));
    } else {
      HandlerHooksPerTransition(s, begin, end, c + 1, s[c].kind);
      HandlerHooksStep(s, begin, end, c, last);
    }
  }

  /** The inductive step of the count above, for the object at `c`. */
  lemma HandlerHooksStep(s: seq<Entity>, begin: nat, end: nat, c: nat, last: Kind)
    requires begin <= c < end <= |s| && HasHooks(last) && IsObjectKind(s[c].kind)
    requires CountHooks(VisitorRun(s, begin, end, c + 1, s[c].kind, Handler).events)
          == 2 * KindChanges(s, c + 1, end, s[c].kind) + 2
    requires |VisitorRun(s, begin, end, c + 1, s[c].kind, Handler).events|
          == CountHooks(VisitorRun(s, begin, end, c + 1, s[c].kind, Handler).events) + (end - c - 1)
    ensures CountHooks(VisitorRun(s, begin, end, c, last, Handler).events) == 2 * KindChanges(s, c, end, last) + 2
    ensures |VisitorRun(s, begin, end, c, last, Handler).events|
         == CountHooks(VisitorRun(s, begin, end, c, last, Handler).events) + (end - c)
  {
    var d := ExpectedDiff(s, begin, end, c);
    var hooks := if last != d.kind then SwitchOnTypeBeforeAfter(last, d.kind, Handler) else [];
    var rest := VisitorRun(s, begin, end, c + 1, d.kind, Handler).events;
    RunStep(s, begin, end, c, last, Handler);
    CountHooksOfHooks(hooks);
    assert |hooks| == if last != d.kind then 2 else 0;
    HandlerCountStep(VisitorRun(s, begin, end, c, last, Handler).events, hooks, SwitchOnType(Handler, d).value, rest,
                     end - c - 1, KindChanges(s, c + 1, end, d.kind));
  }

  /** The counting step of the induction above, on abstract sequences. */
  lemma HandlerCountStep(evs: seq<Event>, hooks: seq<Event>, ev: Event, rest: seq<Event>, calls: nat, changes: nat)
    requires evs == hooks + [ev] + rest && !IsHook(ev) && CountHooks(hooks) == |hooks|
    requires CountHooks(rest) == 2 * changes + 2 && |rest| == CountHooks(rest) + calls
    ensures CountHooks(evs) == |hooks| + 2 * changes + 2
    ensures |evs| == CountHooks(evs) + calls + 1
  {
    CountHooksStep(hooks, ev, rest);
  }

  /** A sequence of hooks counts every element. */
  lemma {:induction false} CountHooksOfHooks(h: seq<Event>)
    requires forall j :: 0 <= j < |h| ==> IsHook(h[j])
    ensures CountHooks(h) == |h|
  {
    if |h| > 0 {
      CountHooksOfHooks(h[1..]);
    }
  }

  /** Hooks, one call that is not a hook, then the rest. */
  lemma CountHooksStep(hooks: seq<Event>, ev: Event, rest: seq<Event>)
    requires !IsHook(ev)
    ensures CountHooks(hooks + [ev] + rest) == CountHooks(hooks) + CountHooks(rest)
  {
    CountHooksAppend(hooks + [ev], rest);
    CountHooksAppend(hooks, [ev]);
    assert CountHooks([ev]) == 0 by {
      assert [ev][1..] == [];
    }
  }

  /** One object of known type, as a visitor of either shape sees it. */
  lemma RunStep(s: seq<Entity>, begin: nat, end: nat, c: nat, last: Kind, shape: Shape)
    requires begin <= c < end <= |s| && IsObjectKind(s[c].kind)
    ensures VisitorRun(s, begin, end, c, last, shape).events
         == (if last != s[c].kind then SwitchOnTypeBeforeAfter(last, s[c].kind, shape) else [])
          + [SwitchOnType(shape, ExpectedDiff(s, begin, end, c)).value]
          + VisitorRun(s, begin, end, c + 1, s[c].kind, shape).events
    ensures VisitorRun(s, begin, end, c, last, shape).status == VisitorRun(s, begin, end, c + 1, s[c].kind, shape).status
  {
  }

  /** A handler's transition between two kinds that both have hooks. */
  lemma HandlerTransition(last: Kind, current: Kind)
    requires HasHooks(last) && HasHooks(current)
    ensures |SwitchOnTypeBeforeAfter(last, current, Handler)| == 2
    ensures (SwitchOnTypeBeforeAfter(last, current, Handler)[0] == Init) == (last == Undefined)
    ensures (SwitchOnTypeBeforeAfter(last, current, Handler)[1] == Done) == (current == Undefined)
    ensures SwitchOnTypeBeforeAfter(last, current, Handler)[0] != Done
    ensures SwitchOnTypeBeforeAfter(last, current, Handler)[1] != Init
  {
  }

  /**
   * From the middle of a stream whose objects all have known types, a
   * handler receives no `init` and exactly one `done`.
   */
  lemma {:induction false} DoneOnceMidStream(s: seq<Entity>, begin: nat, end: nat, c: nat, last: Kind)
    requires begin <= c <= end <= |s| && IsObjectKind(last)
    requires KnownKinds(s, c, end)
    decreases end - c
    ensures multiset(VisitorRun(s, begin, end, c, last, Handler).events)[Init] == 0
    ensures multiset(VisitorRun(s, begin, end, c, last, Handler).events)[Done] == 1
  {
    var evs := VisitorRun(s, begin, end, c, last, Handler).events;
    if c == end {
      HandlerTransition(last, Undefined);
      var h := SwitchOnTypeBeforeAfter(last, Undefined, Handler);
      assert evs == [h[0], h[1]];
    } else {
      DoneOnceMidStream(s, begin, end, c + 1, s[c].kind);
      DoneOnceStep(s, begin, end, c, last);
    }
  }

  /** The inductive step of the count above, for the object at `c`. */
  lemma DoneOnceStep(s: seq<Entity>, begin: nat, end: nat, c: nat, last: Kind)
    requires begin <= c < end <= |s| && IsObjectKind(last) && IsObjectKind(s[c].kind)
    requires multiset(VisitorRun(s, begin, end, c + 1, s[c].kind, Handler).events)[Init] == 0
    requires multiset(VisitorRun(s, begin, end, c + 1, s[c].kind, Handler).events)[Done] == 1
    ensures multiset(VisitorRun(s, begin, end, c, last, Handler).events)[Init] == 0
    ensures multiset(VisitorRun(s, begin, end, c, last, Handler).events)[Done] == 1
  {
    var k := s[c].kind;
    var hooks := if last != k then SwitchOnTypeBeforeAfter(last, k, Handler) else [];
    var ev := SwitchOnType(Handler, ExpectedDiff(s, begin, end, c)).value;
    var rest := VisitorRun(s, begin, end, c + 1, k, Handler).events;
    RunStep(s, begin, end, c, last, Handler);
    if last != k {
      HandlerTransition(last, k);
    }
    NoBoundaryCount(hooks, ev, rest);
  }

  /** Counting `init` and `done` across one step of a handler's calls. */
  lemma NoBoundaryCount(hooks: seq<Event>, ev: Event, rest: seq<Event>)
    requires |hooks| == 0 || (|hooks| == 2 && hooks[0] !in {Init, Done} && hooks[1] !in {Init, Done})
    requires ev !in {Init, Done}
    requires multiset(rest)[Init] == 0 && multiset(rest)[Done] == 1
    ensures multiset(hooks + [ev] + rest)[Init] == 0 && multiset(hooks + [ev] + rest)[Done] == 1
  {
    assert multiset(hooks + [ev] + rest) == multiset(hooks) + multiset([ev]) + multiset(rest);
    if |hooks| == 2 {
      assert hooks == [hooks[0], hooks[1]];
    }
  }

  /** ... and `done` comes last. */
  lemma {:induction false} EndsWithDone(s: seq<Entity>, begin: nat, end: nat, c: nat, last: Kind)
    requires begin <= c <= end <= |s| && HasHooks(last)
    requires KnownKinds(s, c, end)
    decreases end - c
    ensures |VisitorRun(s, begin, end, c, last, Handler).events| > 0
    ensures Last(VisitorRun(s, begin, end, c, last, Handler).events) == Done
  {
    if c == end {
      HandlerTransition(last, Undefined);
    } else {
      var k := s[c].kind;
      var hooks := if last != k then SwitchOnTypeBeforeAfter(last, k, Handler) else [];
      var ev := SwitchOnType(Handler, ExpectedDiff(s, begin, end, c)).value;
      RunStep(s, begin, end, c, last, Handler);
      EndsWithDone(s, begin, end, c + 1, k);
      LastOfAppend(hooks + [ev], VisitorRun(s, begin, end, c + 1, k, Handler).events);
    }
  }

  function Last(evs: seq<Event>): Event
    requires |evs| > 0
  {
    evs[|evs| - 1]
  }

  lemma LastOfAppend(a: seq<Event>, b: seq<Event>)
    requires |b| > 0
    ensures |a + b| > 0 && Last(a + b) == Last(b)
  {
  }

  /**
   * Over known types, a handler's last two calls are the `after_*` hook of
   * the last object's type and then `done`: the final transition leaves
   * that type and enters `Undefined`.
   */
  lemma {:induction false} ClosesWithAfterLast(s: seq<Entity>, begin: nat, end: nat, c: nat, last: Kind)
    requires begin <= c < end <= |s| && HasHooks(last)
    requires KnownKinds(s, c, end) && IsObjectKind(s[end - 1].kind)
    decreases end - c
    ensures |VisitorRun(s, begin, end, c, last, Handler).events| >= 2
    ensures var e := VisitorRun(s, begin, end, c, last, Handler).events;
      e[|e| - 2] == LeaveHook(s[end - 1].kind)[0] && e[|e| - 1] == Done
  {
    var k := s[c].kind;
    var hooks := if last != k then SwitchOnTypeBeforeAfter(last, k, Handler) else [];
    var ev := SwitchOnType(Handler, ExpectedDiff(s, begin, end, c)).value;
    var rest := VisitorRun(s, begin, end, c + 1, k, Handler).events;
    RunStep(s, begin, end, c, last, Handler);
    if c + 1 == end {
      assert rest == LeaveHook(k) + EnterHook(Undefined);
    } else {
      ClosesWithAfterLast(s, begin, end, c + 1, k);
    }
    LastTwoOfAppend(hooks + [ev], rest);
  }

  lemma LastTwoOfAppend(a: seq<Event>, b: seq<Event>)
    requires |b| >= 2
    ensures |a + b| >= 2 && (a + b)[|a + b| - 2] == b[|b| - 2] && (a + b)[|a + b| - 1] == b[|b| - 1]
  {
  }

  /**
   * Over a stream whose objects all have known types, a handler's calls
   * open with `init` and close with `done`, and receive each exactly once.
   */
  lemma HandlerRunIsBracketed(s: seq<Entity>, begin: nat, end: nat)
    requires begin <= end <= |s|
    requires forall i :: begin <= i < end ==> IsObjectKind(s[i].kind)
    ensures |VisitorRun(s, begin, end, begin, Undefined, Handler).events| >= 2
    ensures VisitorRun(s, begin, end, begin, Undefined, Handler).events[0] == Init
    ensures Last(VisitorRun(s, begin, end, begin, Undefined, Handler).events) == Done
    ensures multiset(VisitorRun(s, begin, end, begin, Undefined, Handler).events)[Init] == 1
    ensures multiset(VisitorRun(s, begin, end, begin, Undefined, Handler).events)[Done] == 1
  {
    KnownKindsMeansObjects(s, begin, end);
    EndsWithDone(s, begin, end, begin, Undefined);
    if begin == end {
      assert VisitorRun(s, begin, end, begin, Undefined, Handler).events == [Init, Done];
    } else {
      OpensWithInit(s, begin, end);
    }
  }

  lemma OpensWithInit(s: seq<Entity>, begin: nat, end: nat)
    requires begin < end <= |s|
    requires forall i :: begin <= i < end ==> IsObjectKind(s[i].kind)
    ensures |VisitorRun(s, begin, end, begin, Undefined, Handler).events| >= 2
    ensures VisitorRun(s, begin, end, begin, Undefined, Handler).events[0] == Init
    ensures VisitorRun(s, begin, end, begin, Undefined, Handler).events[1] == EnterHook(s[begin].kind)[0]
    ensures multiset(VisitorRun(s, begin, end, begin, Undefined, Handler).events)[Init] == 1
    ensures multiset(VisitorRun(s, begin, end, begin, Undefined, Handler).events)[Done] == 1
  {
    KnownKindsMeansObjects(s, begin, end);
    var k := s[begin].kind;
    var hooks := SwitchOnTypeBeforeAfter(Undefined, k, Handler);
    var ev := SwitchOnType(Handler, ExpectedDiff(s, begin, end, begin)).value;
    var rest := VisitorRun(s, begin, end, begin + 1, k, Handler).events;
    RunStep(s, begin, end, begin, Undefined, Handler);
    DoneOnceMidStream(s, begin, end, begin + 1, k);
    HandlerTransition(Undefined, k);
    assert hooks == LeaveHook(Undefined) + EnterHook(k);
    OpeningCount(hooks, ev, rest);
  }

  /** Counting `init` and `done` across the first step of a handler's calls. */
  lemma OpeningCount(hooks: seq<Event>, ev: Event, rest: seq<Event>)
    requires |hooks| == 2 && hooks[0] == Init && hooks[1] !in {Init, Done}
    requires ev !in {Init, Done}
    requires multiset(rest)[Init] == 0 && multiset(rest)[Done] == 1
    ensures (hooks + [ev] + rest)[0] == Init && (hooks + [ev] + rest)[1] == hooks[1]
    ensures multiset(hooks + [ev] + rest)[Init] == 1 && multiset(hooks + [ev] + rest)[Done] == 1
  {
    assert multiset(hooks + [ev] + rest) == multiset(hooks) + multiset([ev]) + multiset(rest);
    assert hooks == [hooks[0], hooks[1]];
  }

  /**
   * A dispatch whose first object of unknown type is at `u` stops there:
   * every visitor gets one per-object call for each object before `u` and
   * hooks besides (a functor none), and nothing after the transition into
   * `s[u]`. A handler gets `done` only when that object is `Undefined` and
   * the type before it was not, since then the transition into it fires
   * `done` before the abort.
   */
  lemma UnknownTypeCutsOff(s: seq<Entity>, begin: nat, end: nat, u: nat, visitors: seq<Shape>, v: nat)
    requires begin <= u < end <= |s| && v < |visitors|
    requires forall i :: begin <= i < u ==> IsObjectKind(s[i].kind)
    requires !IsObjectKind(s[u].kind)
    ensures DispatchFrom(s, begin, end, begin, Undefined, visitors).status == UnknownType
    ensures var evs := Events(DispatchFrom(s, begin, end, begin, Undefined, visitors).trace, v);
      && |evs| == CountHooks(evs) + (u - begin)
      && (visitors[v] == Functor ==> DiffCallsFrom(evs, s, begin, end, begin) && |evs| == u - begin)
      && (visitors[v] == Handler ==>
            multiset(evs)[Done] == if s[u].kind == Undefined && begin < u then 1 else 0)
  {
    KnownKindsMeansObjects(s, begin, u);
    EachVisitorSeesItsOwnRun(s, begin, end, begin, Undefined, visitors, v);
    RunStopsAtUnknown(s, begin, end, begin, u, Undefined, visitors[v]);
    if visitors[v] == Functor {
      FunctorSeesOnlyDiffs(s, begin, end, begin, Undefined);
    }
  }

  /** The induction behind `UnknownTypeCutsOff`, for one visitor on its own, from position `c`. */
  lemma {:induction false} RunStopsAtUnknown(s: seq<Entity>, begin: nat, end: nat, c: nat, u: nat, last: Kind,
                                             shape: Shape)
    requires begin <= c <= u < end <= |s| && HasHooks(last)
    requires KnownKinds(s, c, u) && !IsObjectKind(s[u].kind)
    decreases u - c
    ensures VisitorRun(s, begin, end, c, last, shape).status == UnknownType
    ensures |VisitorRun(s, begin, end, c, last, shape).events|
         == CountHooks(VisitorRun(s, begin, end, c, last, shape).events) + (u - c)
    ensures shape == Functor ==> CountHooks(VisitorRun(s, begin, end, c, last, shape).events) == 0
    ensures shape == Handler ==>
      multiset(VisitorRun(s, begin, end, c, last, shape).events)[Done]
        == if s[u].kind == Undefined && (c < u || last != Undefined) then 1 else 0
  {
    var k := s[c].kind;
    var hooks := if last != k then SwitchOnTypeBeforeAfter(last, k, shape) else [];
    CountHooksOfHooks(hooks);
    if last != k && shape == Handler {
      DoneInTransition(last, k);
    }
    if c == u {
      assert VisitorRun(s, begin, end, c, last, shape).events == hooks;
    } else {
      RunStopsAtUnknown(s, begin, end, c + 1, u, k, shape);
      UnknownStep(s, begin, end, c, u, last, shape);
    }
  }

  /** The inductive step of `RunStopsAtUnknown`, for the object at `c`, of known type. */
  lemma UnknownStep(s: seq<Entity>, begin: nat, end: nat, c: nat, u: nat, last: Kind, shape: Shape)
    requires begin <= c < u < end <= |s| && HasHooks(last) && IsObjectKind(s[c].kind)
    requires var rest := VisitorRun(s, begin, end, c + 1, s[c].kind, shape);
      && rest.status == UnknownType
      && |rest.events| == CountHooks(rest.events) + (u - c - 1)
      && (shape == Functor ==> CountHooks(rest.events) == 0)
      && (shape == Handler ==> multiset(rest.events)[Done] == if s[u].kind == Undefined then 1 else 0)
    ensures VisitorRun(s, begin, end, c, last, shape).status == UnknownType
    ensures |VisitorRun(s, begin, end, c, last, shape).events|
         == CountHooks(VisitorRun(s, begin, end, c, last, shape).events) + (u - c)
    ensures shape == Functor ==> CountHooks(VisitorRun(s, begin, end, c, last, shape).events) == 0
    ensures shape == Handler ==>
      multiset(VisitorRun(s, begin, end, c, last, shape).events)[Done] == if s[u].kind == Undefined then 1 else 0
  {
    var k := s[c].kind;
    var hooks := if last != k then SwitchOnTypeBeforeAfter(last, k, shape) else [];
    var ev := SwitchOnType(shape, ExpectedDiff(s, begin, end, c)).value;
    var rest := VisitorRun(s, begin, end, c + 1, k, shape).events;
    RunStep(s, begin, end, c, last, shape);
    if last != k && shape == Handler {
      DoneInTransition(last, k);
    }
    StepCounts(hooks, ev, rest);
  }

  /** Hooks, one per-object call, then the rest: how the hook and `done` counts add up. */
  lemma StepCounts(hooks: seq<Event>, ev: Event, rest: seq<Event>)
    requires forall j :: 0 <= j < |hooks| ==> IsHook(hooks[j])
    requires !IsHook(ev)
    ensures CountHooks(hooks + [ev] + rest) == |hooks| + CountHooks(rest)
    ensures multiset(hooks + [ev] + rest)[Done] == multiset(hooks)[Done] + multiset(rest)[Done]
  {
    CountHooksOfHooks(hooks);
    CountHooksStep(hooks, ev, rest);
    assert multiset(hooks + [ev] + rest) == multiset(hooks) + multiset([ev]) + multiset(rest);
  }

  /** A handler's transition fires `done` exactly when it enters `Undefined`. */
  lemma DoneInTransition(last: Kind, current: Kind)
    requires HasHooks(last)
    ensures multiset(SwitchOnTypeBeforeAfter(last, current, Handler))[Done] == if current == Undefined then 1 else 0
  {
    var leave := LeaveHook(last);
    var enter := EnterHook(current);
    assert leave == [leave[0]];
    assert SwitchOnTypeBeforeAfter(last, current, Handler) == leave + enter;
    assert multiset(leave + enter) == multiset(leave) + multiset(enter);
  }

  /** Empty input: every handler receives exactly `init`, `done`; a functor receives nothing. */
  lemma EmptyInput(s: seq<Entity>, begin: nat, visitors: seq<Shape>, v: nat)
    requires begin <= |s| && v < |visitors|
    ensures DispatchFrom(s, begin, begin, begin, Undefined, visitors).status == Completed
    ensures Events(DispatchFrom(s, begin, begin, begin, Undefined, visitors).trace, v)
         == if visitors[v] == Handler then [Init, Done] else []
  {
    assert DispatchFrom(s, begin, begin, begin, Undefined, visitors)
        == Outcome(ApplyBeforeAndAfterRecurse(Undefined, Undefined, visitors, 0), Completed);
    TransitionPerVisitor(Undefined, Undefined, visitors, 0, v);
    assert SwitchOnTypeBeforeAfter(Undefined, Undefined, Handler) == [Init, Done];
  }

  /** Two versions of node 1, way 7, two versions of relation 3. */
  function ExampleStream(): seq<Entity>
  {
    [Entity(Node, 1, 1), Entity(Node, 1, 2), Entity(Way, 7, 1), Entity(Relation, 3, 1), Entity(Relation, 3, 2)]
  }

  /** The complete run of one handler over nodes, a way and relations. */
  lemma ExampleHandlerRun(s: seq<Entity>)
    requires s == ExampleStream()
    ensures VisitorRun(s, 0, 5, 0, Undefined, Handler) == Log(
      [Init, BeforeNodes] + [OnNode(Diff(0, 0, 1, Node))]
      + ([OnNode(Diff(0, 1, 1, Node))]
      + [AfterNodes, BeforeWays, OnWay(Diff(2, 2, 2, Way)),
         AfterWays, BeforeRelations, OnRelation(Diff(3, 3, 4, Relation)), OnRelation(Diff(3, 4, 4, Relation)),
         AfterRelations, Done]),
      Completed)
  {
    ExampleFromSecondNode(s);
    RunStep(s, 0, 5, 0, Undefined, Handler);
    assert ExpectedDiff(s, 0, 5, 0) == Diff(0, 0, 1, Node);
    assert SwitchOnTypeBeforeAfter(Undefined, Node, Handler) == [Init, BeforeNodes];
  }

  /** The example from the second version of node 1 on. */
  lemma ExampleFromSecondNode(s: seq<Entity>)
    requires s == ExampleStream()
    ensures VisitorRun(s, 0, 5, 1, Node, Handler) == Log(
      [OnNode(Diff(0, 1, 1, Node))]
      + [AfterNodes, BeforeWays, OnWay(Diff(2, 2, 2, Way)),
         AfterWays, BeforeRelations, OnRelation(Diff(3, 3, 4, Relation)), OnRelation(Diff(3, 4, 4, Relation)),
         AfterRelations, Done],
      Completed)
  {
    ExampleFromWay(s);
    RunStep(s, 0, 5, 1, Node, Handler);
    assert ExpectedDiff(s, 0, 5, 1) == Diff(0, 1, 1, Node);
  }

  /** The example from way 7 on. */
  lemma ExampleFromWay(s: seq<Entity>)
    requires s == ExampleStream()
    ensures VisitorRun(s, 0, 5, 2, Node, Handler) == Log(
      [AfterNodes, BeforeWays] + [OnWay(Diff(2, 2, 2, Way))]
      + [AfterWays, BeforeRelations, OnRelation(Diff(3, 3, 4, Relation)), OnRelation(Diff(3, 4, 4, Relation)),
         AfterRelations, Done],
      Completed)
  {
    ExampleRelations(s);
    RunStep(s, 0, 5, 2, Node, Handler);
    assert ExpectedDiff(s, 0, 5, 2) == Diff(2, 2, 2, Way);
    assert SwitchOnTypeBeforeAfter(Node, Way, Handler) == [AfterNodes, BeforeWays];
  }

  /** The relations at the end of the example stream, after the way. */
  lemma ExampleRelations(s: seq<Entity>)
    requires s == ExampleStream()
    ensures VisitorRun(s, 0, 5, 3, Way, Handler) == Log(
      [AfterWays, BeforeRelations] + [OnRelation(Diff(3, 3, 4, Relation))]
      + [OnRelation(Diff(3, 4, 4, Relation)), AfterRelations, Done],
      Completed)
  {
    RunStep(s, 0, 5, 4, Relation, Handler);
    assert ExpectedDiff(s, 0, 5, 4) == Diff(3, 4, 4, Relation);
    assert VisitorRun(s, 0, 5, 5, Relation, Handler) == Log([AfterRelations, Done], Completed);
    RunStep(s, 0, 5, 3, Way, Handler);
    assert ExpectedDiff(s, 0, 5, 3) == Diff(3, 3, 4, Relation);
    assert SwitchOnTypeBeforeAfter(Way, Relation, Handler) == [AfterWays, BeforeRelations];
  }

  /**
   * Two handlers and a functor over one node: each handler receives both
   * halves of a transition before the next visitor receives anything.
   */
  lemma ExampleInterleaving(s: seq<Entity>, vs: seq<Shape>)
    requires s == [Entity(Node, 1, 1)] && vs == [Handler, Handler, Functor]
    ensures DispatchFrom(s, 0, 1, 0, Undefined, vs) == Outcome(
      [Delivery(0, Init), Delivery(0, BeforeNodes), Delivery(1, Init), Delivery(1, BeforeNodes)]
      + [Delivery(0, OnNode(Diff(0, 0, 0, Node))), Delivery(1, OnNode(Diff(0, 0, 0, Node))),
         Delivery(2, Call(Diff(0, 0, 0, Node)))]
      + [Delivery(0, AfterNodes), Delivery(0, Done), Delivery(1, AfterNodes), Delivery(1, Done)],
      Completed)
  {
    var d := Diff(0, 0, 0, Node);
    assert ExpectedDiff(s, 0, 1, 0) == d;
    var opening := [Delivery(0, Init), Delivery(0, BeforeNodes), Delivery(1, Init), Delivery(1, BeforeNodes)];
    var calls := [Delivery(0, OnNode(d)), Delivery(1, OnNode(d)), Delivery(2, Call(d))];
    var closing := [Delivery(0, AfterNodes), Delivery(0, Done), Delivery(1, AfterNodes), Delivery(1, Done)];
    ExampleInterleavingHooks(Undefined, Node, vs);
    assert SwitchOnTypeBeforeAfter(Undefined, Node, Handler) == [Init, BeforeNodes];
    DeliverPair(0, Init, BeforeNodes);
    DeliverPair(1, Init, BeforeNodes);
    ExampleInterleavingCalls(d, vs);
    var here := DispatchAt(Undefined, d, vs);
    assert here == Outcome(opening + calls, Completed);
    ExampleInterleavingHooks(Node, Undefined, vs);
    assert SwitchOnTypeBeforeAfter(Node, Undefined, Handler) == [AfterNodes, Done];
    DeliverPair(0, AfterNodes, Done);
    DeliverPair(1, AfterNodes, Done);
    var rest := DispatchFrom(s, 0, 1, 1, Node, vs);
    assert rest == Outcome(closing, Completed);
    assert DispatchFrom(s, 0, 1, 0, Undefined, vs) == Prepend(here.trace, rest);
  }

  /** A pair of hooks delivered to one visitor. */
  lemma DeliverPair(i: nat, a: Event, b: Event)
    ensures Deliver(i, [a, b]) == [Delivery(i, a), Delivery(i, b)]
  {
    assert [a, b][1..] == [b];
  }

  /** The transition hooks of the interleaving example: both handlers in turn, nothing for the functor. */
  lemma ExampleInterleavingHooks(last: Kind, current: Kind, vs: seq<Shape>)
    requires vs == [Handler, Handler, Functor]
    ensures ApplyBeforeAndAfterRecurse(last, current, vs, 0)
         == Deliver(0, SwitchOnTypeBeforeAfter(last, current, Handler))
          + Deliver(1, SwitchOnTypeBeforeAfter(last, current, Handler))
  {
    assert ApplyBeforeAndAfterRecurse(last, current, vs, 2) == [];
    assert ApplyBeforeAndAfterRecurse(last, current, vs, 1) == Deliver(1, SwitchOnTypeBeforeAfter(last, current, Handler));
  }

  /** The per-object calls of the interleaving example: visitors 0, 1, 2 in argument order. */
  lemma ExampleInterleavingCalls(d: Diff, vs: seq<Shape>)
    requires vs == [Handler, Handler, Functor] && d.kind == Node
    ensures ApplyDiffIteratorRecurse(d, vs, 0)
         == Outcome([Delivery(0, OnNode(d)), Delivery(1, OnNode(d)), Delivery(2, Call(d))], Completed)
  {
    assert ApplyDiffIteratorRecurse(d, vs, 2) == Outcome([Delivery(2, Call(d))], Completed);
  }

  /**
   * An object of unknown type in the middle: the handler still leaves the
   * node block, gets no hook for the unknown type, and the dispatch aborts
   * with no further call (no `done`).
   */
  lemma ExampleUnknownType()
    ensures DispatchFrom([Entity(Node, 1, 1), Entity(Other, 2, 1), Entity(Way, 3, 1)], 0, 3, 0, Undefined, [Handler])
         == Outcome([Delivery(0, Init), Delivery(0, BeforeNodes), Delivery(0, OnNode(Diff(0, 0, 0, Node))),
                     Delivery(0, AfterNodes)], UnknownType)
  {
    var s := [Entity(Node, 1, 1), Entity(Other, 2, 1), Entity(Way, 3, 1)];
    var r1 := DispatchFrom(s, 0, 3, 1, Node, [Handler]);
    assert r1 == Outcome([Delivery(0, AfterNodes)], UnknownType);
  }
}

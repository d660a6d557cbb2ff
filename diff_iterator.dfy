/**
 * The three-version window over a stream of objects grouped by identity.
 * A cursor of the underlying iterator is an index into the sequence `s`;
 * the range being iterated is `s[begin..end]`.
 */
module DiffIterators {
  import opened Entities

  /**
   * The diff handed out on dereference: the positions of the resolved
   * previous, current and next versions, and the item type of current.
   */
  datatype Diff = Diff(prev: nat, curr: nat, next: nat, kind: Kind)

  /** The cursors `m_prev`, `m_curr`, `m_next` and the sentinel `m_end`. */
  datatype Window = Window(prev: nat, curr: nat, next: nat, end: nat)

  function Min(a: nat, b: nat): nat
  {
    if a <= b then a else b
  }

  /** One `operator++` on the cursors, as a value. */
  function Advance(w: Window): Window
  {
    Window(w.curr, w.next, if w.next != w.end then w.next + 1 else w.next, w.end)
  }

  /**
   * The cursors of an iterator built from `[begin, end)` and advanced
   * `steps` times, in closed form.
   */
  function WindowAt(begin: nat, end: nat, steps: nat): Window
    requires begin <= end
  {
    Window(if steps == 0 then begin else Min(begin + steps - 1, end),
           Min(begin + steps, end),
           Min(begin + steps + 1, end),
           end)
  }

  /** Advancing the closed form by one step gives the closed form of the next step. */
  lemma WindowAtAdvance(begin: nat, end: nat, steps: nat)
    requires begin <= end
    ensures Advance(WindowAt(begin, end, steps)) == WindowAt(begin, end, steps + 1)
  {
  }

  /** Construction followed by `steps` advances, computed step by step. */
  function Iterate(begin: nat, end: nat, steps: nat): Window
    requires begin <= end
  {
    if steps == 0 then Window(begin, begin, if begin == end then begin else begin + 1, end)
    else Advance(Iterate(begin, end, steps - 1))
  }

  /** The step-by-step iteration agrees with the closed form. */
  lemma {:induction false} IterateIsWindowAt(begin: nat, end: nat, steps: nat)
    requires begin <= end
    ensures Iterate(begin, end, steps) == WindowAt(begin, end, steps)
  {
    if steps > 0 {
      IterateIsWindowAt(begin, end, steps - 1);
      WindowAtAdvance(begin, end, steps - 1);
    }
  }

  /**
   * The window invariant kept by construction and advance: `next` is one
   * past `curr` unless clamped at `end`; `prev` is one before `curr`, except
   * before the first advance (and once `curr` stays at `end`), when it is
   * `curr` itself.
   */
  lemma WindowInvariant(begin: nat, end: nat, steps: nat)
    requires begin <= end
    ensures var w := WindowAt(begin, end, steps);
      && begin <= w.prev <= w.curr <= w.next <= w.end == end
      && w.next == Min(w.curr + 1, end)
      && (steps == 0 ==> w.prev == w.curr == begin)
      && (0 < steps <= end - begin ==> w.prev + 1 == w.curr)
      && (end - begin < steps ==> w.prev == w.curr == end)
  {
  }

  /**
   * The iterator equals the end iterator `(end, end)` exactly when it has
   * been advanced at least `end - begin` times: one diff per object.
   */
  lemma ReachesEndAfterLength(begin: nat, end: nat, steps: nat)
    requires begin <= end
    ensures WindowAt(begin, end, steps).curr == WindowAt(end, end, 0).curr <==> steps >= end - begin
    ensures steps <= end - begin ==> WindowAt(begin, end, steps).curr == begin + steps
  {
  }

  /**
   * `set_diff`: resolve the three cursors into a diff. A neighbour cursor
   * whose object is not a version of the current object (or, for `next`,
   * which is the end) collapses to the current position.
   */
  function Resolve(s: seq<Entity>, w: Window): (d: Diff)
    requires w.curr < w.end <= |s| && w.prev < |s| && w.next <= w.end
    ensures d.curr == w.curr && d.kind == s[w.curr].kind
    ensures d.prev in {w.prev, w.curr} && d.next in {w.next, w.curr} && d.next < w.end
    ensures SameIdentity(s[d.prev], s[w.curr]) && SameIdentity(s[d.next], s[w.curr])
    ensures SameIdentity(s[w.prev], s[w.curr]) ==> d.prev == w.prev
    ensures w.next < w.end && SameIdentity(s[w.next], s[w.curr]) ==> d.next == w.next
  {
    var prev := if SameIdentity(s[w.prev], s[w.curr]) then w.prev else w.curr;
    var next := if w.next == w.end || !SameIdentity(s[w.next], s[w.curr]) then w.curr else w.next;
    Diff(prev, w.curr, next, s[w.curr].kind)
  }

  /**
   * The diff at position `c` of the range `[begin, end)`, stated on the
   * stream alone: previous is the object just before `c` when it is in the
   * range and a version of the same object, otherwise `c` itself; next
   * likewise with the object just after `c`.
   */
  function ExpectedDiff(s: seq<Entity>, begin: nat, end: nat, c: nat): Diff
    requires begin <= c < end <= |s|
  {
    Diff(if begin < c && SameIdentity(s[c - 1], s[c]) then c - 1 else c,
         c,
         if c + 1 < end && SameIdentity(s[c + 1], s[c]) then c + 1 else c,
         s[c].kind)
  }

  /** What `set_diff` computes from the window is the diff the stream defines. */
  lemma ResolveAtStep(s: seq<Entity>, begin: nat, end: nat, steps: nat)
    requires begin <= end <= |s| && WindowAt(begin, end, steps).curr < end
    ensures Resolve(s, WindowAt(begin, end, steps)) == ExpectedDiff(s, begin, end, begin + steps)
  {
    var w := WindowAt(begin, end, steps);
    assert w.curr == begin + steps;
    if steps == 0 {
      assert SameIdentity(s[w.prev], s[w.curr]);
    } else {
      assert w.prev == begin + steps - 1;
    }
  }

  /** Objects with pairwise distinct identities are all isolated: previous and next are current. */
  lemma DistinctIdentitiesAreIsolated(s: seq<Entity>, begin: nat, end: nat, c: nat)
    requires begin <= c < end <= |s|
    requires forall i, j :: begin <= i < j < end ==> !SameIdentity(s[i], s[j])
    ensures var d := ExpectedDiff(s, begin, end, c); d.prev == c && d.next == c
  {
    if begin < c {
      assert !SameIdentity(s[c - 1], s[c]);
    }
    if c + 1 < end {
      assert !SameIdentity(s[c], s[c + 1]);
    }
  }

  /**
   * Inside a maximal run `s[p..p+k]` of versions of one object, the `j`-th
   * version sees the `(j-1)`-th as previous and the `(j+1)`-th as next; the
   * first version is its own previous and the last its own next.
   */
  lemma RunNeighbours(s: seq<Entity>, begin: nat, end: nat, p: nat, k: nat, j: nat)
    requires begin <= p && p + k <= end <= |s| && j < k
    requires forall i :: p <= i < p + k ==> SameIdentity(s[i], s[p])
    requires p == begin || !SameIdentity(s[p - 1], s[p])
    requires p + k == end || !SameIdentity(s[p + k], s[p])
    ensures var d := ExpectedDiff(s, begin, end, p + j);
      && d.prev == (if j > 0 then p + j - 1 else p + j)
      && d.next == (if j + 1 < k then p + j + 1 else p + j)
  {
    assert SameIdentity(s[p + j], s[p]);
    if j > 0 {
      assert SameIdentity(s[p + j - 1], s[p]);
    }
    if j + 1 < k {
      assert SameIdentity(s[p + j + 1], s[p]);
    }
  }

  /**
   * The iterator: three cursors, the end sentinel and the cached diff that
   * dereference overwrites. `begin` and `steps` are ghost bookkeeping that
   * pin the cursors to the closed form.
   */
  class DiffIterator {
    const s: seq<Entity>
    const end: nat
    var prev: nat
    var curr: nat
    var next: nat
    var diff: Diff
    ghost const begin: nat
    ghost var steps: nat

    ghost predicate Valid()
      reads this
    {
      begin <= end <= |s| && Cursors() == WindowAt(begin, end, steps)
    }

    function Cursors(): Window
      reads this
    {
      Window(prev, curr, next, end)
    }

    /** Construction from `[begin, end)`. */
    constructor (s: seq<Entity>, begin: nat, end: nat)
      requires begin <= end <= |s|
      ensures Valid() && this.s == s && this.begin == begin && this.end == end && steps == 0
      ensures prev == begin && curr == begin
      ensures next == if begin == end then begin else begin + 1
    {
      this.s := s;
      this.end := end;
      this.begin := begin;
      prev := begin;
      curr := begin;
      next := if begin == end then begin else begin + 1;
      diff := Diff(0, 0, 0, Undefined);
      steps := 0;
    }

    /** The defaulted copy constructor. */
    constructor Copy(other: DiffIterator)
      requires other.Valid()
      ensures Valid() && s == other.s && begin == other.begin && steps == other.steps
      ensures Cursors() == other.Cursors() && diff == other.diff
    {
      s := other.s;
      end := other.end;
      begin := other.begin;
      prev := other.prev;
      curr := other.curr;
      next := other.next;
      diff := other.diff;
      steps := other.steps;
    }

    /** Prefix `operator++`: shift the window by one. */
    method Increment()
      requires Valid()
      modifies this`prev, this`curr, this`next, this`steps
      ensures Valid() && steps == old(steps) + 1
      ensures Cursors() == Advance(old(Cursors()))
      ensures curr == if old(curr) < end then old(curr) + 1 else end
    {
      WindowAtAdvance(begin, end, steps);
      WindowInvariant(begin, end, steps);
      prev := curr;
      curr := next;
      if next != end {
        next := next + 1;
      }
      steps := steps + 1;
    }

    /** Postfix `operator++`: a copy of the old state, then an advance. */
    method PostIncrement() returns (tmp: DiffIterator)
      requires Valid()
      modifies this`prev, this`curr, this`next, this`steps
      ensures fresh(tmp) && tmp.Valid() && tmp.s == s && tmp.Cursors() == old(Cursors())
      ensures Valid() && Cursors() == Advance(old(Cursors()))
    {
      tmp := new DiffIterator.Copy(this);
      Increment();
    }

    /** `operator==`: only the current cursor and the end sentinel take part. */
    predicate Equals(rhs: DiffIterator)
      reads this, rhs
      ensures Equals(rhs) <==> curr == rhs.curr && end == rhs.end
    {
      curr == rhs.curr && end == rhs.end
    }

    /** `set_diff`: overwrite the cache with the resolved window. */
    method SetDiff()
      requires Valid() && curr != end
      modifies this`diff
      ensures diff == Resolve(s, Cursors())
    {
      diff := Resolve(s, Cursors());
    }

    /**
     * `operator*` (and `operator->`, which returns the address of the same
     * cache): refresh the cache and hand it out. No cursor moves.
     */
    method Deref() returns (d: Diff)
      requires Valid() && curr != end
      modifies this`diff
      ensures d == diff == Resolve(s, Cursors())
      ensures d == ExpectedDiff(s, begin, end, curr)
    {
      SetDiff();
      d := diff;
      ResolveAtStep(s, begin, end, steps);
    }
  }

  /**
   * Compared with the end iterator `(end, end)`, `operator==` holds exactly
   * once the iterator has been advanced once per object of the range.
   */
  lemma EqualsEndIffPastLength(it: DiffIterator, dend: DiffIterator)
    requires it.Valid() && dend.curr == it.end && dend.end == it.end
    ensures it.Equals(dend) <==> it.steps >= it.end - it.begin
  {
    ReachesEndAfterLength(it.begin, it.end, it.steps);
  }
}

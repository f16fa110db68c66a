/** What `reconcileChildren` computes, stated in closed form over the list of
    old children and the list of elements, and proved of the loop. */
module ReconcileFacts {
  import opened Base
  import opened Elements
  import opened Fibers
  import opened Reconcile

  function Min(a: nat, b: nat): nat { if a < b then a else b }
  function Max(a: nat, b: nat): nat { if a < b then b else a }

  /** A call `reconcileChildren(wip, els)` made in world `w`. */
  datatype Job = Job(w: World, wip: nat, els: seq<Element>)

  /** The old children, in sibling order, that the loop walks. */
  function Olds(j: Job): (r: seq<nat>)
    requires Valid(j.w) && j.wip < |j.w.fibers|
    ensures forall k :: 0 <= k < |r| ==> r[k] < |j.w.fibers|
    ensures forall k, l :: 0 <= k < l < |r| ==> r[k] < r[l]
  {
    Chain(j.w.fibers, OldStart(j.w.fibers, j.wip))
  }

  /** The fiber being reconciled is not one of its own old children, and the
      loop is not already stopped. */
  predicate Ready(j: Job) {
    Valid(j.w) && j.wip < |j.w.fibers| && !j.w.halted && j.wip !in Olds(j)
  }

  /** The element and the old child at position `k` have the same type. */
  predicate Matched(j: Job, k: nat)
    requires Ready(j)
  {
    k < |j.els| && k < |Olds(j)| && j.els[k].kind == j.w.fibers[Olds(j)[k]].kind
  }

  /** The old children among the first `k` that no element reuses, in order. */
  function Unmatched(j: Job, k: nat): (r: seq<nat>)
    requires Ready(j) && k <= |Olds(j)|
  {
    if k == 0 then [] else Unmatched(j, k - 1) + (if Matched(j, k - 1) then [] else [Olds(j)[k - 1]])
  }

  /** The fiber made for element `k`, before it is linked to its successor. */
  function Made(j: Job, k: nat): Fiber
    requires Ready(j) && k < |j.els|
  {
    if Matched(j, k) then Updated(j.w.fibers[Olds(j)[k]], Olds(j)[k], j.els[k], j.wip)
    else Placed(j.els[k], j.wip)
  }

  /** Fiber `k` once the first `done` fibers exist: linked to fiber `k+1` when
      that one exists. New fibers are allocated at `base + k`. */
  function Linked(j: Job, k: nat, done: nat): Fiber
    requires Ready(j) && k < |j.els|
  {
    Made(j, k).(sibling := if k + 1 < done then Some(|j.w.fibers| + k + 1) else None)
  }

  /** Two records agree except possibly in `child` and `effectTag`. */
  ghost predicate Keeps(a: Fiber, b: Fiber) {
    a.kind == b.kind && a.props == b.props && a.dom == b.dom && a.parent == b.parent
    && a.sibling == b.sibling && a.alternate == b.alternate && a.hooks == b.hooks
  }

  /** The loop variables, the globals and the arena's size after `c.index`
      iterations, in closed form. */
  ghost predicate Shape(j: Job, c: Cursor)
    requires Ready(j)
  {
    var base := |j.w.fibers|;
    var n := |j.els|;
    var m := |Olds(j)|;
    var i := c.index;
    && !c.w.halted && SameGlobals(c.w, j.w)
    && i <= Max(n, m) && (m >= n + 2 ==> i <= n + 1)
    && |c.w.fibers| == base + Min(i, n)
    && c.w.deletions == j.w.deletions + Unmatched(j, Min(i, m))
    && c.oldFiber == (if i < m then Some(Olds(j)[i]) else None)
    && c.prev == (if 0 < i <= n then Some(base + i - 1) else None)
  }

  /** The new fibers made so far, each linked to the next. */
  ghost predicate NewPart(j: Job, c: Cursor)
    requires Ready(j) && Shape(j, c)
  {
    var done := Min(c.index, |j.els|);
    forall k :: 0 <= k < done ==> c.w.fibers[|j.w.fibers| + k] == Linked(j, k, done)
  }

  /** The fibers that existed before: only the reconciled fiber's child and
      the tags of the dropped old children have changed. */
  ghost predicate OldPart(j: Job, c: Cursor)
    requires Ready(j) && Shape(j, c)
  {
    var fs0 := j.w.fibers;
    var base := |fs0|;
    var i := c.index;
    var dropped := Unmatched(j, Min(i, |Olds(j)|));
    && (forall x :: 0 <= x < base ==> Keeps(c.w.fibers[x], fs0[x]))
    && (forall x :: 0 <= x < base && x != j.wip ==> c.w.fibers[x].child == fs0[x].child)
    && c.w.fibers[j.wip].child == (if i == 0 then fs0[j.wip].child else if |j.els| > 0 then Some(base) else None)
    && (forall x :: 0 <= x < base ==> c.w.fibers[x].tag == (if x in dropped then Deletion else fs0[x].tag))
  }

  /** The state of the loop after `c.index` iterations, in closed form. */
  ghost predicate Prefix(j: Job, c: Cursor)
    requires Ready(j)
  {
    Shape(j, c) && NewPart(j, c) && OldPart(j, c)
  }

  /** The sibling of each old child is the next one; the last has none. */
  lemma {:induction false} ChainNext(fs: seq<Fiber>, start: Option<nat>, k: nat)
    requires WF(fs) && In(start, |fs|) && k < |Chain(fs, start)|
    ensures fs[Chain(fs, start)[k]].sibling ==
            (if k + 1 < |Chain(fs, start)| then Some(Chain(fs, start)[k + 1]) else None)
    decreases k
  {
    assert LinkOk(fs, start.value);
    var rest := fs[start.value].sibling;
    assert Chain(fs, start) == [start.value] + Chain(fs, rest);
    if k > 0 {
      ChainNext(fs, rest, k - 1);
    }
  }

  /** The old fiber under the cursor is unchanged but for its tag and child. */
  ghost predicate CursorKept(j: Job, c: Cursor)
    requires Ready(j) && Inv(j.wip, |j.w.fibers|, c) && Shape(j, c)
  {
    c.oldFiber.Some? ==> Keeps(c.w.fibers[c.oldFiber.value], j.w.fibers[c.oldFiber.value])
  }

  /** At iteration `i` the old cursor is old child `i`, unchanged but for its
      tag, so `sameType` is the closed-form match. */
  lemma CursorOld(j: Job, c: Cursor)
    requires Ready(j) && Inv(j.wip, |j.w.fibers|, c) && Shape(j, c) && CursorKept(j, c)
    ensures SameType(j.els, c) == Matched(j, c.index)
    ensures Dropped(j.els, c) == (c.index < |Olds(j)| && !Matched(j, c.index))
    ensures c.oldFiber.Some? ==>
      c.w.fibers[c.oldFiber.value].sibling == (if c.index + 1 < |Olds(j)| then Some(Olds(j)[c.index + 1]) else None)
  {
    if c.oldFiber.Some? {
      ChainNext(j.w.fibers, OldStart(j.w.fibers, j.wip), c.index);
    }
  }

  /** The element's new fiber, if any, is appended as `Made`. */
  lemma GrownIs(j: Job, c: Cursor)
    requires Ready(j) && Inv(j.wip, |j.w.fibers|, c) && Shape(j, c) && CursorKept(j, c)
    ensures Grown(j.wip, j.els, c) ==
            if c.index < |j.els| then c.w.fibers + [Made(j, c.index)] else c.w.fibers
  {
    CursorOld(j, c);
    if SameType(j.els, c) {
      var o := c.oldFiber.value;
      assert Keeps(c.w.fibers[o], j.w.fibers[o]);
    }
  }

  /** The loop faults exactly when there are at least two more old children
      than elements. */
  predicate Faults(j: Job)
    requires Ready(j)
  {
    |Olds(j)| >= |j.els| + 2
  }

  /** Queuing the dropped old fiber keeps `deletions` in closed form. */
  lemma DeletionsNext(j: Job, c: Cursor, dels: seq<nat>)
    requires Ready(j) && Inv(j.wip, |j.w.fibers|, c) && Shape(j, c) && CursorKept(j, c)
    requires dels == c.w.deletions + (if Dropped(j.els, c) then [c.oldFiber.value] else [])
    ensures dels == j.w.deletions + Unmatched(j, Min(c.index + 1, |Olds(j)|))
  {
    var i := c.index;
    var m := |Olds(j)|;
    CursorOld(j, c);
    UnmatchedStep(j, i);
    var before := Unmatched(j, Min(i, m));
    var added := if Dropped(j.els, c) then [c.oldFiber.value] else [];
    assert added == if i < m && !Matched(j, i) then [Olds(j)[i]] else [];
    assert (j.w.deletions + before) + added == j.w.deletions + (before + added);
  }

  /** One iteration queues old child `i` for deletion when no element of its
      type is at position `i`. */
  lemma StepDeletions(j: Job, c: Cursor)
    requires Ready(j) && Inv(j.wip, |j.w.fibers|, c) && Shape(j, c) && CursorKept(j, c)
    requires c.index < |j.els| || c.oldFiber.Some?
    ensures Step(j.wip, j.els, |j.w.fibers|, c).w.deletions == j.w.deletions + Unmatched(j, Min(c.index + 1, |Olds(j)|))
  {
    StepVars(j.wip, j.els, |j.w.fibers|, c);
    DeletionsNext(j, c, Step(j.wip, j.els, |j.w.fibers|, c).w.deletions);
  }

  /** The loop variables move on by one position. */
  lemma StepCursor(j: Job, c: Cursor)
    requires Ready(j) && Inv(j.wip, |j.w.fibers|, c) && Shape(j, c) && CursorKept(j, c)
    requires c.index < |j.els| || c.oldFiber.Some?
    ensures var r := Step(j.wip, j.els, |j.w.fibers|, c);
      && (r.w.halted ==> Faults(j) && c.index == |j.els| + 1)
      && (!r.w.halted ==>
            && r.index <= Max(|j.els|, |Olds(j)|) && (Faults(j) ==> r.index <= |j.els| + 1)
            && |r.w.fibers| == |j.w.fibers| + Min(r.index, |j.els|)
            && r.oldFiber == (if r.index < |Olds(j)| then Some(Olds(j)[r.index]) else None)
            && r.prev == (if 0 < r.index <= |j.els| then Some(|j.w.fibers| + r.index - 1) else None))
  {
    CursorOld(j, c);
    StepVars(j.wip, j.els, |j.w.fibers|, c);
  }

  /** One iteration carries the loop variables from `i` to `i + 1`, or faults
      at `i = n + 1` having queued old child `n + 1` for deletion. */
  lemma StepShape(j: Job, c: Cursor)
    requires Ready(j) && Inv(j.wip, |j.w.fibers|, c) && Shape(j, c) && CursorKept(j, c)
    requires c.index < |j.els| || c.oldFiber.Some?
    ensures var r := Step(j.wip, j.els, |j.w.fibers|, c);
      if r.w.halted then Faults(j) && r.w.deletions == j.w.deletions + Unmatched(j, |j.els| + 2)
      else Shape(j, r)
  {
    StepDeletions(j, c);
    StepCursor(j, c);
  }

  /** How one iteration changes new fiber `k`: it is made when `k` is the
      current index, and linked to its successor one iteration later. */
  ghost predicate GrewAt(j: Job, c: Cursor, r: Cursor, k: nat)
    requires Ready(j) && k < |j.els|
  {
    var p := |j.w.fibers| + k;
    p < |r.w.fibers| &&
    r.w.fibers[p] == (if k == c.index then Made(j, k)
                      else if p < |c.w.fibers| && k + 1 == c.index then c.w.fibers[p].(sibling := NewFiber(j.els, c))
                      else if p < |c.w.fibers| then c.w.fibers[p]
                      else r.w.fibers[p])
  }

  /** What one iteration does to new fiber `k`. */
  lemma StepNewAt(j: Job, c: Cursor, k: nat)
    requires Ready(j) && Inv(j.wip, |j.w.fibers|, c) && Shape(j, c) && CursorKept(j, c)
    requires c.index < |j.els| || c.oldFiber.Some?
    requires k < Min(c.index + 1, |j.els|)
    ensures var r := Step(j.wip, j.els, |j.w.fibers|, c);
      !r.w.halted ==> GrewAt(j, c, r, k)
  {
    var base := |j.w.fibers|;
    var r := Step(j.wip, j.els, base, c);
    StepShape(j, c);
    if r.w.halted {
      return;
    }
    CursorOld(j, c);
    GrownIs(j, c);
    StepVars(j.wip, j.els, base, c);
    StepArena(j.wip, j.els, base, c);
    assert Retired(j.wip, j.els, c)[base + k] == Grown(j.wip, j.els, c)[base + k];
  }

  /** The closed form of the new fibers carries over an iteration that
      changes them as `GrewAt` says. */
  lemma NewPartStep(j: Job, c: Cursor, r: Cursor)
    requires Ready(j) && Shape(j, c) && NewPart(j, c) && Shape(j, r)
    requires r.index == c.index + 1
    requires forall k :: 0 <= k < Min(c.index + 1, |j.els|) ==> GrewAt(j, c, r, k)
    ensures NewPart(j, r)
  {
    var base := |j.w.fibers|;
    var i := c.index;
    var done := Min(i, |j.els|);
    var done' := Min(i + 1, |j.els|);
    forall k | 0 <= k < done' ensures r.w.fibers[base + k] == Linked(j, k, done') {
      assert GrewAt(j, c, r, k);
      if k < done {
        assert c.w.fibers[base + k] == Linked(j, k, done);
      }
      NewPartAt(j, c, r, k);
    }
  }

  /** New fiber `k` after one more iteration. */
  lemma NewPartAt(j: Job, c: Cursor, r: Cursor, k: nat)
    requires Ready(j) && Shape(j, c) && Shape(j, r) && r.index == c.index + 1
    requires k < Min(c.index + 1, |j.els|) && GrewAt(j, c, r, k)
    requires k < Min(c.index, |j.els|) ==> c.w.fibers[|j.w.fibers| + k] == Linked(j, k, Min(c.index, |j.els|))
    ensures r.w.fibers[|j.w.fibers| + k] == Linked(j, k, Min(c.index + 1, |j.els|))
  {
  }

  /** One iteration appends the element's fiber and links the previous one
      to it. */
  lemma StepNew(j: Job, c: Cursor)
    requires Ready(j) && Inv(j.wip, |j.w.fibers|, c) && Shape(j, c) && CursorKept(j, c) && NewPart(j, c)
    requires c.index < |j.els| || c.oldFiber.Some?
    ensures var r := Step(j.wip, j.els, |j.w.fibers|, c);
      !r.w.halted ==> Shape(j, r) && NewPart(j, r)
  {
    var r := Step(j.wip, j.els, |j.w.fibers|, c);
    StepShape(j, c);
    if r.w.halted {
      return;
    }
    forall k | 0 <= k < Min(c.index + 1, |j.els|) ensures GrewAt(j, c, r, k) {
      StepNewAt(j, c, k);
    }
    NewPartStep(j, c, r);
  }

  /** How one iteration changes an older fiber `x`: `tagged` is the dropped
      old child, if any, and `child` the reconciled fiber's new child, if the
      iteration is the first. */
  ghost predicate TouchedAt(before: seq<Fiber>, after: seq<Fiber>, x: nat, tagged: Option<nat>, wip: nat, child: Option<Option<nat>>)
    requires x < |before| && x < |after|
  {
    && after[x].(tag := before[x].tag, child := before[x].child) == before[x]
    && after[x].child == (if x == wip && child.Some? then child.value else before[x].child)
    && after[x].tag == (if tagged == Some(x) then Deletion else before[x].tag)
  }

  /** The old child an iteration tags for deletion, if any. */
  function Tagged(j: Job, c: Cursor): Option<nat>
    requires Ready(j)
  {
    if c.index < |Olds(j)| && !Matched(j, c.index) then Some(Olds(j)[c.index]) else None
  }

  /** The child the first iteration gives the reconciled fiber. */
  function FirstChild(j: Job, c: Cursor): Option<Option<nat>> {
    if c.index == 0 then Some(if c.index < |j.els| then Some(|c.w.fibers|) else None) else None
  }

  /** What one iteration does to an older fiber `x`. */
  lemma StepOldAt(j: Job, c: Cursor, x: nat)
    requires Ready(j) && Inv(j.wip, |j.w.fibers|, c) && Shape(j, c) && CursorKept(j, c)
    requires c.index < |j.els| || c.oldFiber.Some?
    requires x < |j.w.fibers|
    ensures var r := Step(j.wip, j.els, |j.w.fibers|, c);
      !r.w.halted ==>
        TouchedAt(c.w.fibers, r.w.fibers, x, Tagged(j, c), j.wip, FirstChild(j, c))
  {
    var base := |j.w.fibers|;
    var r := Step(j.wip, j.els, base, c);
    StepShape(j, c);
    if r.w.halted {
      return;
    }
    CursorOld(j, c);
    RetiredAt(j.wip, j.els, base, c, x);
    StepArena(j.wip, j.els, base, c);
  }

  /** The old children dropped by the first `i + 1` iterations. */
  lemma UnmatchedStep(j: Job, i: nat)
    requires Ready(j)
    ensures Unmatched(j, Min(i + 1, |Olds(j)|)) ==
            Unmatched(j, Min(i, |Olds(j)|)) + (if i < |Olds(j)| && !Matched(j, i) then [Olds(j)[i]] else [])
  {
  }

  /** The tag of an older fiber after one more iteration. */
  lemma TagStep(j: Job, c: Cursor, r: Cursor, x: nat)
    requires Ready(j) && x < |j.w.fibers| && x < |c.w.fibers| && x < |r.w.fibers|
    requires c.w.fibers[x].tag == (if x in Unmatched(j, Min(c.index, |Olds(j)|)) then Deletion else j.w.fibers[x].tag)
    requires TouchedAt(c.w.fibers, r.w.fibers, x, Tagged(j, c), j.wip, FirstChild(j, c))
    ensures r.w.fibers[x].tag == (if x in Unmatched(j, Min(c.index + 1, |Olds(j)|)) then Deletion else j.w.fibers[x].tag)
  {
    UnmatchedStep(j, c.index);
  }

  /** The closed form of the older fibers carries over an iteration that
      changes them as `TouchedAt` says. */
  lemma OldPartStep(j: Job, c: Cursor, r: Cursor)
    requires Ready(j) && Shape(j, c) && OldPart(j, c) && Shape(j, r)
    requires r.index == c.index + 1
    requires forall x :: 0 <= x < |j.w.fibers| ==> TouchedAt(c.w.fibers, r.w.fibers, x, Tagged(j, c), j.wip, FirstChild(j, c))
    ensures OldPart(j, r)
  {
    forall x | 0 <= x < |j.w.fibers|
      ensures Keeps(r.w.fibers[x], j.w.fibers[x])
      ensures x != j.wip ==> r.w.fibers[x].child == j.w.fibers[x].child
      ensures r.w.fibers[x].tag == (if x in Unmatched(j, Min(r.index, |Olds(j)|)) then Deletion else j.w.fibers[x].tag)
    {
      assert Keeps(c.w.fibers[x], j.w.fibers[x]);
      assert TouchedAt(c.w.fibers, r.w.fibers, x, Tagged(j, c), j.wip, FirstChild(j, c));
      TagStep(j, c, r, x);
    }
    assert TouchedAt(c.w.fibers, r.w.fibers, j.wip, Tagged(j, c), j.wip, FirstChild(j, c));
  }

  /** One iteration touches the older fibers only by tagging the dropped old
      child and, the first time, setting the reconciled fiber's child. */
  lemma StepOld(j: Job, c: Cursor)
    requires Ready(j) && Inv(j.wip, |j.w.fibers|, c) && Shape(j, c) && OldPart(j, c)
    requires c.index < |j.els| || c.oldFiber.Some?
    ensures var r := Step(j.wip, j.els, |j.w.fibers|, c);
      !r.w.halted ==> Shape(j, r) && OldPart(j, r)
  {
    var r := Step(j.wip, j.els, |j.w.fibers|, c);
    StepShape(j, c);
    if r.w.halted {
      return;
    }
    CursorOld(j, c);
    forall x | 0 <= x < |j.w.fibers|
      ensures TouchedAt(c.w.fibers, r.w.fibers, x, Tagged(j, c), j.wip, FirstChild(j, c))
    {
      StepOldAt(j, c, x);
    }
    OldPartStep(j, c, r);
  }

  /** The loop's starting cursor is the closed form at index 0. */
  lemma StartPrefix(j: Job)
    requires Ready(j)
    ensures Prefix(j, Start(j.w, j.wip))
  {
    var c := Start(j.w, j.wip);
    assert Unmatched(j, 0) == [];
    assert c.w.deletions == j.w.deletions + [];
    var olds := Olds(j);
    if |olds| > 0 {
      assert c.oldFiber == Some(olds[0]);
    }
  }

  /** What `reconcileChildren` leaves behind, in closed form: with `n`
      elements and `m` old children, either `m >= n + 2` and it faults after
      queuing the dropped ones among the first `n + 2`, or the `n` new fibers
      are `Linked` in order, the reconciled fiber's child is the first of them
      (null when there are none and there were old children), each old child
      no element reuses is tagged and queued in order, and nothing else older
      changes. */
  ghost predicate Final(j: Job, r: World)
    requires Ready(j)
  {
    var fs0 := j.w.fibers;
    var base := |fs0|;
    var n := |j.els|;
    var m := |Olds(j)|;
    if Faults(j) then
      r.halted && r.deletions == j.w.deletions + Unmatched(j, n + 2)
    else
      && !r.halted && SameGlobals(r, j.w)
      && |r.fibers| == base + n
      && (forall k :: 0 <= k < n ==> r.fibers[base + k] == Linked(j, k, n))
      && (forall x :: 0 <= x < base ==> Keeps(r.fibers[x], fs0[x]))
      && (forall x :: 0 <= x < base && x != j.wip ==> r.fibers[x].child == fs0[x].child)
      && r.fibers[j.wip].child == (if n == 0 && m == 0 then fs0[j.wip].child else if n > 0 then Some(base) else None)
      && (forall x :: 0 <= x < base ==> r.fibers[x].tag == (if x in Unmatched(j, m) then Deletion else fs0[x].tag))
      && r.deletions == j.w.deletions + Unmatched(j, m)
  }

  lemma {:induction false} LoopFinal(j: Job, c: Cursor)
    requires Ready(j) && Inv(j.wip, |j.w.fibers|, c) && Prefix(j, c)
    ensures Final(j, Loop(j.wip, j.els, |j.w.fibers|, c))
    decreases Measure(|j.els|, |j.w.fibers|, c)
  {
    if c.index < |j.els| || c.oldFiber.Some? {
      var r := Step(j.wip, j.els, |j.w.fibers|, c);
      StepOk(j.wip, j.els, |j.w.fibers|, c);
      StepShape(j, c);
      StepNew(j, c);
      StepOld(j, c);
      if !r.w.halted {
        LoopFinal(j, r);
      }
    }
  }

  /** `reconcileChildren` computes the closed form `Final`. */
  lemma ReconcileIsFinal(j: Job)
    requires Ready(j)
    ensures Final(j, ReconcileChildren(j.w, j.wip, j.els))
  {
    StartPrefix(j);
    LoopFinal(j, Start(j.w, j.wip));
  }

  /** `reconcileChildren` faults exactly when the old children outnumber the
      elements by two or more: after the elements run out, the first
      iteration has a fiber to link behind, the second does not. */
  lemma FaultIff(j: Job)
    requires Ready(j)
    ensures ReconcileChildren(j.w, j.wip, j.els).halted <==> |Olds(j)| >= |j.els| + 2
  {
    ReconcileIsFinal(j);
  }

  lemma FinalNew(j: Job, k: nat)
    requires Ready(j) && !Faults(j) && k < |j.els|
    ensures |ReconcileChildren(j.w, j.wip, j.els).fibers| == |j.w.fibers| + |j.els|
    ensures ReconcileChildren(j.w, j.wip, j.els).fibers[|j.w.fibers| + k] == Linked(j, k, |j.els|)
  {
    ReconcileIsFinal(j);
  }

  lemma FinalOld(j: Job, x: nat)
    requires Ready(j) && !Faults(j) && x < |j.w.fibers|
    ensures |ReconcileChildren(j.w, j.wip, j.els).fibers| == |j.w.fibers| + |j.els|
    ensures var f := ReconcileChildren(j.w, j.wip, j.els).fibers[x];
      && Keeps(f, j.w.fibers[x])
      && f.tag == (if x in Unmatched(j, |Olds(j)|) then Deletion else j.w.fibers[x].tag)
      && f.child == (if x != j.wip || (|j.els| == 0 && |Olds(j)| == 0) then j.w.fibers[x].child
                     else if |j.els| > 0 then Some(|j.w.fibers|) else None)
  {
    ReconcileIsFinal(j);
  }

  /** `deletions` is extended by exactly the old children no element
      reuses, in sibling order. */
  lemma FinalDeletions(j: Job)
    requires Ready(j) && !Faults(j)
    ensures ReconcileChildren(j.w, j.wip, j.els).deletions == j.w.deletions + Unmatched(j, |Olds(j)|)
  {
    ReconcileIsFinal(j);
  }

  /** Element `k` gets the fiber at `base + k`, with its type, its props and
      the reconciled fiber as parent. It reuses old child `k` (its DOM node,
      and it becomes the alternate, tagged UPDATE) exactly when that child
      exists and has the element's type; otherwise it is PLACEMENT with no
      DOM node and no alternate. */
  lemma PairsByPosition(j: Job, k: nat)
    requires Ready(j) && !Faults(j) && k < |j.els|
    ensures |ReconcileChildren(j.w, j.wip, j.els).fibers| == |j.w.fibers| + |j.els|
    ensures var f := ReconcileChildren(j.w, j.wip, j.els).fibers[|j.w.fibers| + k];
      var olds := Olds(j);
      && f.kind == j.els[k].kind && f.props == j.els[k].props && f.parent == Some(j.wip)
      && f.child.None? && f.hooks == []
      && (f.tag == Update <==> k < |olds| && j.w.fibers[olds[k]].kind == j.els[k].kind)
      && (f.tag == Update ==> f.alternate == Some(olds[k]) && f.dom == j.w.fibers[olds[k]].dom)
      && (f.tag != Update ==> f.tag == Placement && f.alternate.None? && f.dom.None?)
  {
    FinalNew(j, k);
  }

  /** The positions `a` to `b - 1`. */
  function Range(a: nat, b: nat): (r: seq<nat>)
    ensures |r| == if a < b then b - a else 0
    ensures forall k :: 0 <= k < |r| ==> r[k] == a + k
    decreases b - a
  {
    if a >= b then [] else [a] + Range(a + 1, b)
  }

  lemma {:induction false} LinkedChain(j: Job, fs: seq<Fiber>, k: nat)
    requires Ready(j) && WF(fs) && k < |j.els| && |fs| == |j.w.fibers| + |j.els|
    requires forall l :: 0 <= l < |j.els| ==> fs[|j.w.fibers| + l] == Linked(j, l, |j.els|)
    ensures Chain(fs, Some(|j.w.fibers| + k)) == Range(|j.w.fibers| + k, |fs|)
    decreases |j.els| - k
  {
    var base := |j.w.fibers|;
    assert fs[base + k] == Linked(j, k, |j.els|);
    if k + 1 < |j.els| {
      LinkedChain(j, fs, k + 1);
    }
  }

  /** After reconciling, the children of the reconciled fiber, read along
      `child` and `sibling`, are one new fiber per element, in element order. */
  lemma ChildrenFollowElements(j: Job)
    requires Ready(j) && !Faults(j) && |j.els| > 0
    ensures |ReconcileChildren(j.w, j.wip, j.els).fibers| == |j.w.fibers| + |j.els|
    ensures ReconcileChildren(j.w, j.wip, j.els).fibers[j.wip].child == Some(|j.w.fibers|)
    ensures var r := ReconcileChildren(j.w, j.wip, j.els);
      Chain(r.fibers, r.fibers[j.wip].child) == Range(|j.w.fibers|, |j.w.fibers| + |j.els|)
  {
    var fs := ReconcileChildren(j.w, j.wip, j.els).fibers;
    FinalOld(j, j.wip);
    FinalNewAll(j);
    LinkedChain(j, fs, 0);
  }

  /** Every new fiber, linked to the next. */
  lemma FinalNewAll(j: Job)
    requires Ready(j) && !Faults(j)
    ensures var fs := ReconcileChildren(j.w, j.wip, j.els).fibers;
      && |fs| == |j.w.fibers| + |j.els|
      && forall l :: 0 <= l < |j.els| ==> fs[|j.w.fibers| + l] == Linked(j, l, |j.els|)
  {
    ReconcileIsFinal(j);
  }

  /** No old child is lost: each is either reused by the element at its
      position or tagged DELETION and queued, in order, on `deletions`. */
  lemma OldChildrenAccounted(j: Job, k: nat)
    requires Ready(j) && !Faults(j) && k < |Olds(j)|
    ensures |ReconcileChildren(j.w, j.wip, j.els).fibers| == |j.w.fibers| + |j.els|
    ensures var r := ReconcileChildren(j.w, j.wip, j.els);
      var o := Olds(j)[k];
      if k < |j.els| && j.els[k].kind == j.w.fibers[o].kind then
        r.fibers[|j.w.fibers| + k].alternate == Some(o) && r.fibers[o].tag == j.w.fibers[o].tag
      else
        r.fibers[o].tag == Deletion && o in r.deletions
  {
    var o := Olds(j)[k];
    FinalOld(j, o);
    if Matched(j, k) {
      FinalNew(j, k);
      // old children are distinct, so `o` is not queued under another position
      forall x | x in Unmatched(j, |Olds(j)|) ensures x != o {
        UnmatchedAreOld(j, |Olds(j)|, x);
      }
    } else {
      ReconcileIsFinal(j);
      UnmatchedHas(j, |Olds(j)|, k);
    }
  }

  /** `deletions` grows by exactly the old children no element reuses, in
      sibling order. */
  lemma DeletionsAreDropped(j: Job, x: nat)
    requires Ready(j) && !Faults(j)
    ensures var r := ReconcileChildren(j.w, j.wip, j.els);
      && |r.deletions| >= |j.w.deletions| && r.deletions[..|j.w.deletions|] == j.w.deletions
      && (x in r.deletions[|j.w.deletions|..] <==>
            exists k :: 0 <= k < |Olds(j)| && Olds(j)[k] == x && !(k < |j.els| && j.els[k].kind == j.w.fibers[x].kind))
  {
    ReconcileIsFinal(j);
    var r := ReconcileChildren(j.w, j.wip, j.els);
    assert r.deletions[|j.w.deletions|..] == Unmatched(j, |Olds(j)|);
    UnmatchedAreOld(j, |Olds(j)|, x);
  }

  lemma {:induction false} UnmatchedHas(j: Job, n: nat, k: nat)
    requires Ready(j) && k < n <= |Olds(j)| && !Matched(j, k)
    ensures Olds(j)[k] in Unmatched(j, n)
  {
    if k < n - 1 {
      UnmatchedHas(j, n - 1, k);
    }
  }

  /** Only old children are queued for deletion, each at most once, and only
      when no element of its type stands at its position. */
  lemma {:induction false} UnmatchedAreOld(j: Job, n: nat, x: nat)
    requires Ready(j) && n <= |Olds(j)|
    ensures x in Unmatched(j, n) <==> exists k :: 0 <= k < n && Olds(j)[k] == x && !Matched(j, k)
  {
    if n > 0 {
      UnmatchedAreOld(j, n - 1, x);
    }
  }
}

/** `reconcileChildren`: builds the new child fibers of a work-in-progress
    fiber from its child elements, pairing them by position with the old
    fibers hanging below its alternate. The three variants share this code. */
module Reconcile {
  import opened Base
  import opened Elements
  import opened Fibers

  /** An old fiber of the same type is reused: its type and DOM node are kept,
      the element's props are taken, and it becomes the alternate. */
  function Updated(prior: Fiber, oldId: nat, el: Element, wip: nat): Fiber {
    Fiber(prior.kind, el.props, prior.dom, Some(wip), None, None, Some(oldId), Update, [])
  }

  /** Otherwise a fresh fiber with no DOM node and no alternate is placed. */
  function Placed(el: Element, wip: nat): Fiber {
    Fiber(el.kind, el.props, None, Some(wip), None, None, None, Placement, [])
  }

  /** The loop variables `index`, `oldFiber` and `prevSibling`, with the world. */
  datatype Cursor = Cursor(w: World, index: nat, oldFiber: Option<nat>, prev: Option<nat>)

  /** The fibers older than `base` (those that existed when the loop began)
      keep their siblings among themselves. */
  predicate SiblingsBelow(fs: seq<Fiber>, base: nat) {
    forall x :: 0 <= x < base && x < |fs| ==> In(fs[x].sibling, base)
  }

  /** What holds between iterations: the old fibers are older than `base`,
      the new ones are not. */
  predicate Inv(wip: nat, base: nat, c: Cursor) {
    && Valid(c.w) && wip < base <= |c.w.fibers| && SiblingsBelow(c.w.fibers, base)
    && In(c.oldFiber, base) && In(c.prev, |c.w.fibers|) && (c.prev.Some? ==> base <= c.prev.value)
  }

  /** Only the arena, `deletions` and the fault flag change. */
  predicate SameGlobals(a: World, b: World) {
    a.wipRoot == b.wipRoot && a.currentRoot == b.currentRoot && a.nextUnit == b.nextUnit
    && a.wipFiber == b.wipFiber && a.hookIndex == b.hookIndex && a.dom == b.dom
  }

  /** Elements still to pair plus the distance of the old cursor from `base`. */
  function Measure(n: nat, base: nat, c: Cursor): nat {
    (if c.index < n then n - c.index else 0) + (if c.oldFiber.Some? && c.oldFiber.value < base then base - c.oldFiber.value else 0)
  }

  /** `sameType`: there is an old fiber and an element, of the same type. */
  predicate SameType(els: seq<Element>, c: Cursor)
    requires In(c.oldFiber, |c.w.fibers|)
  {
    c.oldFiber.Some? && c.index < |els| && els[c.index].kind == c.w.fibers[c.oldFiber.value].kind
  }

  /** `newFiber`: the index the fiber made for this element gets, if any. */
  function NewFiber(els: seq<Element>, c: Cursor): Option<nat> {
    if c.index < |els| then Some(|c.w.fibers|) else None
  }

  /** The arena after the element's fiber, if any, is made. */
  function Grown(wip: nat, els: seq<Element>, c: Cursor): (fs: seq<Fiber>)
    requires In(c.oldFiber, |c.w.fibers|)
  {
    var fs := c.w.fibers;
    if SameType(els, c) then fs + [Updated(fs[c.oldFiber.value], c.oldFiber.value, els[c.index], wip)]
    else if c.index < |els| then fs + [Placed(els[c.index], wip)]
    else fs
  }

  /** An old fiber that is not reused is tagged for deletion. */
  predicate Dropped(els: seq<Element>, c: Cursor)
    requires In(c.oldFiber, |c.w.fibers|)
  {
    c.oldFiber.Some? && !SameType(els, c)
  }

  /** The arena after the old fiber, if dropped, is tagged. */
  function Retired(wip: nat, els: seq<Element>, c: Cursor): (fs: seq<Fiber>)
    requires In(c.oldFiber, |c.w.fibers|)
  {
    var fs1 := Grown(wip, els, c);
    if Dropped(els, c) then fs1[c.oldFiber.value := fs1[c.oldFiber.value].(tag := Deletion)] else fs1
  }

  /** One iteration of the loop. At an index past the first whose previous
      element had no fiber, `prevSibling` is null and the link faults. */
  function Step(wip: nat, els: seq<Element>, base: nat, c: Cursor): (r: Cursor)
    requires Inv(wip, base, c) && (c.index < |els| || c.oldFiber.Some?)
    ensures SameGlobals(r.w, c.w) && r.index == c.index + 1
    ensures |r.w.fibers| == |c.w.fibers| + (if c.index < |els| then 1 else 0)
  {
    var fs2 := Retired(wip, els, c);
    var newFiber := NewFiber(els, c);
    var dels := if Dropped(els, c) then c.w.deletions + [c.oldFiber.value] else c.w.deletions;
    var next := if c.oldFiber.Some? then fs2[c.oldFiber.value].sibling else None;
    if c.index == 0 then
      Cursor(c.w.(fibers := fs2[wip := fs2[wip].(child := newFiber)], deletions := dels), 1, next, newFiber)
    else if c.prev.None? then
      Cursor(c.w.(fibers := fs2, deletions := dels, halted := true), c.index + 1, next, newFiber)
    else
      Cursor(c.w.(fibers := fs2[c.prev.value := fs2[c.prev.value].(sibling := newFiber)], deletions := dels), c.index + 1, next, newFiber)
  }

  lemma GrownOk(wip: nat, els: seq<Element>, base: nat, c: Cursor)
    requires Inv(wip, base, c)
    ensures WF(Grown(wip, els, c)) && SiblingsBelow(Grown(wip, els, c), base)
    ensures Grown(wip, els, c)[..|c.w.fibers|] == c.w.fibers
  {
    var fs := c.w.fibers;
    if SameType(els, c) {
      AppendKeepsWF(fs, Updated(fs[c.oldFiber.value], c.oldFiber.value, els[c.index], wip));
    } else if c.index < |els| {
      AppendKeepsWF(fs, Placed(els[c.index], wip));
    }
  }

  lemma RetiredOk(wip: nat, els: seq<Element>, base: nat, c: Cursor)
    requires Inv(wip, base, c)
    ensures WF(Retired(wip, els, c)) && SiblingsBelow(Retired(wip, els, c), base)
    ensures |Retired(wip, els, c)| == |Grown(wip, els, c)|
    ensures c.oldFiber.Some? ==> Retired(wip, els, c)[c.oldFiber.value].sibling == c.w.fibers[c.oldFiber.value].sibling
  {
    GrownOk(wip, els, base, c);
    var fs1 := Grown(wip, els, c);
    if Dropped(els, c) {
      assert LinkOk(fs1, c.oldFiber.value);
      SetKeepsWF(fs1, c.oldFiber.value, fs1[c.oldFiber.value].(tag := Deletion));
    }
    if c.oldFiber.Some? {
      assert fs1[c.oldFiber.value] == c.w.fibers[c.oldFiber.value];
    }
  }

  /** An older fiber after the element's fiber is made and the old fiber, if
      dropped, is tagged. */
  lemma RetiredAt(wip: nat, els: seq<Element>, base: nat, c: Cursor, x: nat)
    requires Inv(wip, base, c) && x < |c.w.fibers|
    ensures x < |Retired(wip, els, c)|
    ensures Retired(wip, els, c)[x] ==
      if Dropped(els, c) && c.oldFiber == Some(x) then c.w.fibers[x].(tag := Deletion) else c.w.fibers[x]
  {
    GrownOk(wip, els, base, c);
    assert Grown(wip, els, c)[x] == c.w.fibers[x];
  }

  /** Each iteration keeps the invariant and brings the loop closer to its end. */
  lemma StepOk(wip: nat, els: seq<Element>, base: nat, c: Cursor)
    requires Inv(wip, base, c) && (c.index < |els| || c.oldFiber.Some?)
    ensures Inv(wip, base, Step(wip, els, base, c))
    ensures Measure(|els|, base, Step(wip, els, base, c)) < Measure(|els|, base, c)
  {
    RetiredOk(wip, els, base, c);
    var fs2 := Retired(wip, els, c);
    var newFiber := NewFiber(els, c);
    var r := Step(wip, els, base, c);
    if c.oldFiber.Some? {
      assert LinkOk(c.w.fibers, c.oldFiber.value);
    }
    if c.index == 0 {
      assert LinkOk(fs2, wip);
      SetKeepsWF(fs2, wip, fs2[wip].(child := newFiber));
    } else if c.prev.Some? {
      assert LinkOk(fs2, c.prev.value);
      SetKeepsWF(fs2, c.prev.value, fs2[c.prev.value].(sibling := newFiber));
    }
  }

  /** What one iteration does to the loop variables and to `deletions`. */
  lemma StepVars(wip: nat, els: seq<Element>, base: nat, c: Cursor)
    requires Inv(wip, base, c) && (c.index < |els| || c.oldFiber.Some?)
    ensures var r := Step(wip, els, base, c);
      && r.w.halted == (c.w.halted || (c.index != 0 && c.prev.None?))
      && r.prev == NewFiber(els, c)
      && r.oldFiber == (if c.oldFiber.Some? then c.w.fibers[c.oldFiber.value].sibling else None)
      && r.w.deletions == c.w.deletions + (if Dropped(els, c) then [c.oldFiber.value] else [])
  {
    RetiredOk(wip, els, base, c);
  }

  /** What one iteration does to the arena, when it does not fault. */
  lemma StepArena(wip: nat, els: seq<Element>, base: nat, c: Cursor)
    requires Inv(wip, base, c) && (c.index < |els| || c.oldFiber.Some?)
    ensures var r := Step(wip, els, base, c);
      var fs2 := Retired(wip, els, c);
      && |fs2| == |Grown(wip, els, c)|
      && (c.index == 0 ==> r.w.fibers == fs2[wip := fs2[wip].(child := NewFiber(els, c))])
      && (c.index != 0 && c.prev.Some? ==>
            r.w.fibers == fs2[c.prev.value := fs2[c.prev.value].(sibling := NewFiber(els, c))])
  {
    RetiredOk(wip, els, base, c);
  }

  /** The rest of the loop from cursor `c`; stops at the first fault. */
  function Loop(wip: nat, els: seq<Element>, base: nat, c: Cursor): (r: World)
    requires Inv(wip, base, c) && !c.w.halted
    ensures Valid(r) && SameGlobals(r, c.w) && |r.fibers| >= |c.w.fibers|
    decreases Measure(|els|, base, c)
  {
    if !(c.index < |els| || c.oldFiber.Some?) then c.w
    else
      var c' := Step(wip, els, base, c);
      StepOk(wip, els, base, c);
      if c'.w.halted then c'.w else Loop(wip, els, base, c')
  }

  /** The loop takes one step, then stops on a fault or goes on. */
  lemma LoopStep(wip: nat, els: seq<Element>, base: nat, c: Cursor)
    requires Inv(wip, base, c) && !c.w.halted && (c.index < |els| || c.oldFiber.Some?)
    ensures var r := Step(wip, els, base, c);
      && Inv(wip, base, r) && Measure(|els|, base, r) < Measure(|els|, base, c)
      && Loop(wip, els, base, c) == if r.w.halted then r.w else Loop(wip, els, base, r)
  {
    StepOk(wip, els, base, c);
  }

  /** The first old child: `wipFiber.alternate.child`, or null. */
  function OldStart(fs: seq<Fiber>, wip: nat): (r: Option<nat>)
    requires WF(fs) && wip < |fs|
    ensures In(r, |fs|)
  {
    assert LinkOk(fs, wip);
    if fs[wip].alternate.Some? then
      assert LinkOk(fs, fs[wip].alternate.value);
      fs[fs[wip].alternate.value].child
    else None
  }

  /** The cursor the loop starts from. */
  function Start(w: World, wip: nat): (c: Cursor)
    requires Valid(w) && wip < |w.fibers|
    ensures Inv(wip, |w.fibers|, c)
  {
    assert SiblingsBelow(w.fibers, |w.fibers|) by {
      forall x | 0 <= x < |w.fibers| ensures In(w.fibers[x].sibling, |w.fibers|) { assert LinkOk(w.fibers, x); }
    }
    Cursor(w, 0, OldStart(w.fibers, wip), None)
  }

  /** `reconcileChildren(wipFiber, elements)`. */
  function ReconcileChildren(w: World, wip: nat, els: seq<Element>): (r: World)
    requires Valid(w) && wip < |w.fibers| && !w.halted
    ensures Valid(r) && SameGlobals(r, w) && |r.fibers| >= |w.fibers|
  {
    Loop(wip, els, |w.fibers|, Start(w, wip))
  }
}

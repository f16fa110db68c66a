/** The fiber tree and the reconciler's global state. Fibers live in an arena:
    a fiber is its index in `fibers`, and every pointer field holds an index. */
module Fibers {
  import opened Base
  import opened Elements
  import opened HostDom

  /** `effectTag`: undefined, "PLACEMENT", "UPDATE" or "DELETION". */
  datatype Tag = NoTag | Placement | Update | Deletion

  /** A `useState` cell: its state and the actions queued by its setter. */
  datatype Hook = Hook(state: int, queue: seq<int -> int>)

  /** A fiber record. `kind` is `type`; the pointers are arena indices. */
  datatype Fiber = Fiber(kind: Kind, props: seq<Prop>, dom: Option<NodeId>,
                         parent: Option<nat>, child: Option<nat>, sibling: Option<nat>,
                         alternate: Option<nat>, tag: Tag, hooks: seq<Hook>)

  /** A function component: the initial values of the `useState` calls its body
      makes, in call order, and the single element it returns given its props
      and the states those calls returned. */
  datatype ComponentFn = ComponentFn(initials: seq<int>, body: (seq<Prop>, seq<int>) -> Element)

  /** Which variant runs, and the component functions, by identity. */
  datatype Env = Env(variant: Variant, components: nat -> ComponentFn)

  /** The globals `wipRoot`, `currentRoot`, `nextUnitOfWork`, `deletions`,
      `wipFiber` and `hookIndex`, the fiber arena, the output tree, and whether
      an uncaught fault has stopped the idle loop. */
  datatype World = World(fibers: seq<Fiber>, wipRoot: Option<nat>, currentRoot: Option<nat>,
                         nextUnit: Option<nat>, deletions: seq<nat>, wipFiber: Option<nat>,
                         hookIndex: nat, dom: Dom, halted: bool)

  /** A pointer that is null or names an existing fiber. */
  predicate In(p: Option<nat>, n: nat) {
    p.None? || p.value < n
  }

  /** A pointer that is null or names a fiber between `lo` and `hi`, exclusive. */
  predicate Between(p: Option<nat>, lo: nat, hi: nat) {
    p.None? || (lo < p.value < hi)
  }

  /** Fiber `i` points back (parent, alternate) to older fibers and forward
      (child, sibling) to younger ones: fibers are only ever linked to fibers
      allocated after them, and to their parent and old counterpart before. */
  predicate LinkOk(fs: seq<Fiber>, i: nat)
    requires i < |fs|
  {
    In(fs[i].parent, i) && In(fs[i].alternate, i) && Between(fs[i].child, i, |fs|) && Between(fs[i].sibling, i, |fs|)
  }

  predicate WF(fs: seq<Fiber>) {
    forall i :: 0 <= i < |fs| ==> LinkOk(fs, i)
  }

  predicate Valid(w: World) {
    var n := |w.fibers|;
    && WF(w.fibers)
    && In(w.wipRoot, n) && In(w.currentRoot, n) && In(w.nextUnit, n) && In(w.wipFiber, n)
    && (forall i :: 0 <= i < |w.deletions| ==> w.deletions[i] < n)
  }

  /** Appending a fiber whose back pointers are older and whose forward
      pointers are null keeps the arena well formed. */
  lemma AppendKeepsWF(fs: seq<Fiber>, f: Fiber)
    requires WF(fs)
    requires In(f.parent, |fs|) && In(f.alternate, |fs|) && f.child.None? && f.sibling.None?
    ensures WF(fs + [f])
  {
    var fs' := fs + [f];
    forall i | 0 <= i < |fs'| ensures LinkOk(fs', i) {
      if i < |fs| { assert LinkOk(fs, i); }
    }
  }

  /** Rewriting fiber `x` keeps the arena well formed when the new record's
      pointers obey the same rule. */
  lemma SetKeepsWF(fs: seq<Fiber>, x: nat, f: Fiber)
    requires WF(fs) && x < |fs|
    requires In(f.parent, x) && In(f.alternate, x) && Between(f.child, x, |fs|) && Between(f.sibling, x, |fs|)
    ensures WF(fs[x := f])
  {
    var fs' := fs[x := f];
    forall i | 0 <= i < |fs'| ensures LinkOk(fs', i) {
      if i != x { assert LinkOk(fs, i); }
    }
  }

  /** The sibling chain starting at `start`, as the list of its fibers. */
  function Chain(fs: seq<Fiber>, start: Option<nat>): (r: seq<nat>)
    requires WF(fs) && In(start, |fs|)
    ensures forall k :: 0 <= k < |r| ==> r[k] < |fs|
    ensures |r| > 0 ==> start == Some(r[0])
    ensures forall k, l :: 0 <= k < l < |r| ==> r[k] < r[l]
    decreases if start.Some? then |fs| - start.value else 0
  {
    if start.None? then []
    else
      assert LinkOk(fs, start.value);
      [start.value] + Chain(fs, fs[start.value].sibling)
  }

  /** Climbs from `x` to the first fiber with a sibling and returns that
      sibling; null once the climb passes the root. */
  function Ascend(fs: seq<Fiber>, x: nat): (r: Option<nat>)
    requires WF(fs) && x < |fs|
    ensures In(r, |fs|)
    decreases x
  {
    assert LinkOk(fs, x);
    if fs[x].sibling.Some? then fs[x].sibling
    else if fs[x].parent.Some? then Ascend(fs, fs[x].parent.value)
    else None
  }

  /** The unit of work after `f`: its child, else the sibling of `f` or of its
      nearest ancestor that has one. */
  function NextUnit(fs: seq<Fiber>, f: nat): (r: Option<nat>)
    requires WF(fs) && f < |fs|
    ensures In(r, |fs|)
  {
    assert LinkOk(fs, f);
    if fs[f].child.Some? then fs[f].child else Ascend(fs, f)
  }

  /** The fibers met following `parent` links from `p`: `p`, its parent, and
      so on up to a fiber with no parent. */
  function Up(fs: seq<Fiber>, p: Option<nat>): (r: seq<nat>)
    requires WF(fs) && In(p, |fs|)
    ensures forall k :: 0 <= k < |r| ==> r[k] < |fs|
    ensures |r| > 0 <==> p.Some?
    ensures |r| > 0 ==> r[0] == p.value && fs[r[|r| - 1]].parent.None?
    ensures forall k :: 0 <= k < |r| - 1 ==> fs[r[k]].parent == Some(r[k + 1])
    decreases if p.Some? then p.value + 1 else 0
  {
    if p.None? then []
    else
      assert LinkOk(fs, p.value);
      [p.value] + Up(fs, fs[p.value].parent)
  }

  /** The fibers met following `child` links from `f`. */
  function Down(fs: seq<Fiber>, f: Option<nat>): (r: seq<nat>)
    requires WF(fs) && In(f, |fs|)
    ensures forall k :: 0 <= k < |r| ==> r[k] < |fs|
    ensures |r| > 0 <==> f.Some?
    ensures |r| > 0 ==> r[0] == f.value && fs[r[|r| - 1]].child.None?
    ensures forall k :: 0 <= k < |r| - 1 ==> fs[r[k]].child == Some(r[k + 1])
    decreases if f.Some? then |fs| - f.value else 0
  {
    if f.None? then []
    else
      assert LinkOk(fs, f.value);
      [f.value] + Down(fs, fs[f.value].child)
  }

  /** None of the first `n` fibers of `a` has a sibling. */
  predicate NoSibling(fs: seq<Fiber>, a: seq<nat>, n: nat)
    requires n <= |a| && forall k :: 0 <= k < |a| ==> a[k] < |fs|
  {
    forall l :: 0 <= l < n ==> fs[a[l]].sibling.None?
  }

  /** The climb finds the sibling of the first fiber that has one, going up
      from `x` itself; it gives null exactly when no fiber on the way up
      (the root included) has a sibling. */
  lemma {:induction false} AscendFirstSibling(fs: seq<Fiber>, x: nat)
    requires WF(fs) && x < |fs|
    ensures var a := Up(fs, Some(x));
      && (Ascend(fs, x).None? <==> NoSibling(fs, a, |a|))
      && (Ascend(fs, x).Some? ==> exists k :: 0 <= k < |a| && Ascend(fs, x) == fs[a[k]].sibling && NoSibling(fs, a, k))
    decreases x
  {
    assert LinkOk(fs, x);
    var a := Up(fs, Some(x));
    if fs[x].sibling.Some? {
      assert NoSibling(fs, a, 0) && !NoSibling(fs, a, |a|);
    } else if fs[x].parent.None? {
      assert |a| == 1;
    } else {
      var p := fs[x].parent.value;
      AscendFirstSibling(fs, p);
      var b := Up(fs, Some(p));
      assert a == [x] + b;
      assert Ascend(fs, x) == Ascend(fs, p);
      // a fiber without a sibling followed by `b`
      forall n | 0 <= n <= |b| ensures NoSibling(fs, a, n + 1) == NoSibling(fs, b, n) {
        assert forall l :: 0 <= l < n ==> a[l + 1] == b[l];
      }
      if Ascend(fs, x).Some? {
        var k :| 0 <= k < |b| && Ascend(fs, p) == fs[b[k]].sibling && NoSibling(fs, b, k);
        assert a[k + 1] == b[k];
      }
    }
  }

  /** `performUnitOfWork`'s choice of the next unit: the child if there is
      one; otherwise the sibling of the nearest fiber, from the unit itself
      upwards, that has one; null once the climb passes the root. */
  lemma NextUnitOrder(fs: seq<Fiber>, f: nat)
    requires WF(fs) && f < |fs|
    ensures fs[f].child.Some? ==> NextUnit(fs, f) == fs[f].child
    ensures fs[f].child.None? ==>
      var a := Up(fs, Some(f));
      && (NextUnit(fs, f).None? <==> NoSibling(fs, a, |a|))
      && (NextUnit(fs, f).Some? ==> exists k :: 0 <= k < |a| && NextUnit(fs, f) == fs[a[k]].sibling && NoSibling(fs, a, k))
  {
    AscendFirstSibling(fs, f);
  }
}


/** What one unit of work does to a function component: its hooks are read by
    position from the alternate, and exactly one child, the element its body
    returns, is reconciled below it. */
module WorkFacts {
  import opened Base
  import opened Elements
  import opened Fibers
  import opened Reconcile
  import opened ReconcileFacts
  import opened Hooks
  import opened Work
  import opened HostDom

  /** Two arenas with the same fibers up to their hooks and props. */
  predicate SameLinks(a: seq<Fiber>, b: seq<Fiber>) {
    |a| == |b| && forall i :: 0 <= i < |a| ==>
      a[i].child == b[i].child && a[i].sibling == b[i].sibling && a[i].alternate == b[i].alternate && a[i].kind == b[i].kind
  }

  lemma {:induction false} ChainSame(a: seq<Fiber>, b: seq<Fiber>, start: Option<nat>)
    requires WF(a) && WF(b) && SameLinks(a, b) && In(start, |a|)
    ensures Chain(a, start) == Chain(b, start)
    decreases if start.Some? then |a| - start.value else 0
  {
    if start.Some? {
      assert LinkOk(a, start.value);
      ChainSame(a, b, a[start.value].sibling);
    }
  }

  /** The old children of `x` do not depend on hooks or props. */
  lemma OldsSame(w: World, v: World, x: nat, els: seq<Element>)
    requires Valid(w) && Valid(v) && x < |w.fibers| && SameLinks(w.fibers, v.fibers)
    ensures Olds(Job(w, x, [])) == Olds(Job(v, x, els))
  {
    assert LinkOk(w.fibers, x);
    assert OldStart(w.fibers, x) == OldStart(v.fibers, x);
    ChainSame(w.fibers, v.fibers, OldStart(w.fibers, x));
  }

  /** The states the `useState` calls of a component body return when it is
      rendered as fiber `x`: call `i` reads hook `i` of the alternate. */
  function StatesRead(fs: seq<Fiber>, x: nat, initials: seq<int>): (r: seq<int>)
    requires WF(fs) && x < |fs|
    ensures |r| == |initials|
  {
    seq(|initials|, i requires 0 <= i < |initials| => ReadState(fs, x, i, initials[i]))
  }

  /** The world in which a component's body runs: `wipFiber` is the fiber,
      `hookIndex` is zero and the fiber's own hooks are cleared. */
  function Entered(w: World, x: nat): (r: World)
    requires Valid(w) && x < |w.fibers|
    ensures Valid(r) && r.wipFiber == Some(x) && r.hookIndex == 0 && |r.fibers| == |w.fibers|
    ensures r.fibers[x].hooks == [] && forall i :: 0 <= i < |w.fibers| && i != x ==> r.fibers[i] == w.fibers[i]
  {
    assert LinkOk(w.fibers, x);
    SetKeepsWF(w.fibers, x, w.fibers[x].(hooks := []));
    w.(wipFiber := Some(x), hookIndex := 0, fibers := w.fibers[x := w.fibers[x].(hooks := [])])
  }

  /** Each `useState` call of the body returns the state read by position
      from the alternate. */
  lemma ComponentStates(w: World, x: nat, initials: seq<int>)
    requires Valid(w) && x < |w.fibers|
    ensures RunHooks(Entered(w, x), initials).1 == StatesRead(w.fibers, x, initials)
  {
    var w1 := Entered(w, x);
    var states := RunHooks(w1, initials).1;
    forall i | 0 <= i < |initials| ensures states[i] == ReadState(w.fibers, x, i, initials[i]) {
      RunHooksReads(w1, initials, i);
      assert LinkOk(w.fibers, x);
      assert OldHook(w1.fibers, x, i) == OldHook(w.fibers, x, i);
    }
  }

  /** After the body, the fiber holds one fresh hook per call and nothing
      else in the arena has moved. */
  lemma ComponentHooks(w: World, x: nat, initials: seq<int>)
    requires Valid(w) && x < |w.fibers|
    ensures var h := RunHooks(Entered(w, x), initials);
      h.0.fibers == w.fibers[x := w.fibers[x].(hooks := Fresh(h.1))]
  {
    var w1 := Entered(w, x);
    var e := w1.fibers;
    var hs := Fresh(RunHooks(w1, initials).1);
    RunHooksAppends(w1, initials);
    assert e[x].hooks + hs == hs;
    var f := w.fibers[x].(hooks := hs);
    assert e[x].(hooks := hs) == f;
    var a, b := e[x := f], w.fibers[x := f];
    forall i | 0 <= i < |a| ensures a[i] == b[i] {
      if i != x { assert e[i] == w.fibers[i]; }
    }
    assert a == b;
  }

  /** Reconciling a single element below `wip`: it throws exactly when there
      were three or more old children; otherwise `wip` gets exactly one new
      child, of the element's type and props. */
  lemma SingleChild(j: Job)
    requires Ready(j) && |j.els| == 1
    ensures var r := ReconcileChildren(j.w, j.wip, j.els);
      var n := |j.w.fibers|;
      && r.wipFiber == j.w.wipFiber && r.hookIndex == j.w.hookIndex
      && (r.halted <==> |Olds(j)| >= 3)
      && (!r.halted ==>
            && |r.fibers| == n + 1
            && r.fibers[j.wip].child == Some(n) && r.fibers[j.wip].hooks == j.w.fibers[j.wip].hooks
            && r.fibers[n].sibling.None? && r.fibers[n].parent == Some(j.wip)
            && r.fibers[n].kind == j.els[0].kind && r.fibers[n].props == j.els[0].props)
  {
    FaultIff(j);
    ReconcileIsFinal(j);
    var r := ReconcileChildren(j.w, j.wip, j.els);
    if !r.halted {
      FinalOld(j, j.wip);
      ChildrenFollowElements(j);
      PairsByPosition(j, 0);
      assert Chain(r.fibers, r.fibers[j.wip].child) == Range(|j.w.fibers|, |j.w.fibers| + 1);
    }
  }

  /** A function component's visit. `wipFiber` is the fiber and `hookIndex`
      counts its `useState` calls; its hooks are exactly one fresh hook per
      call, holding the state read by position from the alternate with the
      queued actions replayed. The visit throws exactly when the alternate had
      three or more children; otherwise the fiber gets exactly one new child,
      the element the body returned for its props and those states. */
  lemma ComponentVisit(env: Env, w: World, x: nat)
    requires Valid(w) && x < |w.fibers| && !w.halted && w.fibers[x].kind.Component?
    requires x !in Olds(Job(w, x, []))
    ensures var comp := env.components(w.fibers[x].kind.fn);
      var r := UpdateFunctionComponent(env, w, x);
      var states := StatesRead(w.fibers, x, comp.initials);
      && r.wipFiber == Some(x) && r.hookIndex == |comp.initials|
      && (r.halted <==> |Olds(Job(w, x, []))| >= 3)
      && (!r.halted ==>
            && |r.fibers| == |w.fibers| + 1
            && r.fibers[x].hooks == Fresh(states)
            && r.fibers[x].child == Some(|w.fibers|)
            && r.fibers[|w.fibers|].sibling.None? && r.fibers[|w.fibers|].parent == Some(x)
            && r.fibers[|w.fibers|].kind == comp.body(w.fibers[x].props, states).kind
            && r.fibers[|w.fibers|].props == comp.body(w.fibers[x].props, states).props)
  {
    var comp := env.components(w.fibers[x].kind.fn);
    ComponentStates(w, x, comp.initials);
    ComponentHooks(w, x, comp.initials);
    var w1 := Entered(w, x);
    var w2 := RunHooks(w1, comp.initials).0;
    var states := RunHooks(w1, comp.initials).1;
    var el := comp.body(w.fibers[x].props, states);
    var j := Job(w2, x, [el]);
    OldsSame(w, w2, x, [el]);
    SingleChild(j);
    assert ReconcileChildren(w2, x, [el]) == UpdateFunctionComponent(env, w, x);
  }

  /** A text child of the index.js demo trees. */
  function Text(s: string): Element {
    CreateTextElement(Str(s))
  }

  /** `{type, props: {title: "foo", children: [text]}}`. */
  function Titled(tag: string, text: string): Element {
    Element(Host(tag), [Prop("title", Str("foo")), Prop("children", Nodes([Text(text)]))])
  }

  /** The first tree the index.js demo renders: a div over two h1. */
  function FirstPage(): Element {
    Element(Host("div"), [Prop("children", Nodes([Titled("h1", "hello world"), Titled("h1", "hello summer")]))])
  }

  /** The second tree: the second h1 becomes a p. */
  function SecondPage(): Element {
    Element(Host("div"), [Prop("children", Nodes([Titled("h1", "hello world"), Titled("p", "hello new day")]))])
  }

  /** A hand-built arena standing for the first tree once committed (root 0,
      div 1, the two h1 at 2 and 3, their text nodes at 4 and 5) and the
      second `render` after its first unit: root 6 and the reused div 7,
      about to be reconciled against the second tree's children. Fibers are
      numbered in the order `reconcileChildren` allocates them, and nodes in
      the order the pre-order walk creates them: the container is node 0,
      the div 1, the first h1 2 and its text 3, the second h1 4 and its text
      5. The DOM is left empty, since reconciling makes no host call. */
  function Rerendering(): World {
    var fs := [
      Fiber(NoType, [Prop("children", Nodes([FirstPage()]))], Some(0), None, Some(1), None, None, NoTag, []),
      Fiber(Host("div"), FirstPage().props, Some(1), Some(0), Some(2), None, None, Placement, []),
      Fiber(Host("h1"), Titled("h1", "hello world").props, Some(2), Some(1), Some(4), Some(3), None, Placement, []),
      Fiber(Host("h1"), Titled("h1", "hello summer").props, Some(4), Some(1), Some(5), None, None, Placement, []),
      Fiber(Host(TEXT_ELEMENT), Text("hello world").props, Some(3), Some(2), None, None, None, Placement, []),
      Fiber(Host(TEXT_ELEMENT), Text("hello summer").props, Some(5), Some(3), None, None, None, Placement, []),
      Fiber(NoType, [Prop("children", Nodes([SecondPage()]))], Some(0), None, Some(7), None, Some(0), NoTag, []),
      Fiber(Host("div"), SecondPage().props, Some(1), Some(6), None, None, Some(1), Update, [])];
    World(fs, Some(6), Some(0), Some(7), [], None, 0, Dom([], []), false)
  }

  /** The second tree's children, reconciled below the reused div. */
  function RerenderJob(): Job {
    Job(Rerendering(), 7, [Titled("h1", "hello world"), Titled("p", "hello new day")])
  }

  /** Every link of the hand-built arena points the way `WF` asks. */
  lemma RerenderingWellFormed()
    ensures WF(Rerendering().fibers)
  {
    var fs := Rerendering().fibers;
    forall i | 0 <= i < |fs| ensures LinkOk(fs, i) { }
  }

  /** The old children of the div are the two h1, in order; the first keeps
      its type and the second does not. */
  lemma RerenderReady()
    ensures Ready(RerenderJob()) && Olds(RerenderJob()) == [2, 3] && !Faults(RerenderJob())
    ensures Matched(RerenderJob(), 0) && !Matched(RerenderJob(), 1) && Unmatched(RerenderJob(), 2) == [3]
  {
    var w := Rerendering();
    RerenderingWellFormed();
    var j := RerenderJob();
    assert OldStart(w.fibers, 7) == Some(2);
    assert Chain(w.fibers, Some(3)) == [3];
    assert Olds(j) == [2, 3];
  }

  /** What the demo's re-render depends on: eight fibers, the reused div at
      7 over the two old h1 at 2 and 3, of which only the first matches the
      new element at its position, and the first h1 owns node 2. */
  ghost predicate RerenderCase(j: Job) {
    && Ready(j) && !Faults(j) && |j.w.fibers| == 8 && |j.els| == 2 && j.wip == 7
    && Olds(j) == [2, 3] && Matched(j, 0) && !Matched(j, 1) && Unmatched(j, 2) == [3]
    && j.w.fibers[2].dom == Some(2) && j.w.deletions == []
  }

  /** Re-rendering the demo: the first h1 is kept as an UPDATE of the old one
      (same node), the p is a PLACEMENT with no node yet, the second old h1 is
      the only fiber queued for deletion, and the div's new children are the
      h1 then the p. */
  lemma RerenderDemo(j: Job)
    requires j == RerenderJob()
    ensures Ready(j)
    ensures var r := ReconcileChildren(j.w, j.wip, j.els);
      && !r.halted && |r.fibers| == 10
      && r.fibers[8].tag == Update && r.fibers[8].alternate == Some(2) && r.fibers[8].dom == Some(2)
      && r.fibers[9].tag == Placement && r.fibers[9].alternate.None? && r.fibers[9].dom.None?
      && r.fibers[3].tag == Deletion && r.deletions == [3]
      && r.fibers[7].child == Some(8) && r.fibers[8].sibling == Some(9) && r.fibers[9].sibling.None?
  {
    RerenderReady();
    assert RerenderCase(j);
    RerenderSize(j);
    RerenderHeading(j);
    RerenderParagraph(j);
    RerenderOld(j);
  }

  /** The re-render does not fault and makes one fiber per element. */
  lemma RerenderSize(j: Job)
    requires RerenderCase(j)
    ensures var r := ReconcileChildren(j.w, j.wip, j.els); !r.halted && |r.fibers| == 10
  {
    FaultIff(j);
    FinalNew(j, 0);
  }

  /** The new heading reuses the old heading's node and links to the
      paragraph. */
  lemma RerenderHeading(j: Job)
    requires RerenderCase(j)
    ensures var r := ReconcileChildren(j.w, j.wip, j.els);
      && |r.fibers| == 10 && r.fibers[8].tag == Update && r.fibers[8].alternate == Some(2)
      && r.fibers[8].dom == Some(2) && r.fibers[8].sibling == Some(9)
  {
    PairsByPosition(j, 0);
    FinalNew(j, 0);
  }

  /** The paragraph has no old counterpart: it is placed, and is the last
      child. */
  lemma RerenderParagraph(j: Job)
    requires RerenderCase(j)
    ensures var r := ReconcileChildren(j.w, j.wip, j.els);
      && |r.fibers| == 10 && r.fibers[9].tag == Placement && r.fibers[9].alternate.None?
      && r.fibers[9].dom.None? && r.fibers[9].sibling.None?
  {
    PairsByPosition(j, 1);
    FinalNew(j, 1);
  }

  /** The old fibers after the re-render: the old title is queued for
      removal and the reused div's first child is the new heading. */
  lemma RerenderOld(j: Job)
    requires RerenderCase(j)
    ensures var r := ReconcileChildren(j.w, j.wip, j.els);
      && r.fibers[3].tag == Deletion && r.deletions == [3] && r.fibers[7].child == Some(8)
  {
    FinalDeletions(j);
    FinalOld(j, 3);
    FinalOld(j, 7);
  }

  /** Appending a fiber changes no existing sibling chain. */
  lemma {:induction false} ChainAppend(fs: seq<Fiber>, f: Fiber, start: Option<nat>)
    requires WF(fs) && WF(fs + [f]) && In(start, |fs|)
    ensures Chain(fs + [f], start) == Chain(fs, start)
    decreases if start.Some? then |fs| - start.value else 0
  {
    if start.Some? {
      assert LinkOk(fs, start.value);
      ChainAppend(fs, f, fs[start.value].sibling);
    }
  }

  /** The children of the committed root, in order; none before the first
      commit. */
  function CommittedChildren(w: World): (r: seq<nat>)
    requires Valid(w)
    ensures forall k :: 0 <= k < |r| ==> r[k] < |w.fibers|
  {
    if w.currentRoot.Some? then
      assert LinkOk(w.fibers, w.currentRoot.value);
      Chain(w.fibers, w.fibers[w.currentRoot.value].child)
    else []
  }

  /** `render` adds one root fiber and points the walk at it: the root owns
      the container, holds the element as its only child element, has the
      committed root as alternate and no links yet; `deletions` is emptied
      and nothing else changes. */
  lemma RenderRoot(w: World, element: Element, container: NodeId)
    requires Valid(w)
    ensures var r := Render(w, element, container); var n := |w.fibers|;
      && |r.fibers| == n + 1 && r.fibers[..n] == w.fibers
      && r.wipRoot == Some(n) && r.nextUnit == Some(n) && r.deletions == []
      && r.currentRoot == w.currentRoot && r.dom == w.dom && r.halted == w.halted
      && r.fibers[n].dom == Some(container) && r.fibers[n].alternate == w.currentRoot
      && Children(r.fibers[n].props) == Some([element])
      && r.fibers[n].parent.None? && r.fibers[n].child.None? && r.fibers[n].sibling.None?
  {
    var r := Render(w, element, container);
    assert r.fibers[..|w.fibers|] == w.fibers;
  }

  /** The first unit after `render` is the root. It makes no host call,
      since the root already owns the container, and reconciles the element
      against the committed root's children: it throws exactly when those
      were three or more, and otherwise gives the root exactly one child, of
      the element's type and props, which is the next unit. */
  lemma RenderFirstUnit(env: Env, w: World, element: Element, container: NodeId)
    requires Valid(w) && !w.halted
    ensures var r := Render(w, element, container); var n := |w.fibers|;
      var s := Advance(env, r);
      && s.dom == w.dom && s.wipRoot == Some(n)
      && (s.halted <==> |CommittedChildren(w)| >= 3)
      && (!s.halted ==>
            && s.nextUnit == Some(n + 1) && |s.fibers| == n + 2
            && s.fibers[n].child == Some(n + 1) && s.fibers[n + 1].parent == Some(n)
            && s.fibers[n + 1].kind == element.kind && s.fibers[n + 1].props == element.props)
  {
    var r := Render(w, element, container);
    var n := |w.fibers|;
    RenderRoot(w, element, container);
    var root := r.fibers[n];
    assert r.fibers == w.fibers + [root];
    var j := Job(r, n, [element]);
    if w.currentRoot.Some? {
      var cr := w.currentRoot.value;
      assert LinkOk(w.fibers, cr);
      assert OldStart(r.fibers, n) == w.fibers[cr].child;
      ChainAppend(w.fibers, root, w.fibers[cr].child);
    }
    assert Olds(j) == CommittedChildren(w);
    assert Ready(j);
    SingleChild(j);
    var u := ReconcileChildren(r, n, [element]);
    assert UpdateHostComponent(env.variant, r, n) == u;
    assert PerformUnitOfWork(env, r, n) == if u.halted then u else u.(nextUnit := NextUnit(u.fibers, n));
  }
}

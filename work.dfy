/** The render phase and the idle loop: `createDom`, `updateHostComponent`,
    `updateFunctionComponent`, `performUnitOfWork`, `workLoop` and `render`. */
module Work {
  import opened Base
  import opened Elements
  import opened HostDom
  import opened PropDiff
  import opened Fibers
  import opened Reconcile
  import opened Hooks
  import opened Commit

  /** The tag `document.createElement` receives; an undefined type is
      converted to the string "undefined". */
  function TagName(k: Kind): string
    requires !k.Component?
  {
    match k
    case Host(t) => t
    case NoType => "undefined"
  }

  /** The calls `createDom` makes for a fiber whose node gets id `id`. */
  function CreationCalls(v: Variant, id: NodeId, f: Fiber): seq<Call>
    requires !f.kind.Component?
  {
    [if f.kind == Host(TEXT_ELEMENT) then CreateTextNode(id) else CreateElement(id, TagName(f.kind))]
    + InitProps(v, id, f.props)
  }

  /** `fiber.dom = createDom(fiber)`. A function type only reaches here in
      index.ts and index.js, which have no function components: the host is
      asked for an element named by the function's source text, which is not
      a valid tag name, and throws. */
  function CreateDom(v: Variant, w: World, x: nat): (r: World)
    requires Valid(w) && x < |w.fibers| && !w.halted
    ensures Valid(r) && |r.fibers| == |w.fibers| && r.nextUnit == w.nextUnit && r.wipRoot == w.wipRoot && r.currentRoot == w.currentRoot
  {
    var f := w.fibers[x];
    if f.kind.Component? then w.(halted := true)
    else
      assert LinkOk(w.fibers, x);
      SetKeepsWF(w.fibers, x, f.(dom := Some(|w.dom.nodes|)));
      var out := ApplyAll(w.dom, CreationCalls(v, |w.dom.nodes|, f));
      // `fiber.dom` is assigned only once `createDom` has returned
      if out.ok then w.(fibers := w.fibers[x := f.(dom := Some(|w.dom.nodes|))], dom := out.dom)
      else w.(dom := out.dom, halted := true)
  }

  /** `fiber.props.children`: the child elements; a missing list throws when
      its `length` is read. */
  function Children(props: seq<Prop>): Option<seq<Element>> {
    match Get(props, "children")
    case Some(Nodes(els)) => Some(els)
    case _ => None
  }

  /** `updateHostComponent(fiber)` (in index.ts and index.js, the first half of
      `performUnitOfWork`): creates the DOM node if the fiber has none, then
      reconciles the children elements. */
  function UpdateHostComponent(v: Variant, w: World, x: nat): (r: World)
    requires Valid(w) && x < |w.fibers| && !w.halted
    ensures Valid(r) && |r.fibers| >= |w.fibers| && r.nextUnit == w.nextUnit && r.wipRoot == w.wipRoot && r.currentRoot == w.currentRoot
  {
    var w1 := if w.fibers[x].dom.None? then CreateDom(v, w, x) else w;
    if w1.halted then w1
    else match Children(w1.fibers[x].props)
      case Some(els) => ReconcileChildren(w1, x, els)
      case None => w1.(halted := true)
  }

  /** `updateFunctionComponent(fiber)`: makes the fiber the one hooks attach
      to, runs the component body (its `useState` calls, in order, then the
      element it returns) and reconciles that single element. */
  function UpdateFunctionComponent(env: Env, w: World, x: nat): (r: World)
    requires Valid(w) && x < |w.fibers| && !w.halted && w.fibers[x].kind.Component?
    ensures Valid(r) && |r.fibers| >= |w.fibers| && r.nextUnit == w.nextUnit && r.wipRoot == w.wipRoot && r.currentRoot == w.currentRoot
  {
    var comp := env.components(w.fibers[x].kind.fn);
    assert LinkOk(w.fibers, x);
    SetKeepsWF(w.fibers, x, w.fibers[x].(hooks := []));
    var w1 := w.(wipFiber := Some(x), hookIndex := 0, fibers := w.fibers[x := w.fibers[x].(hooks := [])]);
    var (w2, states) := RunHooks(w1, comp.initials);
    ReconcileChildren(w2, x, [comp.body(w.fibers[x].props, states)])
  }

  /** `performUnitOfWork(fiber)`: does the fiber's work (function components
      exist in js/index.jsx and ts/index.ts only) and moves `nextUnitOfWork`
      to the next fiber of the walk. */
  function PerformUnitOfWork(env: Env, w: World, x: nat): (r: World)
    requires Valid(w) && x < |w.fibers| && !w.halted
    ensures Valid(r) && |r.fibers| >= |w.fibers| && r.wipRoot == w.wipRoot && r.currentRoot == w.currentRoot
  {
    var w1 := if env.variant != HostOnly && w.fibers[x].kind.Component? then UpdateFunctionComponent(env, w, x)
              else UpdateHostComponent(env.variant, w, x);
    if w1.halted then w1 else w1.(nextUnit := NextUnit(w1.fibers, x))
  }

  /** One turn of the `while (nextUnitOfWork && !shouldYield)` loop: performs
      the next unit, if there is one and nothing has thrown. */
  function Advance(env: Env, w: World): World {
    if Valid(w) && !w.halted && w.nextUnit.Some? then PerformUnitOfWork(env, w, w.nextUnit.value) else w
  }

  function Stepper(env: Env): World -> World {
    w => Advance(env, w)
  }

  /** `k` turns of `step`. */
  function Iterate(step: World -> World, w: World, k: nat): World
    decreases k
  {
    if k == 0 then w else Iterate(step, step(w), k - 1)
  }

  /** Turns made one after the other add up. */
  lemma {:induction false} IterateAdd(step: World -> World, w: World, a: nat, b: nat)
    ensures Iterate(step, Iterate(step, w, a), b) == Iterate(step, w, a + b)
    decreases a
  {
    if a > 0 {
      IterateAdd(step, step(w), a - 1, b);
    }
  }

  /** A turn keeps the invariant and never changes the roots. */
  lemma {:induction false} RunKeeps(env: Env, w: World, k: nat)
    requires Valid(w)
    ensures var r := Iterate(Stepper(env), w, k);
      Valid(r) && r.wipRoot == w.wipRoot && r.currentRoot == w.currentRoot && (w.halted ==> r == w)
    decreases k
  {
    if k > 0 {
      assert Stepper(env)(w) == Advance(env, w);
      RunKeeps(env, Advance(env, w), k - 1);
    }
  }

  /** At most `k` turns of the loop: once no unit is left, or a unit has
      thrown, the remaining turns do nothing. */
  function Run(env: Env, w: World, k: nat): (r: World)
    requires Valid(w)
    ensures Valid(r) && r.wipRoot == w.wipRoot && r.currentRoot == w.currentRoot && (w.halted ==> r == w)
  {
    RunKeeps(env, w, k);
    Iterate(Stepper(env), w, k)
  }

  /** A turn with a unit to do performs it; the rest of the turns follow. */
  lemma RunStep(env: Env, w: World, k: nat)
    requires Valid(w) && !w.halted && w.nextUnit.Some? && k > 0
    ensures Run(env, w, k) == Run(env, PerformUnitOfWork(env, w, w.nextUnit.value), k - 1)
  {
    assert Stepper(env)(w) == Advance(env, w);
  }

  /** `workLoop(deadline)` given the number of units the deadline leaves time
      for: the first unit always runs, the loop yields once time is up, and
      the tree is committed when the walk is over. A throw anywhere stops the
      loop for good, since `requestIdleCallback(workLoop)` is never reached. */
  function WorkLoop(env: Env, w: World, budget: nat): (r: World)
    requires Valid(w)
    ensures Valid(r)
  {
    if w.halted then w
    else
      var w1 := Run(env, w, if budget == 0 then 1 else budget);
      if !w1.halted && w1.nextUnit.None? && w1.wipRoot.Some? then CommitRoot(env.variant, w1) else w1
  }

  /** `render(element, container)`: a new root fiber that owns the container,
      has the element as its only child and the committed root as alternate;
      the walk starts there and `deletions` is emptied. */
  function Render(w: World, element: Element, container: NodeId): (r: World)
    requires Valid(w)
    ensures Valid(r)
  {
    var root := Fiber(NoType, [Prop("children", Nodes([element]))], Some(container), None, None, None, w.currentRoot, NoTag, []);
    AppendKeepsWF(w.fibers, root);
    w.(fibers := w.fibers + [root], wipRoot := Some(|w.fibers|), nextUnit := Some(|w.fibers|), deletions := [])
  }

  /** With no unit left, the loop does nothing. */
  lemma {:induction false} RunIdle(env: Env, w: World, k: nat)
    requires Valid(w) && w.nextUnit.None?
    ensures Run(env, w, k) == w
    decreases k
  {
    if k > 0 {
      assert Stepper(env)(w) == w;
      RunIdle(env, w, k - 1);
    }
  }

  /** Rendering is interruptible without changing its result: an idle period
      with time for `a` units followed by one with time for `b` units leaves
      the same world as a single period with time for `a + b` units. */
  lemma WorkLoopSplit(env: Env, w: World, a: nat, b: nat)
    requires Valid(w) && a >= 1 && b >= 1
    ensures WorkLoop(env, WorkLoop(env, w, a), b) == WorkLoop(env, w, a + b)
  {
    if !w.halted {
      var w1 := Run(env, w, a);
      IterateAdd(Stepper(env), w, a, b);
      assert Run(env, w1, b) == Run(env, w, a + b);
      if !w1.halted && w1.nextUnit.None? {
        RunIdle(env, w1, b);
        if w1.wipRoot.Some? {
          var c := CommitRoot(env.variant, w1);
          if !c.halted {
            RunIdle(env, c, b);
          }
        }
      }
    }
  }

  /** The tree is never committed half built: after an idle period that does
      not throw, either the walk is still under way and nothing is committed,
      or it is over and the work-in-progress root is now the current root. */
  lemma NoPartialCommit(env: Env, w: World, budget: nat)
    requires Valid(w) && !w.halted && w.wipRoot.Some?
    ensures var r := WorkLoop(env, w, budget);
      || r.halted
      || (r.nextUnit.Some? && r.wipRoot == w.wipRoot && r.currentRoot == w.currentRoot)
      || (r.nextUnit.None? && r.wipRoot.None? && r.currentRoot == w.wipRoot)
  {
  }

  /** The node a fresh fiber gets: a text node for TEXT_ELEMENT, otherwise an
      element named by its type, with the variant's property set-up applied. */
  function FreshNode(v: Variant, id: NodeId, f: Fiber): Node
    requires !f.kind.Component?
  {
    var text := f.kind == Host(TEXT_ELEMENT);
    ApplyAllToNode(Node(text, if text then "" else TagName(f.kind), map[], {}, []), InitProps(v, id, f.props))
  }

  /** `createDom` throws only for a function type. Otherwise it appends one new
      node, set up from the fiber's props, records it as the fiber's `dom`, and
      the host log grows by exactly the creation calls. */
  lemma CreateDomEffect(v: Variant, w: World, x: nat)
    requires Valid(w) && x < |w.fibers| && !w.halted
    ensures var r := CreateDom(v, w, x); var f := w.fibers[x];
      && (r.halted <==> f.kind.Component?)
      && (!r.halted ==>
            && r.fibers == w.fibers[x := f.(dom := Some(|w.dom.nodes|))]
            && r.dom.nodes == w.dom.nodes + [FreshNode(v, |w.dom.nodes|, f)]
            && r.dom.log == w.dom.log + CreationCalls(v, |w.dom.nodes|, f))
  {
    var f := w.fibers[x];
    if !f.kind.Component? {
      var id := |w.dom.nodes|;
      var calls := CreationCalls(v, id, f);
      var h1 := Apply(w.dom, calls[0]).value;
      var text := f.kind == Host(TEXT_ELEMENT);
      assert h1.nodes == w.dom.nodes + [Node(text, if text then "" else TagName(f.kind), map[], {}, [])];
      assert calls[1..] == InitProps(v, id, f.props);
      NodeCallsSucceed(h1, InitProps(v, id, f.props), id);
      ApplyAllAppend(w.dom, [calls[0]], calls[1..]);
      assert [calls[0]] + calls[1..] == calls;
    }
  }

  /** A fiber that already owns a node (an UPDATE fiber, or the root) is
      visited without any host call: only its children are reconciled. */
  lemma ReusedNodeNoHostCall(v: Variant, w: World, x: nat)
    requires Valid(w) && x < |w.fibers| && !w.halted && w.fibers[x].dom.Some?
    ensures UpdateHostComponent(v, w, x).dom == w.dom
  {
  }
}


/** The reconciler as the source runs it: one object holding the module-level
    globals, whose methods update them step by step. Each method is proved to
    leave exactly the state the corresponding function of the pure model
    describes, so every property proved about those functions holds of it. */
module Didact {
  import opened Base
  import opened Elements
  import opened HostDom
  import opened PropDiff
  import opened Fibers
  import Reconcile
  import Hooks
  import Commit
  import Work

  class Reconciler {
    /** The variant that runs and the component functions. */
    const env: Env
    /** Every fiber ever allocated; a fiber is its index. */
    var fibers: seq<Fiber>
    var wipRoot: Option<nat>
    var currentRoot: Option<nat>
    var nextUnit: Option<nat>
    var deletions: seq<nat>
    var wipFiber: Option<nat>
    var hookIndex: nat
    /** The host's node tree and call log. */
    var dom: Dom
    /** An exception escaped the idle callback, which is then never re-armed. */
    var halted: bool

    ghost function State(): World
      reads this
    {
      World(fibers, wipRoot, currentRoot, nextUnit, deletions, wipFiber, hookIndex, dom, halted)
    }

    /** The globals as the module initialises them, over a host page `page`. */
    constructor(env: Env, page: Dom)
      ensures this.env == env
      ensures State() == World([], None, None, None, [], None, 0, page, false)
    {
      this.env := env;
      fibers := [];
      wipRoot := None;
      currentRoot := None;
      nextUnit := None;
      deletions := [];
      wipFiber := None;
      hookIndex := 0;
      dom := page;
      halted := false;
    }

    /** Makes host calls one after the other; a call that throws ends the run. */
    method ApplyCalls(calls: seq<Call>)
      requires !halted
      modifies this
      ensures var out := ApplyAll(old(dom), calls);
        State() == old(State()).(dom := out.dom, halted := !out.ok)
    {
      var i := 0;
      while i < |calls|
        invariant i <= |calls| && !halted
        invariant ApplyAll(old(dom), calls) == ApplyAll(dom, calls[i..])
        invariant State() == old(State()).(dom := dom)
      {
        assert calls[i..][0] == calls[i] && calls[i..][1..] == calls[i + 1..];
        match Apply(dom, calls[i])
        case None =>
          halted := true;
          return;
        case Some(d) =>
          dom := d;
        i := i + 1;
      }
    }

    /** `render(element, container)`. */
    method Render(element: Element, container: NodeId)
      requires Valid(State())
      modifies this
      ensures State() == Work.Render(old(State()), element, container)
    {
      var root := Fiber(NoType, [Prop("children", Nodes([element]))], Some(container), None, None, None, currentRoot, NoTag, []);
      fibers := fibers + [root];
      wipRoot := Some(|fibers| - 1);
      nextUnit := wipRoot;
      deletions := [];
    }

    /** `createDom(fiber)` and the assignment of its result to `fiber.dom`. */
    method CreateDom(x: nat)
      requires Valid(State()) && x < |fibers| && !halted
      modifies this
      ensures State() == Work.CreateDom(env.variant, old(State()), x)
    {
      var f := fibers[x];
      if f.kind.Component? {
        halted := true;
        return;
      }
      var id := |dom.nodes|;
      ApplyCalls(Work.CreationCalls(env.variant, id, f));
      if !halted {
        fibers := fibers[x := f.(dom := Some(id))];
      }
    }

    /** `reconcileChildren(wipFiber, elements)`: the while loop over the
        elements and the old fibers, side by side. */
    method ReconcileChildren(wip: nat, els: seq<Element>)
      requires Valid(State()) && wip < |fibers| && !halted
      modifies this
      ensures State() == Reconcile.ReconcileChildren(old(State()), wip, els)
    {
      ghost var base := |fibers|;
      var index := 0;
      var oldFiber := Reconcile.OldStart(fibers, wip);
      var prev: Option<nat> := None;
      while index < |els| || oldFiber.Some?
        invariant Reconcile.Inv(wip, base, Reconcile.Cursor(State(), index, oldFiber, prev)) && !halted
        invariant Reconcile.Loop(wip, els, base, Reconcile.Cursor(State(), index, oldFiber, prev))
               == Reconcile.ReconcileChildren(old(State()), wip, els)
        decreases Reconcile.Measure(|els|, base, Reconcile.Cursor(State(), index, oldFiber, prev))
      {
        ghost var c := Reconcile.Cursor(State(), index, oldFiber, prev);
        ghost var r := Reconcile.Step(wip, els, base, c);
        Reconcile.LoopStep(wip, els, base, c);
        var newFiber;
        oldFiber, newFiber := ReconcileOne(wip, els, base, index, oldFiber, prev);
        if halted {
          return;
        }
        prev := newFiber;
        index := index + 1;
        assert Reconcile.Cursor(State(), index, oldFiber, prev) == r;
      }
    }

    /** One iteration of the `reconcileChildren` loop: makes the element's
        fiber, retires the old fiber if it is not reused, and links the new
        fiber into the chain. Returns the next old fiber and the new fiber. */
    method ReconcileOne(wip: nat, els: seq<Element>, ghost base: nat, index: nat, oldFiber: Option<nat>, prev: Option<nat>)
      returns (nextOld: Option<nat>, newFiber: Option<nat>)
      requires Reconcile.Inv(wip, base, Reconcile.Cursor(State(), index, oldFiber, prev))
      requires index < |els| || oldFiber.Some?
      modifies this
      ensures var r := Reconcile.Step(wip, els, base, Reconcile.Cursor(old(State()), index, oldFiber, prev));
        State() == r.w && nextOld == r.oldFiber && newFiber == r.prev
    {
      ghost var c := Reconcile.Cursor(State(), index, oldFiber, prev);
      var sameType := oldFiber.Some? && index < |els| && els[index].kind == fibers[oldFiber.value].kind;
      assert sameType == Reconcile.SameType(els, c);
      newFiber := None;
      if sameType {
        fibers := fibers + [Reconcile.Updated(fibers[oldFiber.value], oldFiber.value, els[index], wip)];
        newFiber := Some(|fibers| - 1);
      }
      if index < |els| && !sameType {
        fibers := fibers + [Reconcile.Placed(els[index], wip)];
        newFiber := Some(|fibers| - 1);
      }
      assert fibers == Reconcile.Grown(wip, els, c) && newFiber == Reconcile.NewFiber(els, c);
      if oldFiber.Some? && !sameType {
        fibers := fibers[oldFiber.value := fibers[oldFiber.value].(tag := Deletion)];
        deletions := deletions + [oldFiber.value];
      }
      assert fibers == Reconcile.Retired(wip, els, c);
      nextOld := None;
      if oldFiber.Some? {
        nextOld := fibers[oldFiber.value].sibling;
      }
      if index == 0 {
        fibers := fibers[wip := fibers[wip].(child := newFiber)];
      } else if prev.None? {
        // `prevSibling.sibling = newFiber` with a null `prevSibling`
        halted := true;
      } else {
        fibers := fibers[prev.value := fibers[prev.value].(sibling := newFiber)];
      }
    }

    /** `updateHostComponent(fiber)`. */
    method UpdateHostComponent(x: nat)
      requires Valid(State()) && x < |fibers| && !halted
      modifies this
      ensures State() == Work.UpdateHostComponent(env.variant, old(State()), x)
    {
      if fibers[x].dom.None? {
        CreateDom(x);
        if halted {
          return;
        }
      }
      match Work.Children(fibers[x].props)
      case Some(els) => ReconcileChildren(x, els);
      case None => halted := true;
    }

    /** `useState(initial)`: replays the old hook's queue into the new state. */
    method UseState(initial: int) returns (state: int)
      requires Valid(State()) && wipFiber.Some?
      modifies this
      ensures (State(), state) == Hooks.UseState(old(State()), initial)
    {
      var f := wipFiber.value;
      var oldHook := Hooks.OldHook(fibers, f, hookIndex);
      state := initial;
      if oldHook.Some? {
        var queue := oldHook.value.queue;
        state := oldHook.value.state;
        var i := 0;
        while i < |queue|
          invariant i <= |queue|
          invariant Hooks.Replay(state, queue[i..]) == Hooks.Replay(oldHook.value.state, queue)
        {
          assert queue[i..][0] == queue[i] && queue[i..][1..] == queue[i + 1..];
          state := queue[i](state);
          i := i + 1;
        }
      }
      fibers := fibers[f := fibers[f].(hooks := fibers[f].hooks + [Hook(state, [])])];
      hookIndex := hookIndex + 1;
    }

    /** The component body's `useState` calls, in order, one per initial
        value; returns the states they return. */
    method CallHooks(initials: seq<int>) returns (states: seq<int>)
      requires Valid(State()) && wipFiber.Some?
      modifies this
      ensures (State(), states) == Hooks.RunHooks(old(State()), initials)
    {
      ghost var hooked := Hooks.RunHooks(State(), initials);
      states := [];
      var i := 0;
      while i < |initials|
        invariant i <= |initials| && Valid(State()) && wipFiber.Some?
        invariant Hooks.RunHooks(State(), initials[i..]).0 == hooked.0
        invariant states + Hooks.RunHooks(State(), initials[i..]).1 == hooked.1
      {
        assert initials[i..][0] == initials[i] && initials[i..][1..] == initials[i + 1..];
        var s := UseState(initials[i]);
        states := states + [s];
        i := i + 1;
      }
      assert initials[i..] == [];
      assert State() == hooked.0 && states == hooked.1;
    }

    /** `updateFunctionComponent(fiber)`: the component body makes its
        `useState` calls, in order, then returns its one element. */
    method UpdateFunctionComponent(x: nat)
      requires Valid(State()) && x < |fibers| && !halted && fibers[x].kind.Component?
      modifies this
      ensures State() == Work.UpdateFunctionComponent(env, old(State()), x)
    {
      var comp := env.components(fibers[x].kind.fn);
      var props := fibers[x].props;
      assert LinkOk(fibers, x);
      SetKeepsWF(fibers, x, fibers[x].(hooks := []));
      wipFiber := Some(x);
      hookIndex := 0;
      fibers := fibers[x := fibers[x].(hooks := [])];
      var states := CallHooks(comp.initials);
      ReconcileChildren(x, [comp.body(props, states)]);
    }

    /** `performUnitOfWork(fiber)`: does the fiber's work, then sets the next
        unit to its child, else to the first sibling met climbing up from it. */
    method PerformUnitOfWork(x: nat)
      requires Valid(State()) && x < |fibers| && !halted
      modifies this
      ensures State() == Work.PerformUnitOfWork(env, old(State()), x)
    {
      if env.variant != HostOnly && fibers[x].kind.Component? {
        UpdateFunctionComponent(x);
      } else {
        UpdateHostComponent(x);
      }
      if halted {
        return;
      }
      if fibers[x].child.Some? {
        nextUnit := fibers[x].child;
        return;
      }
      var next: Option<nat> := Some(x);
      while next.Some?
        invariant In(next, |fibers|)
        invariant next.Some? ==> Ascend(fibers, next.value) == Ascend(fibers, x)
        invariant next.None? ==> Ascend(fibers, x) == None
        decreases if next.Some? then next.value + 1 else 0
      {
        assert LinkOk(fibers, next.value);
        if fibers[next.value].sibling.Some? {
          nextUnit := fibers[next.value].sibling;
          return;
        }
        next := fibers[next.value].parent;
      }
      nextUnit := None;
    }

    /** `commitDeletion(fiber, domParent)`. */
    method CommitDeletion(f: Option<nat>, domParent: NodeId)
      requires Valid(State()) && In(f, |fibers|) && !halted
      modifies this
      ensures var e := Commit.Exec(old(dom), Commit.CommitDeletion(old(fibers), f, domParent));
        State() == old(State()).(dom := e.0, halted := e.1)
      decreases if f.Some? then |fibers| - f.value else 0
    {
      if f.None? {
        halted := true;
        return;
      }
      var x := f.value;
      assert LinkOk(fibers, x);
      if fibers[x].dom.Some? {
        ApplyCalls([RemoveChild(domParent, fibers[x].dom.value)]);
      } else {
        CommitDeletion(fibers[x].child, domParent);
      }
    }

    /** `updateDom(fiber.dom, fiber.alternate.props, fiber.props)` for an
        UPDATE fiber. */
    method CommitUpdate(x: nat)
      requires Valid(State()) && x < |fibers| && fibers[x].dom.Some? && !halted
      modifies this
      ensures var e := Commit.Exec(old(dom), Commit.CommitUpdate(env.variant, old(fibers), x));
        State() == old(State()).(dom := e.0, halted := e.1)
    {
      assert LinkOk(fibers, x);
      match fibers[x].alternate
      case None => halted := true;
      case Some(a) => ApplyCalls(UpdateDom(env.variant, fibers[x].dom.value, fibers[a].props, fibers[x].props));
    }

    /** The fiber's own effect in js/index.jsx and ts/index.ts. */
    method OwnEffect(x: nat, domParent: NodeId)
      requires Valid(State()) && x < |fibers| && !halted && env.variant != HostOnly
      modifies this
      ensures var e := Commit.Exec(old(dom), Commit.OwnEffect(env.variant, old(fibers), x, domParent));
        State() == old(State()).(dom := e.0, halted := e.1)
    {
      var f := fibers[x];
      if f.tag == Placement && f.dom.Some? {
        ApplyCalls([AppendChild(domParent, f.dom.value)]);
      } else if f.tag == Deletion {
        CommitDeletion(Some(x), domParent);
      } else if f.tag == Update && f.dom.Some? {
        CommitUpdate(x);
      }
    }

    /** The fiber's own effect in index.ts and index.js. */
    method HostOnlyEffect(x: nat)
      requires Valid(State()) && x < |fibers| && !halted && env.variant == HostOnly
      modifies this
      ensures var e := Commit.Exec(old(dom), Commit.HostOnlyEffect(old(fibers), x));
        State() == old(State()).(dom := e.0, halted := e.1)
    {
      assert LinkOk(fibers, x);
      var f := fibers[x];
      if f.parent.None? {
        halted := true;
        return;
      }
      var domParent := fibers[f.parent.value].dom;
      if f.tag == Placement && f.dom.Some? {
        if domParent.None? {
          halted := true;
        } else {
          ApplyCalls([AppendChild(domParent.value, f.dom.value)]);
        }
      } else if f.tag == Deletion {
        if domParent.None? || f.dom.None? {
          halted := true;
        } else {
          ApplyCalls([RemoveChild(domParent.value, f.dom.value)]);
        }
      } else if f.tag == Update && f.dom.Some? {
        CommitUpdate(x);
      }
    }

    /** `commitWork(fiber)`: the fiber's effect, then its child's subtree,
        then its sibling's. js/index.jsx and ts/index.ts first climb to the
        nearest ancestor that owns a DOM node. */
    method CommitWork(f: Option<nat>)
      requires Valid(State()) && In(f, |fibers|) && !halted
      modifies this
      ensures var e := Commit.Exec(old(dom), Commit.CommitWork(env.variant, old(fibers), f));
        State() == old(State()).(dom := e.0, halted := e.1)
      decreases if f.Some? then |fibers| - f.value else 0
    {
      if f.None? {
        return;
      }
      var x := f.value;
      var fs := fibers;
      assert LinkOk(fs, x);
      var own: Commit.Plan;
      if env.variant == HostOnly {
        own := Commit.HostOnlyEffect(fs, x);
        HostOnlyEffect(x);
      } else {
        var p := fs[x].parent;
        while p.Some? && fs[p.value].dom.None?
          invariant In(p, |fs|)
          invariant Commit.DomAncestor(fs, p) == Commit.DomAncestor(fs, fs[x].parent)
          decreases if p.Some? then p.value + 1 else 0
        {
          assert LinkOk(fs, p.value);
          p := fs[p.value].parent;
        }
        if p.None? {
          // `domParentFiber.dom` read through a null parent
          halted := true;
          return;
        }
        var domParent := fs[p.value].dom.value;
        if env.variant == Jsx && fs[x].tag == Deletion {
          CommitDeletion(Some(x), domParent);
          return;
        }
        own := Commit.OwnEffect(env.variant, fs, x, domParent);
        OwnEffect(x, domParent);
      }
      var rest := Commit.Then(Commit.CommitWork(env.variant, fs, fs[x].child), Commit.CommitWork(env.variant, fs, fs[x].sibling));
      Commit.ExecThen(old(dom), own, rest);
      if halted {
        return;
      }
      Commit.ExecThen(dom, Commit.CommitWork(env.variant, fs, fs[x].child), Commit.CommitWork(env.variant, fs, fs[x].sibling));
      CommitWork(fs[x].child);
      if halted {
        return;
      }
      CommitWork(fs[x].sibling);
    }

    /** `commitRoot()`: every queued deletion, then the new tree, then the
        swap of roots. */
    method CommitRoot()
      requires Valid(State()) && wipRoot.Some? && !halted
      modifies this
      ensures State() == Commit.CommitRoot(env.variant, old(State()))
    {
      var v := env.variant;
      assert LinkOk(fibers, wipRoot.value);
      var tree := Commit.CommitWork(v, fibers, fibers[wipRoot.value].child);
      Commit.ExecThen(dom, Commit.CommitAll(v, fibers, deletions), tree);
      var i := 0;
      while i < |deletions|
        invariant i <= |deletions| && !halted && State() == old(State()).(dom := dom)
        invariant Commit.Exec(old(dom), Commit.CommitAll(v, fibers, deletions))
               == Commit.Exec(dom, Commit.CommitAll(v, fibers, deletions[i..]))
      {
        assert deletions[i..][0] == deletions[i] && deletions[i..][1..] == deletions[i + 1..];
        Commit.ExecThen(dom, Commit.CommitWork(v, fibers, Some(deletions[i])), Commit.CommitAll(v, fibers, deletions[i + 1..]));
        CommitWork(Some(deletions[i]));
        if halted {
          return;
        }
        i := i + 1;
      }
      assert deletions[i..] == [];
      CommitWork(fibers[wipRoot.value].child);
      if !halted {
        currentRoot := wipRoot;
        wipRoot := None;
      }
    }

    /** The `while (nextUnitOfWork && !shouldYield)` loop, given the number
        of units the deadline leaves time for. */
    method RunUnits(k: nat)
      requires Valid(State())
      modifies this
      ensures State() == Work.Run(env, old(State()), k)
    {
      var done := 0;
      while done < k && nextUnit.Some? && !halted
        invariant done <= k && Valid(State())
        invariant Work.Run(env, State(), k - done) == Work.Run(env, old(State()), k)
        decreases k - done
      {
        Work.RunStep(env, State(), k - done);
        PerformUnitOfWork(nextUnit.value);
        done := done + 1;
      }
      if nextUnit.None? {
        Work.RunIdle(env, State(), k - done);
      }
    }

    /** `workLoop(deadline)`, with time for `budget` units: at least one unit
        is performed, then the tree is committed if the walk is over. */
    method WorkLoop(budget: nat)
      requires Valid(State())
      modifies this
      ensures State() == Work.WorkLoop(env, old(State()), budget)
    {
      if halted {
        return;
      }
      RunUnits(if budget == 0 then 1 else budget);
      if !halted && nextUnit.None? && wipRoot.Some? {
        CommitRoot();
      }
    }

    /** The setter of hook `k` of fiber `f`: queues `action` and restarts
        rendering from the committed root. `ok == false`: there is no
        committed root yet and the handler throws after the push. */
    method SetState(f: nat, k: nat, action: int -> int) returns (ok: bool)
      requires Valid(State()) && f < |fibers| && k < |fibers[f].hooks|
      modifies this
      ensures (State(), ok) == Hooks.SetState(old(State()), f, k, action)
    {
      var h := fibers[f].hooks[k];
      fibers := fibers[f := fibers[f].(hooks := fibers[f].hooks[k := h.(queue := h.queue + [action])])];
      if currentRoot.None? {
        return false;
      }
      var cr := currentRoot.value;
      fibers := fibers + [Fiber(NoType, fibers[cr].props, fibers[cr].dom, None, None, None, Some(cr), NoTag, [])];
      wipRoot := Some(|fibers| - 1);
      nextUnit := wipRoot;
      deletions := [];
      return true;
    }
  }
}

/** `useState` and the setter it returns. A hook is read by position: the
    `k`-th `useState` call of a component reads the `k`-th hook of the fiber's
    alternate, replays the actions queued on it, and appends a fresh hook. */
module Hooks {
  import opened Base
  import opened Elements
  import opened Fibers

  /** `actions.forEach(action => hook.state = action(hook.state))`. */
  function Replay(s: int, queue: seq<int -> int>): int
    decreases |queue|
  {
    if |queue| == 0 then s else Replay(queue[0](s), queue[1..])
  }

  /** Replaying two queues one after the other is replaying their
      concatenation: queued actions apply in the order they were queued. */
  lemma {:induction false} ReplayAppend(s: int, a: seq<int -> int>, b: seq<int -> int>)
    ensures Replay(s, a + b) == Replay(Replay(s, a), b)
    decreases |a|
  {
    if |a| == 0 {
      assert a + b == b;
    } else {
      assert (a + b)[0] == a[0] && (a + b)[1..] == a[1..] + b;
      ReplayAppend(a[0](s), a[1..], b);
    }
  }

  /** The hook the `k`-th `useState` call of fiber `f` finds on the alternate:
      `wipFiber.alternate && wipFiber.alternate.hooks && ...hooks[hookIndex]`. */
  function OldHook(fs: seq<Fiber>, f: nat, k: nat): (r: Option<Hook>)
    requires WF(fs) && f < |fs|
    ensures r.Some? ==> fs[f].alternate.Some? && k < |fs[fs[f].alternate.value].hooks|
  {
    assert LinkOk(fs, f);
    var alt := fs[f].alternate;
    if alt.Some? && k < |fs[alt.value].hooks| then Some(fs[alt.value].hooks[k]) else None
  }

  /** The state the call returns: the old hook's state with its queue
      replayed, or `initial` when there is no old hook. */
  function ReadState(fs: seq<Fiber>, f: nat, k: nat, initial: int): int
    requires WF(fs) && f < |fs|
  {
    match OldHook(fs, f, k)
    case Some(h) => Replay(h.state, h.queue)
    case None => initial
  }

  /** `useState(initial)` while rendering `wipFiber`: returns the world with the
      new hook pushed and `hookIndex` advanced, and the state. */
  function UseState(w: World, initial: int): (r: (World, int))
    requires Valid(w) && w.wipFiber.Some?
    ensures Valid(r.0) && |r.0.fibers| == |w.fibers|
    ensures r.0 == w.(fibers := r.0.fibers, hookIndex := w.hookIndex + 1)
  {
    var f := w.wipFiber.value;
    var s := ReadState(w.fibers, f, w.hookIndex, initial);
    assert LinkOk(w.fibers, f);
    SetKeepsWF(w.fibers, f, w.fibers[f].(hooks := w.fibers[f].hooks + [Hook(s, [])]));
    (w.(fibers := w.fibers[f := w.fibers[f].(hooks := w.fibers[f].hooks + [Hook(s, [])])],
        hookIndex := w.hookIndex + 1), s)
  }

  /** The `useState` calls a component body makes, in order, one per initial
      value; returns the states they return. */
  function RunHooks(w: World, initials: seq<int>): (r: (World, seq<int>))
    requires Valid(w) && w.wipFiber.Some?
    ensures Valid(r.0) && |r.0.fibers| == |w.fibers| && |r.1| == |initials|
    ensures r.0 == w.(fibers := r.0.fibers, hookIndex := w.hookIndex + |initials|)
    decreases |initials|
  {
    if |initials| == 0 then (w, [])
    else
      var (w1, s) := UseState(w, initials[0]);
      var (w2, rest) := RunHooks(w1, initials[1..]);
      (w2, [s] + rest)
  }

  /** The hooks a render leaves: one per state returned, with empty queues. */
  function Fresh(states: seq<int>): (r: seq<Hook>)
    ensures |r| == |states| && forall i :: 0 <= i < |r| ==> r[i] == Hook(states[i], [])
  {
    seq(|states|, i requires 0 <= i < |states| => Hook(states[i], []))
  }

  /** Rendering a component's hooks changes only the rendered fiber, by
      appending one fresh hook per state returned. */
  lemma {:induction false} RunHooksAppends(w: World, initials: seq<int>)
    requires Valid(w) && w.wipFiber.Some?
    ensures var f := w.wipFiber.value;
      RunHooks(w, initials).0.fibers == w.fibers[f := w.fibers[f].(hooks := w.fibers[f].hooks + Fresh(RunHooks(w, initials).1))]
    decreases |initials|
  {
    var f := w.wipFiber.value;
    if |initials| > 0 {
      var w1 := UseState(w, initials[0]).0;
      var s := UseState(w, initials[0]).1;
      RunHooksAppends(w1, initials[1..]);
      var rest := RunHooks(w1, initials[1..]).1;
      assert Fresh([s] + rest) == [Hook(s, [])] + Fresh(rest);
      assert w.fibers[f].hooks + Fresh([s] + rest) == (w.fibers[f].hooks + [Hook(s, [])]) + Fresh(rest);
    } else {
      assert Fresh([]) == [];
      assert w.fibers[f].(hooks := w.fibers[f].hooks + []) == w.fibers[f];
    }
  }

  /** Hooks are positional: call `i` returns the state read from the hook at
      `hookIndex + i` of the alternate (its queue replayed), or its initial
      value when the alternate has no such hook. */
  lemma {:induction false} RunHooksReads(w: World, initials: seq<int>, i: nat)
    requires Valid(w) && w.wipFiber.Some? && i < |initials|
    ensures RunHooks(w, initials).1[i] == ReadState(w.fibers, w.wipFiber.value, w.hookIndex + i, initials[i])
    decreases i
  {
    var f := w.wipFiber.value;
    if i > 0 {
      var w1 := UseState(w, initials[0]).0;
      RunHooksReads(w1, initials[1..], i - 1);
      // the alternate is older than `f`, so only `f`'s own hooks changed
      assert LinkOk(w.fibers, f);
      assert OldHook(w1.fibers, f, w1.hookIndex + (i - 1)) == OldHook(w.fibers, f, w.hookIndex + i);
    }
  }

  /** The setter returned by the `k`-th `useState` call of fiber `f`: it pushes
      `action` on that hook's queue, then starts a new render from the
      committed root, reusing its DOM node and props with the committed root as
      alternate. Before anything is committed `currentRoot` is null and reading
      its `dom` throws in the caller after the push (`ok == false`). */
  function SetState(w: World, f: nat, k: nat, action: int -> int): (r: (World, bool))
    requires Valid(w) && f < |w.fibers| && k < |w.fibers[f].hooks|
    ensures Valid(r.0)
  {
    var h := w.fibers[f].hooks[k];
    var hooks := w.fibers[f].hooks[k := h.(queue := h.queue + [action])];
    assert LinkOk(w.fibers, f);
    SetKeepsWF(w.fibers, f, w.fibers[f].(hooks := hooks));
    var fs := w.fibers[f := w.fibers[f].(hooks := hooks)];
    match w.currentRoot
    case None => (w.(fibers := fs), false)
    case Some(cr) =>
      var root := Fiber(NoType, fs[cr].props, fs[cr].dom, None, None, None, Some(cr), NoTag, []);
      AppendKeepsWF(fs, root);
      (w.(fibers := fs + [root], wipRoot := Some(|fs|), nextUnit := Some(|fs|), deletions := []), true)
  }

  /** A queued action takes effect at the next render: once `setState(action)`
      has been called on hook `k` of `f`, a fiber rendered with `f` as its
      alternate reads, at call `k`, the state the earlier queue produced with
      `action` applied on top. */
  lemma QueuedActionApplies(w: World, f: nat, k: nat, action: int -> int, g: nat, initial: int)
    requires Valid(w) && f < |w.fibers| && k < |w.fibers[f].hooks|
    requires g < |SetState(w, f, k, action).0.fibers| && SetState(w, f, k, action).0.fibers[g].alternate == Some(f)
    ensures var h := w.fibers[f].hooks[k];
      ReadState(SetState(w, f, k, action).0.fibers, g, k, initial) == action(Replay(h.state, h.queue))
  {
    var h := w.fibers[f].hooks[k];
    ReplayAppend(h.state, h.queue, [action]);
  }

  /** Whether or not anything is committed, the action is queued on hook `k`
      and nothing else on the fiber, on the other fibers or in the DOM
      changes. With a committed root, the new work-in-progress root takes the
      committed root's node and props and has it as alternate. */
  lemma SetStateQueues(w: World, f: nat, k: nat, action: int -> int)
    requires Valid(w) && f < |w.fibers| && k < |w.fibers[f].hooks|
    ensures var (w', ok) := SetState(w, f, k, action);
      var hs := w.fibers[f].hooks;
      && ok == w.currentRoot.Some?
      && |w'.fibers| == |w.fibers| + (if ok then 1 else 0)
      && |w'.fibers[f].hooks| == |hs|
      && w'.fibers[f].hooks[k].queue == hs[k].queue + [action]
      && w'.fibers[f].hooks[k].state == hs[k].state
      && (forall i :: 0 <= i < |hs| && i != k ==> w'.fibers[f].hooks[i] == hs[i])
      && w'.fibers[f].(hooks := hs) == w.fibers[f]
      && (forall g :: 0 <= g < |w.fibers| && g != f ==> w'.fibers[g] == w.fibers[g])
      && w'.currentRoot == w.currentRoot && w'.dom == w.dom && w'.halted == w.halted
      && w'.wipFiber == w.wipFiber && w'.hookIndex == w.hookIndex
      && (ok ==> && w'.wipRoot == w'.nextUnit == Some(|w.fibers|) && w'.deletions == []
                 && var root := w'.fibers[|w.fibers|];
                    var cr := w.currentRoot.value;
                    && root.alternate == Some(cr)
                    && root.dom == w.fibers[cr].dom && root.props == w.fibers[cr].props
                    && root.kind == NoType && root.parent.None? && root.child.None?
                    && root.sibling.None? && root.tag == NoTag && root.hooks == [])
      && (!ok ==> w' == w.(fibers := w'.fibers))
  {
  }
}

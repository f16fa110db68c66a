/** The commit phase: `commitRoot`, `commitWork` and (js/index.jsx,
    ts/index.ts) `commitDeletion`. The fiber arena does not change while
    committing, so each walk is described by the host calls it makes in order
    and whether it ends in a JavaScript TypeError; the calls are then made on
    the host, which may itself throw. */
module Commit {
  import opened Base
  import opened Elements
  import opened HostDom
  import opened PropDiff
  import opened Fibers

  /** The calls a walk makes, and whether it returns normally (`ok == false`:
      a TypeError is thrown after these calls). */
  datatype Plan = Plan(calls: seq<Call>, ok: bool)

  /** Runs `p` and, if it returns normally, `q` after it. */
  function Then(p: Plan, q: Plan): (r: Plan)
    ensures r.ok == (p.ok && q.ok)
    ensures p.ok ==> r.calls == p.calls + q.calls
    ensures !p.ok ==> r == p
  {
    if p.ok then Plan(p.calls + q.calls, q.ok) else p
  }

  const Done := Plan([], true)
  const Throws := Plan([], false)

  /** js/index.jsx and ts/index.ts: starting from fiber `p`, the nearest fiber
      up the parent chain that has a DOM node; reaching a null parent reads
      `.dom` of null and throws. */
  function DomAncestor(fs: seq<Fiber>, p: Option<nat>): (r: Option<NodeId>)
    requires WF(fs) && In(p, |fs|)
    decreases if p.Some? then p.value + 1 else 0
  {
    match p
    case None => None
    case Some(x) =>
      assert LinkOk(fs, x);
      if fs[x].dom.Some? then fs[x].dom else DomAncestor(fs, fs[x].parent)
  }

  /** `commitDeletion(fiber, domParent)`: removes the fiber's DOM node, or
      that of its first descendant along `child` that has one; a missing child
      reads `.dom` of undefined and throws. */
  function CommitDeletion(fs: seq<Fiber>, f: Option<nat>, domParent: NodeId): (r: Plan)
    requires WF(fs) && In(f, |fs|)
    ensures |r.calls| <= 1
    decreases if f.Some? then |fs| - f.value else 0
  {
    match f
    case None => Throws
    case Some(x) =>
      assert LinkOk(fs, x);
      if fs[x].dom.Some? then Plan([RemoveChild(domParent, fs[x].dom.value)], true)
      else CommitDeletion(fs, fs[x].child, domParent)
  }

  /** `updateDom(fiber.dom, fiber.alternate.props, fiber.props)`; a missing
      alternate throws. */
  function CommitUpdate(v: Variant, fs: seq<Fiber>, x: nat): Plan
    requires WF(fs) && x < |fs| && fs[x].dom.Some?
  {
    assert LinkOk(fs, x);
    match fs[x].alternate
    case None => Throws
    case Some(a) => Plan(UpdateDom(v, fs[x].dom.value, fs[a].props, fs[x].props), true)
  }

  /** The effect of one fiber, before its child and sibling are visited, in
      js/index.jsx and ts/index.ts. js/index.jsx tests PLACEMENT, UPDATE,
      DELETION; ts/index.ts tests PLACEMENT, DELETION, UPDATE. */
  function OwnEffect(v: Variant, fs: seq<Fiber>, x: nat, domParent: NodeId): Plan
    requires WF(fs) && x < |fs| && v != HostOnly
  {
    var f := fs[x];
    if f.tag == Placement && f.dom.Some? then Plan([AppendChild(domParent, f.dom.value)], true)
    else if f.tag == Deletion then CommitDeletion(fs, Some(x), domParent)
    else if f.tag == Update && f.dom.Some? then CommitUpdate(v, fs, x)
    else Done
  }

  /** The effect of one fiber in index.ts and index.js: the DOM parent is
      `fiber.parent.dom` (a null parent throws), and it is used without a
      check, so a null one throws when a PLACEMENT or DELETION needs it.
      DELETION removes `fiber.dom` itself, and throws when it is null. */
  function HostOnlyEffect(fs: seq<Fiber>, x: nat): Plan
    requires WF(fs) && x < |fs|
  {
    assert LinkOk(fs, x);
    var f := fs[x];
    match f.parent
    case None => Throws
    case Some(p) =>
      var domParent := fs[p].dom;
      if f.tag == Placement && f.dom.Some? then
        (if domParent.None? then Throws else Plan([AppendChild(domParent.value, f.dom.value)], true))
      else if f.tag == Deletion then
        (if domParent.None? || f.dom.None? then Throws else Plan([RemoveChild(domParent.value, f.dom.value)], true))
      else if f.tag == Update && f.dom.Some? then CommitUpdate(HostOnly, fs, x)
      else Done
  }

  /** `commitWork(fiber)`: nothing for a null fiber; otherwise the fiber's own
      effect, then its child's subtree, then its sibling's. In js/index.jsx a
      DELETION returns right after `commitDeletion`; the other variants go on
      to the deleted fiber's child and sibling. */
  function CommitWork(v: Variant, fs: seq<Fiber>, f: Option<nat>): Plan
    requires WF(fs) && In(f, |fs|)
    decreases if f.Some? then |fs| - f.value else 0
  {
    match f
    case None => Done
    case Some(x) =>
      assert LinkOk(fs, x);
      if v == HostOnly then
        Then(HostOnlyEffect(fs, x), Then(CommitWork(v, fs, fs[x].child), CommitWork(v, fs, fs[x].sibling)))
      else
        match DomAncestor(fs, fs[x].parent)
        case None => Throws
        case Some(domParent) =>
          if v == Jsx && fs[x].tag == Deletion then CommitDeletion(fs, Some(x), domParent)
          else Then(OwnEffect(v, fs, x, domParent), Then(CommitWork(v, fs, fs[x].child), CommitWork(v, fs, fs[x].sibling)))
  }

  /** `deletions.forEach(commitWork)`. */
  function CommitAll(v: Variant, fs: seq<Fiber>, dels: seq<nat>): Plan
    requires WF(fs) && forall i :: 0 <= i < |dels| ==> dels[i] < |fs|
  {
    if |dels| == 0 then Done else Then(CommitWork(v, fs, Some(dels[0])), CommitAll(v, fs, dels[1..]))
  }

  /** `commitWork(wipRoot.child)`. */
  function TreeWalk(v: Variant, w: World): Plan
    requires Valid(w) && w.wipRoot.Some?
  {
    assert LinkOk(w.fibers, w.wipRoot.value);
    CommitWork(v, w.fibers, w.fibers[w.wipRoot.value].child)
  }

  /** `commitRoot()`: commits every deletion, then the new tree below the
      root; if nothing throws, the work-in-progress root becomes the current
      root. `deletions` is left as it is. A throw stops the idle loop. */
  function CommitRoot(v: Variant, w: World): (r: World)
    requires Valid(w) && w.wipRoot.Some?
    ensures Valid(r) && r.fibers == w.fibers && r.deletions == w.deletions && r.nextUnit == w.nextUnit
    ensures !r.halted ==> r.currentRoot == w.wipRoot && r.wipRoot.None?
  {
    var plan := Then(CommitAll(v, w.fibers, w.deletions), TreeWalk(v, w));
    var out := ApplyAll(w.dom, plan.calls);
    if plan.ok && out.ok then w.(dom := out.dom, currentRoot := w.wipRoot, wipRoot := None)
    else w.(dom := out.dom, halted := true)
  }

  /** In js/index.jsx and ts/index.ts a fiber's own effect comes first, and
      with no ancestor node at all the walk throws before any call. A
      PLACEMENT fiber with a node is appended to the nearest ancestor node
      before anything below or after it is committed. A DELETION begins with
      the removal of `commitDeletion`, and in js/index.jsx that is all it
      does, whatever lies below or beside the deleted fiber. An UPDATE of a
      fiber with a node begins with the `updateDom` calls on that node, and a
      missing alternate throws before any call. */
  lemma CommitWorkOwnEffectFirst(v: Variant, fs: seq<Fiber>, x: nat)
    requires WF(fs) && x < |fs| && LinkOk(fs, x) && v != HostOnly
    ensures var c := CommitWork(v, fs, Some(x)); var f := fs[x];
      match DomAncestor(fs, f.parent)
      case None => c == Throws
      case Some(p) =>
        && (f.tag == Placement && f.dom.Some? ==> |c.calls| >= 1 && c.calls[0] == AppendChild(p, f.dom.value))
        && (f.tag == Deletion ==> var d := CommitDeletion(fs, Some(x), p);
              && (v == Jsx ==> c == d)
              && (d.ok ==> |d.calls| <= |c.calls| && c.calls[..|d.calls|] == d.calls)
              && (!d.ok ==> c == d))
        && (f.tag == Update && f.dom.Some? ==> var u := CommitUpdate(v, fs, x);
              && (u.ok ==> |u.calls| <= |c.calls| && c.calls[..|u.calls|] == u.calls)
              && (!u.ok ==> c == Throws))
  {
    var c := CommitWork(v, fs, Some(x));
    var f := fs[x];
    if DomAncestor(fs, f.parent).Some? {
      var p := DomAncestor(fs, f.parent).value;
      var rest := Then(CommitWork(v, fs, f.child), CommitWork(v, fs, f.sibling));
      if !(v == Jsx && f.tag == Deletion) {
        assert c == Then(OwnEffect(v, fs, x, p), rest);
      }
    }
  }

  /** What committing fiber `x` does itself, in the walk of variant `v`: in
      js/index.jsx and ts/index.ts its own effect against the nearest
      ancestor node (a throw when there is none), a DELETION in js/index.jsx
      being the whole of `commitDeletion`; in index.js and index.ts its effect
      against `fiber.parent.dom`. */
  function Effect(v: Variant, fs: seq<Fiber>, x: nat): Plan
    requires WF(fs) && x < |fs|
  {
    assert LinkOk(fs, x);
    if v == HostOnly then HostOnlyEffect(fs, x)
    else
      match DomAncestor(fs, fs[x].parent)
      case None => Throws
      case Some(p) => if v == Jsx && fs[x].tag == Deletion then CommitDeletion(fs, Some(x), p) else OwnEffect(v, fs, x, p)
  }

  /** The fibers `commitWork(f)` visits, in the order it visits them: a fiber,
      then its child's subtree, then its sibling's; in js/index.jsx nothing
      below a deleted fiber. */
  function Visits(v: Variant, fs: seq<Fiber>, f: Option<nat>): (r: seq<nat>)
    requires WF(fs) && In(f, |fs|)
    ensures forall i :: 0 <= i < |r| ==> r[i] < |fs|
    ensures f.None? <==> r == []
    ensures f.Some? ==> r[0] == f.value && forall i :: 0 <= i < |r| ==> f.value <= r[i]
    decreases if f.Some? then |fs| - f.value else 0
  {
    match f
    case None => []
    case Some(x) =>
      assert LinkOk(fs, x);
      if v == Jsx && fs[x].tag == Deletion then [x]
      else [x] + Visits(v, fs, fs[x].child) + Visits(v, fs, fs[x].sibling)
  }

  /** The effects of `xs`, one after the other, stopping at the first throw. */
  function Effects(v: Variant, fs: seq<Fiber>, xs: seq<nat>): Plan
    requires WF(fs) && forall i :: 0 <= i < |xs| ==> xs[i] < |fs|
  {
    if |xs| == 0 then Done else Then(Effect(v, fs, xs[0]), Effects(v, fs, xs[1..]))
  }

  lemma {:induction false} EffectsAppend(v: Variant, fs: seq<Fiber>, a: seq<nat>, b: seq<nat>)
    requires WF(fs) && (forall i :: 0 <= i < |a| ==> a[i] < |fs|) && (forall i :: 0 <= i < |b| ==> b[i] < |fs|)
    ensures Effects(v, fs, a + b) == Then(Effects(v, fs, a), Effects(v, fs, b))
    decreases |a|
  {
    if |a| == 0 {
      assert a + b == b;
    } else {
      assert (a + b)[0] == a[0] && (a + b)[1..] == a[1..] + b;
      EffectsAppend(v, fs, a[1..], b);
      ThenAssoc(Effect(v, fs, a[0]), Effects(v, fs, a[1..]), Effects(v, fs, b));
    }
  }

  /** One level of the walk: the fiber's own effect, then (unless it is a
      DELETION in js/index.jsx) its child's subtree and its sibling's. */
  lemma CommitWorkStep(v: Variant, fs: seq<Fiber>, x: nat)
    requires WF(fs) && x < |fs| && LinkOk(fs, x)
    ensures CommitWork(v, fs, Some(x)) ==
      if v == Jsx && fs[x].tag == Deletion then Effect(v, fs, x)
      else Then(Effect(v, fs, x), Then(CommitWork(v, fs, fs[x].child), CommitWork(v, fs, fs[x].sibling)))
  {
  }

  lemma EffectsCons(v: Variant, fs: seq<Fiber>, x: nat, l: seq<nat>)
    requires WF(fs) && x < |fs| && forall i :: 0 <= i < |l| ==> l[i] < |fs|
    ensures Effects(v, fs, [x] + l) == Then(Effect(v, fs, x), Effects(v, fs, l))
  {
    assert ([x] + l)[0] == x && ([x] + l)[1..] == l;
  }

  /** One level of the visiting order. */
  lemma VisitsStep(v: Variant, fs: seq<Fiber>, x: nat)
    requires WF(fs) && x < |fs| && LinkOk(fs, x)
    ensures Visits(v, fs, Some(x)) ==
      if v == Jsx && fs[x].tag == Deletion then [x]
      else [x] + (Visits(v, fs, fs[x].child) + Visits(v, fs, fs[x].sibling))
  {
    var a, b := Visits(v, fs, fs[x].child), Visits(v, fs, fs[x].sibling);
    assert [x] + a + b == [x] + (a + b);
  }

  lemma EffectsJoin(v: Variant, fs: seq<Fiber>, x: nat, a: seq<nat>, b: seq<nat>, pa: Plan, pb: Plan)
    requires WF(fs) && x < |fs| && (forall i :: 0 <= i < |a| ==> a[i] < |fs|) && (forall i :: 0 <= i < |b| ==> b[i] < |fs|)
    requires pa == Effects(v, fs, a) && pb == Effects(v, fs, b)
    ensures Then(Effect(v, fs, x), Then(pa, pb)) == Effects(v, fs, [x] + (a + b))
  {
    EffectsCons(v, fs, x, a + b);
    EffectsAppend(v, fs, a, b);
  }

  /** `commitWork` is a pre-order walk: it makes the own effect of each
      fiber it visits, in visiting order, and stops at the first throw. */
  lemma {:induction false} CommitWorkPreOrder(v: Variant, fs: seq<Fiber>, f: Option<nat>)
    requires WF(fs) && In(f, |fs|)
    ensures CommitWork(v, fs, f) == Effects(v, fs, Visits(v, fs, f))
    decreases if f.Some? then |fs| - f.value else 0
  {
    if f.Some? {
      var x := f.value;
      assert LinkOk(fs, x);
      CommitWorkStep(v, fs, x);
      VisitsStep(v, fs, x);
      if v == Jsx && fs[x].tag == Deletion {
        EffectsCons(v, fs, x, []);
      } else {
        var c, s := fs[x].child, fs[x].sibling;
        CommitWorkPreOrder(v, fs, c);
        CommitWorkPreOrder(v, fs, s);
        EffectsJoin(v, fs, x, Visits(v, fs, c), Visits(v, fs, s), CommitWork(v, fs, c), CommitWork(v, fs, s));
      }
    }
  }

  /** The host after the calls of `p` are made one by one, and whether the
      walk threw (a host call threw, or the walk itself ended in a TypeError). */
  function Exec(h: Dom, p: Plan): (r: (Dom, bool))
    ensures p.calls == [] ==> r == (h, !p.ok)
  {
    var out := ApplyAll(h, p.calls);
    (out.dom, !(out.ok && p.ok))
  }

  /** Running `Then(p, q)` runs `p`, and `q` after it only if `p` did not throw. */
  lemma ExecThen(h: Dom, p: Plan, q: Plan)
    ensures Exec(h, Then(p, q)) == (var (h1, threw) := Exec(h, p); if threw then (h1, true) else Exec(h1, q))
  {
    if p.ok {
      ApplyAllAppend(h, p.calls, q.calls);
    }
  }

  /** None of the first `n` fibers of `a` owns a DOM node. */
  predicate NoDom(fs: seq<Fiber>, a: seq<nat>, n: nat)
    requires n <= |a| && forall k :: 0 <= k < |a| ==> a[k] < |fs|
  {
    forall l :: 0 <= l < n ==> fs[a[l]].dom.None?
  }

  /** The DOM parent is the node of the nearest fiber, from the parent
      upwards, that owns one; the climb throws when no fiber on the way up
      owns one. */
  lemma {:induction false} DomAncestorNearest(fs: seq<Fiber>, p: Option<nat>)
    requires WF(fs) && In(p, |fs|)
    ensures var a := Up(fs, p);
      && (DomAncestor(fs, p).None? <==> NoDom(fs, a, |a|))
      && (DomAncestor(fs, p).Some? ==> exists k :: 0 <= k < |a| && DomAncestor(fs, p) == fs[a[k]].dom && NoDom(fs, a, k))
    decreases if p.Some? then p.value + 1 else 0
  {
    if p.Some? {
      var x := p.value;
      assert LinkOk(fs, x);
      var a := Up(fs, p);
      var q := fs[x].parent;
      var b := Up(fs, q);
      assert a == [x] + b;
      if fs[x].dom.Some? {
        assert NoDom(fs, a, 0) && !NoDom(fs, a, |a|);
      } else {
        DomAncestorNearest(fs, q);
        NoDomShift(fs, x, b);
        if DomAncestor(fs, q).Some? {
          var k :| 0 <= k < |b| && DomAncestor(fs, q) == fs[b[k]].dom && NoDom(fs, b, k);
          assert a[k + 1] == b[k];
        }
      }
    }
  }

  /** Prefixing a path with a fiber that owns no node. */
  lemma NoDomShift(fs: seq<Fiber>, x: nat, b: seq<nat>)
    requires x < |fs| && fs[x].dom.None? && forall k :: 0 <= k < |b| ==> b[k] < |fs|
    ensures forall n :: 0 <= n <= |b| ==> NoDom(fs, [x] + b, n + 1) == NoDom(fs, b, n)
  {
    forall n | 0 <= n <= |b| ensures NoDom(fs, [x] + b, n + 1) == NoDom(fs, b, n) {
      assert forall l :: 0 <= l < n ==> ([x] + b)[l + 1] == b[l];
    }
  }

  /** `commitDeletion` removes, from the DOM parent, the node of the first
      fiber that owns one going down `child` links from the deleted fiber;
      it makes no call and throws when there is none. */
  lemma {:induction false} CommitDeletionFirstDom(fs: seq<Fiber>, f: Option<nat>, domParent: NodeId)
    requires WF(fs) && In(f, |fs|)
    ensures var d := Down(fs, f); var r := CommitDeletion(fs, f, domParent);
      && (r.ok <==> !NoDom(fs, d, |d|))
      && (!r.ok ==> r.calls == [])
      && (r.ok ==> exists k :: 0 <= k < |d| && fs[d[k]].dom.Some? && NoDom(fs, d, k)
                              && r.calls == [RemoveChild(domParent, fs[d[k]].dom.value)])
    decreases if f.Some? then |fs| - f.value else 0
  {
    var d := Down(fs, f);
    if f.Some? {
      var x := f.value;
      assert LinkOk(fs, x);
      if fs[x].dom.Some? {
        assert NoDom(fs, d, 0) && !NoDom(fs, d, |d|);
      } else {
        var c := fs[x].child;
        CommitDeletionFirstDom(fs, c, domParent);
        var e := Down(fs, c);
        assert d == [x] + e;
        assert CommitDeletion(fs, f, domParent) == CommitDeletion(fs, c, domParent);
        NoDomShift(fs, x, e);
        if CommitDeletion(fs, c, domParent).ok {
          var k :| 0 <= k < |e| && fs[e[k]].dom.Some? && NoDom(fs, e, k)
                   && CommitDeletion(fs, c, domParent).calls == [RemoveChild(domParent, fs[e[k]].dom.value)];
          assert d[k + 1] == e[k];
        }
      }
    }
  }

  /** Committing two lists of deletions one after the other is committing
      their concatenation: the deletions are committed in queue order. */
  lemma {:induction false} CommitAllAppend(v: Variant, fs: seq<Fiber>, a: seq<nat>, b: seq<nat>)
    requires WF(fs) && (forall i :: 0 <= i < |a| ==> a[i] < |fs|) && (forall i :: 0 <= i < |b| ==> b[i] < |fs|)
    ensures CommitAll(v, fs, a + b) == Then(CommitAll(v, fs, a), CommitAll(v, fs, b))
    decreases |a|
  {
    if |a| == 0 {
      assert a + b == b;
    } else {
      assert (a + b)[0] == a[0] && (a + b)[1..] == a[1..] + b;
      CommitAllAppend(v, fs, a[1..], b);
      ThenAssoc(CommitWork(v, fs, Some(a[0])), CommitAll(v, fs, a[1..]), CommitAll(v, fs, b));
    }
  }

  lemma ThenAssoc(p: Plan, q: Plan, r: Plan)
    ensures Then(Then(p, q), r) == Then(p, Then(q, r))
  {
    if p.ok && q.ok {
      assert (p.calls + q.calls) + r.calls == p.calls + (q.calls + r.calls);
    }
  }

  /** A successful commit has made, in this order, every call of the
      deletions' walks and then every call of the new tree's walk, and has
      swapped the roots; it fails exactly when one of those walks or calls
      throws. */
  lemma CommitRootLog(v: Variant, w: World)
    requires Valid(w) && w.wipRoot.Some? && !w.halted
    ensures var r := CommitRoot(v, w);
      var dels := CommitAll(v, w.fibers, w.deletions);
      var tree := TreeWalk(v, w);
      && (r.halted <==> !(dels.ok && tree.ok && ApplyAll(w.dom, dels.calls + tree.calls).ok))
      && (!r.halted ==> r.dom.log == w.dom.log + dels.calls + tree.calls)
  {
    var dels := CommitAll(v, w.fibers, w.deletions);
    var tree := TreeWalk(v, w);
    var out := ApplyAll(w.dom, Then(dels, tree).calls);
    if dels.ok {
      assert Then(dels, tree).calls == dels.calls + tree.calls;
      assert w.dom.log + (dels.calls + tree.calls) == w.dom.log + dels.calls + tree.calls;
    }
  }

  /** An old `div` root (node 0) whose only child, an `h1` owning node 1, is
      being deleted; the `h1` still has its text child (node 2) below it,
      carrying the PLACEMENT tag of the render that created it. */
  function DeletedWithChild(): (fs: seq<Fiber>)
    ensures WF(fs) && |fs| == 3
  {
    var fs := [Fiber(NoType, [], Some(0), None, Some(1), None, None, NoTag, []),
               Fiber(Host("h1"), [], Some(1), Some(0), Some(2), None, None, Deletion, []),
               Fiber(Host(TEXT_ELEMENT), [], Some(2), Some(1), None, None, None, Placement, [])];
    assert LinkOk(fs, 0) && LinkOk(fs, 1) && LinkOk(fs, 2);
    fs
  }

  /** js/index.jsx commits a deletion by removing the node and stopping; the
      other variants then walk into the deleted fiber's subtree and act on its
      stale tags, here appending the text node to the removed `h1` again. */
  lemma DeletedSubtreeRevisited()
    ensures CommitWork(Jsx, DeletedWithChild(), Some(1)) == Plan([RemoveChild(0, 1)], true)
    ensures CommitWork(Ts, DeletedWithChild(), Some(1)) == Plan([RemoveChild(0, 1), AppendChild(1, 2)], true)
    ensures CommitWork(HostOnly, DeletedWithChild(), Some(1)) == Plan([RemoveChild(0, 1), AppendChild(1, 2)], true)
  {
    var fs := DeletedWithChild();
    assert DomAncestor(fs, Some(0)) == Some(0);
    assert DomAncestor(fs, Some(1)) == Some(1);
    assert CommitDeletion(fs, Some(1), 0) == Plan([RemoveChild(0, 1)], true);
    assert CommitWork(Ts, fs, Some(2)) == Plan([AppendChild(1, 2)], true);
    assert CommitWork(HostOnly, fs, Some(2)) == Plan([AppendChild(1, 2)], true);
  }

  /** An old `div` root (node 0) whose two `h1` children (nodes 1 and 2) were
      both replaced by elements of another type, so both are queued. */
  function TwoDeleted(): (fs: seq<Fiber>)
    ensures WF(fs) && |fs| == 3
  {
    var fs := [Fiber(NoType, [], Some(0), None, Some(1), None, None, NoTag, []),
               Fiber(Host("h1"), [], Some(1), Some(0), None, Some(2), None, Deletion, []),
               Fiber(Host("h1"), [], Some(2), Some(0), None, None, None, Deletion, [])];
    assert LinkOk(fs, 0) && LinkOk(fs, 1) && LinkOk(fs, 2);
    fs
  }

  /** The host page holding that tree. */
  function TwoChildPage(): Dom {
    Dom([Node(false, "div", map[], {}, [1, 2]), Node(false, "h1", map[], {}, []), Node(false, "h1", map[], {}, [])], [])
  }

  /** Deleting two adjacent siblings: js/index.jsx removes each node once.
      ts/index.ts, index.ts and index.js visit the second fiber again as the
      sibling of the first, so its node is removed twice and the second
      `removeChild` throws (NotFoundError), stopping the commit. */
  lemma AdjacentDeletionsThrow()
    ensures CommitAll(Jsx, TwoDeleted(), [1, 2]) == Plan([RemoveChild(0, 1), RemoveChild(0, 2)], true)
    ensures ApplyAll(TwoChildPage(), [RemoveChild(0, 1), RemoveChild(0, 2)]).ok
    ensures forall v :: v != Jsx ==>
      CommitAll(v, TwoDeleted(), [1, 2]) == Plan([RemoveChild(0, 1), RemoveChild(0, 2), RemoveChild(0, 2)], true)
    ensures !ApplyAll(TwoChildPage(), [RemoveChild(0, 1), RemoveChild(0, 2), RemoveChild(0, 2)]).ok
  {
    var fs := TwoDeleted();
    assert DomAncestor(fs, Some(0)) == Some(0);
    assert CommitWork(Jsx, fs, Some(1)) == Plan([RemoveChild(0, 1)], true);
    assert CommitWork(Jsx, fs, Some(2)) == Plan([RemoveChild(0, 2)], true);
    assert [1, 2][1..] == [2] && [2][1..] == [];
    forall v | v != Jsx
      ensures CommitAll(v, fs, [1, 2]) == Plan([RemoveChild(0, 1), RemoveChild(0, 2), RemoveChild(0, 2)], true)
    {
      assert CommitWork(v, fs, Some(2)) == Plan([RemoveChild(0, 2)], true);
      assert CommitWork(v, fs, Some(1)) == Plan([RemoveChild(0, 1), RemoveChild(0, 2)], true);
    }
    var h := TwoChildPage();
    var h1 := Apply(h, RemoveChild(0, 1)).value;
    assert h1.nodes[0].children == [2];
    var h2 := Apply(h1, RemoveChild(0, 2)).value;
    assert h2.nodes[0].children == [];
    assert [RemoveChild(0, 1), RemoveChild(0, 2), RemoveChild(0, 2)][1..] == [RemoveChild(0, 2), RemoveChild(0, 2)];
  }
}


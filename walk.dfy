/** The order in which `performUnitOfWork` hands out units: on a fixed tree,
    following the next unit from a root visits the fibers reachable from it
    by `child` and `sibling` links in pre-order, each once, and then gives
    null. */
module WalkOrder {
  import opened Base
  import opened Fibers
  import Commit

  /** Fiber `x`'s child points back to `x`, and its sibling has its parent. */
  predicate LinksBack(fs: seq<Fiber>, x: nat)
    requires WF(fs) && x < |fs|
  {
    assert LinkOk(fs, x);
    && (fs[x].child.Some? ==> fs[fs[x].child.value].parent == Some(x))
    && (fs[x].sibling.Some? ==> fs[fs[x].sibling.value].parent == fs[x].parent)
  }

  /** The `parent` links agree with the `child` and `sibling` links. */
  predicate TreeLinks(fs: seq<Fiber>)
    requires WF(fs)
  {
    forall x :: 0 <= x < |fs| ==> LinksBack(fs, x)
  }

  /** The fibers reachable from `f` by `child` and `sibling` links, in
      pre-order: `f`, its child's subtree, then its sibling's. */
  function PreOrder(fs: seq<Fiber>, f: Option<nat>): (r: seq<nat>)
    requires WF(fs) && In(f, |fs|)
    ensures forall i :: 0 <= i < |r| ==> r[i] < |fs|
    ensures f.None? <==> r == []
    ensures f.Some? ==> r[0] == f.value && forall i :: 0 <= i < |r| ==> f.value <= r[i]
    decreases if f.Some? then |fs| - f.value else 0
  {
    match f
    case None => []
    case Some(x) =>
      assert LinkOk(fs, x);
      [x] + PreOrder(fs, fs[x].child) + PreOrder(fs, fs[x].sibling)
  }

  /** Following the next unit from each fiber of `p` leads to the fiber after
      it, and from the last one to `last`. */
  predicate Steps(fs: seq<Fiber>, p: seq<nat>, last: Option<nat>)
    requires WF(fs) && forall i :: 0 <= i < |p| ==> p[i] < |fs|
  {
    && (forall i :: 0 <= i < |p| - 1 ==> NextUnit(fs, p[i]) == Some(p[i + 1]))
    && (|p| > 0 ==> NextUnit(fs, p[|p| - 1]) == last)
  }

  lemma StepsJoin(fs: seq<Fiber>, a: seq<nat>, b: seq<nat>, last: Option<nat>)
    requires WF(fs) && (forall i :: 0 <= i < |a| ==> a[i] < |fs|) && (forall i :: 0 <= i < |b| ==> b[i] < |fs|)
    requires |a| > 0 && |b| > 0 && Steps(fs, a, Some(b[0])) && Steps(fs, b, last)
    ensures Steps(fs, a + b, last)
  {
    var ab := a + b;
    forall i | 0 <= i < |ab| - 1 ensures NextUnit(fs, ab[i]) == Some(ab[i + 1]) {
      if i < |a| - 1 {
        assert ab[i] == a[i] && ab[i + 1] == a[i + 1];
      } else if i == |a| - 1 {
        assert ab[i] == a[|a| - 1] && ab[i + 1] == b[0];
      } else {
        assert ab[i] == b[i - |a|] && ab[i + 1] == b[i - |a| + 1];
      }
    }
    assert ab[|ab| - 1] == b[|b| - 1];
  }

  /** Where the climb goes once the fibers below `par` are done. */
  function Above(fs: seq<Fiber>, par: Option<nat>): (r: Option<nat>)
    requires WF(fs) && In(par, |fs|)
  {
    if par.Some? then Ascend(fs, par.value) else None
  }

  /** Walking from `f`, whose chain of siblings hangs below `par`, visits
      `PreOrder(fs, f)` in order and then climbs above `par`. */
  lemma {:induction false} WalkSteps(fs: seq<Fiber>, f: Option<nat>, par: Option<nat>)
    requires WF(fs) && TreeLinks(fs) && f.Some? && f.value < |fs| && In(par, |fs|)
    requires fs[f.value].parent == par
    ensures Steps(fs, PreOrder(fs, f), Above(fs, par))
    decreases |fs| - f.value
  {
    var x := f.value;
    assert LinkOk(fs, x) && LinksBack(fs, x);
    var c, s := fs[x].child, fs[x].sibling;
    var C, S := PreOrder(fs, c), PreOrder(fs, s);
    var t := Above(fs, par);
    // after the child's subtree the climb from `x` goes to the sibling, if any
    var up := if s.Some? then s else t;
    assert Ascend(fs, x) == up;
    var xc := [x] + C;
    if c.Some? {
      WalkSteps(fs, c, Some(x));
      assert Steps(fs, [x], Some(C[0]));
      StepsJoin(fs, [x], C, up);
    } else {
      assert C == [] && xc == [x];
    }
    assert Steps(fs, xc, up);
    assert PreOrder(fs, f) == xc + S;
    if s.Some? {
      WalkSteps(fs, s, par);
      StepsJoin(fs, xc, S, t);
    } else {
      assert S == [] && xc + S == xc;
    }
  }

  /** From a root with no parent and no sibling, following the next unit
      visits the root's tree in pre-order and then gives null. */
  lemma WalkFromRoot(fs: seq<Fiber>, r: nat)
    requires WF(fs) && TreeLinks(fs) && r < |fs| && fs[r].parent.None? && fs[r].sibling.None?
    ensures var p := PreOrder(fs, Some(r));
      && p[0] == r
      && (forall i :: 0 <= i < |p| - 1 ==> NextUnit(fs, p[i]) == Some(p[i + 1]))
      && NextUnit(fs, p[|p| - 1]).None?
  {
    WalkSteps(fs, Some(r), None);
  }

  /** The fibers met following `parent` links from `p`, `p` first. */
  function Climb(fs: seq<Fiber>, p: Option<nat>): (r: seq<nat>)
    requires WF(fs) && In(p, |fs|)
    decreases if p.Some? then p.value + 1 else 0
  {
    if p.None? then []
    else
      assert LinkOk(fs, p.value);
      [p.value] + Climb(fs, fs[p.value].parent)
  }

  /** `b` ends with `a`. */
  predicate EndsWith(b: seq<nat>, a: seq<nat>) {
    |a| <= |b| && b[|b| - |a|..] == a
  }

  /** The `parent` chain climbs to ever older fibers. */
  lemma {:induction false} ClimbBelow(fs: seq<Fiber>, p: Option<nat>)
    requires WF(fs) && In(p, |fs|)
    ensures forall i :: 0 <= i < |Climb(fs, p)| ==> Climb(fs, p)[i] <= p.value
    decreases if p.Some? then p.value + 1 else 0
  {
    if p.Some? {
      assert LinkOk(fs, p.value);
      ClimbBelow(fs, fs[p.value].parent);
    }
  }

  /** A climb that ends with `[x] + v` and passes only fibers from `c` on
      before it, where `x < c`, ends with `v` and passes only fibers from `x`
      on before it. */
  lemma EndsThrough(u: seq<nat>, ux: seq<nat>, v: seq<nat>, x: nat, c: nat)
    requires EndsWith(u, ux) && ux == [x] + v && x < c
    requires forall i :: 0 <= i < |u| - |ux| ==> c <= u[i]
    ensures EndsWith(u, v) && forall i :: 0 <= i < |u| - |v| ==> x <= u[i]
  {
    assert u[|u| - |v|..] == u[|u| - |ux|..][1..];
    assert u[|u| - |ux|] == x;
  }

  /** Climbing from a fiber reached from `f` passes only fibers reached from
      `f` before joining the climb from `par`. */
  lemma {:induction false} ClimbOf(fs: seq<Fiber>, f: Option<nat>, par: Option<nat>, y: nat)
    requires WF(fs) && TreeLinks(fs) && f.Some? && f.value < |fs| && In(par, |fs|)
    requires fs[f.value].parent == par && y in PreOrder(fs, f)
    ensures y < |fs|
    ensures var u := Climb(fs, Some(y)); var v := Climb(fs, par);
      EndsWith(u, v) && forall i :: 0 <= i < |u| - |v| ==> f.value <= u[i]
    decreases |fs| - f.value
  {
    var x := f.value;
    assert LinkOk(fs, x) && LinksBack(fs, x);
    var c, s := fs[x].child, fs[x].sibling;
    PreOrderStep(fs, x);
    ClimbStep(fs, x);
    var v := Climb(fs, par);
    if y == x {
    } else if y in PreOrder(fs, c) {
      ClimbOf(fs, c, Some(x), y);
      EndsThrough(Climb(fs, Some(y)), Climb(fs, Some(x)), v, x, c.value);
    } else {
      ClimbOf(fs, s, par, y);
    }
  }

  lemma PreOrderStep(fs: seq<Fiber>, x: nat)
    requires WF(fs) && x < |fs| && LinkOk(fs, x)
    ensures var p := PreOrder(fs, Some(x)); var c := PreOrder(fs, fs[x].child); var s := PreOrder(fs, fs[x].sibling);
      p == [x] + c + s
  {
  }

  lemma ClimbStep(fs: seq<Fiber>, x: nat)
    requires WF(fs) && x < |fs| && LinkOk(fs, x)
    ensures Climb(fs, Some(x)) == [x] + Climb(fs, fs[x].parent)
  {
  }

  /** No fiber appears twice. */
  predicate Distinct(p: seq<nat>) {
    forall i, j :: 0 <= i < j < |p| ==> p[i] != p[j]
  }

  /** A fiber below `x`'s child climbs through `x`; one below its sibling
      does not. */
  lemma {:induction false} ChildAndSiblingApart(fs: seq<Fiber>, x: nat, y: nat)
    requires WF(fs) && TreeLinks(fs) && x < |fs| && LinkOk(fs, x)
    ensures y in PreOrder(fs, fs[x].child) ==> x in Climb(fs, Some(y))
    ensures y in PreOrder(fs, fs[x].sibling) ==> x !in Climb(fs, Some(y))
  {
    assert LinksBack(fs, x);
    var par := fs[x].parent;
    var v := Climb(fs, par);
    if y in PreOrder(fs, fs[x].child) {
      ClimbOf(fs, fs[x].child, Some(x), y);
      var u := Climb(fs, Some(y));
      var ux := Climb(fs, Some(x));
      assert u[|u| - |ux|] == ux[0] == x;
    }
    if y in PreOrder(fs, fs[x].sibling) {
      var s := fs[x].sibling.value;
      ClimbOf(fs, fs[x].sibling, par, y);
      ClimbBelow(fs, par);
      var u := Climb(fs, Some(y));
      forall i | 0 <= i < |u| ensures u[i] != x {
        if i >= |u| - |v| {
          assert u[i] == v[i - (|u| - |v|)];
        }
      }
    }
  }

  /** Pre-order lists each reachable fiber once. */
  lemma {:induction false} PreOrderDistinct(fs: seq<Fiber>, f: Option<nat>)
    requires WF(fs) && TreeLinks(fs) && In(f, |fs|)
    ensures Distinct(PreOrder(fs, f))
    decreases if f.Some? then |fs| - f.value else 0
  {
    if f.Some? {
      var x := f.value;
      assert LinkOk(fs, x);
      var C, S := PreOrder(fs, fs[x].child), PreOrder(fs, fs[x].sibling);
      PreOrderDistinct(fs, fs[x].child);
      PreOrderDistinct(fs, fs[x].sibling);
      var p := [x] + C + S;
      assert PreOrder(fs, f) == p;
      forall i, j | 0 <= i < j < |p| ensures p[i] != p[j] {
        if i == 0 {
          assert p[j] in C || p[j] in S;
        } else if j <= |C| {
          assert p[i] == C[i - 1] && p[j] == C[j - 1];
        } else if i > |C| {
          assert p[i] == S[i - 1 - |C|] && p[j] == S[j - 1 - |C|];
        } else {
          assert p[i] in C && p[j] in S;
          ChildAndSiblingApart(fs, x, p[i]);
          ChildAndSiblingApart(fs, x, p[j]);
        }
      }
    }
  }

  /** On a fixed tree, the walk from a root visits every fiber reachable from
      it by `child` and `sibling` links exactly once, in pre-order, and then
      stops. */
  lemma VisitsEachOnce(fs: seq<Fiber>, r: nat)
    requires WF(fs) && TreeLinks(fs) && r < |fs| && fs[r].parent.None? && fs[r].sibling.None?
    ensures var p := PreOrder(fs, Some(r));
      && p[0] == r && Distinct(p)
      && (forall i :: 0 <= i < |p| - 1 ==> NextUnit(fs, p[i]) == Some(p[i + 1]))
      && NextUnit(fs, p[|p| - 1]).None?
  {
    WalkFromRoot(fs, r);
    PreOrderDistinct(fs, Some(r));
  }

  /** Outside js/index.jsx, `commitWork` visits the fibers in the same order
      as the render walk: the pre-order of the tree below the fiber. */
  lemma {:induction false} CommitVisitsPreOrder(v: Variant, fs: seq<Fiber>, f: Option<nat>)
    requires WF(fs) && In(f, |fs|) && v != Jsx
    ensures Commit.Visits(v, fs, f) == PreOrder(fs, f)
    decreases if f.Some? then |fs| - f.value else 0
  {
    if f.Some? {
      var x := f.value;
      assert LinkOk(fs, x);
      CommitVisitsPreOrder(v, fs, fs[x].child);
      CommitVisitsPreOrder(v, fs, fs[x].sibling);
    }
  }
}

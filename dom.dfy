/** The host rendering primitives, modelled as an output tree plus a log of the
    calls the reconciler made. The tree is an arena of native nodes indexed by id. */
module HostDom {
  import opened Base
  import opened Elements

  type NodeId = nat

  /** A native node: text or element (with its tag), the properties assigned to
      it, its registered (event type, handler) listeners, and its children. */
  datatype Node = Node(text: bool, tag: string, props: map<string, Value>,
                       listeners: set<(string, Value)>, children: seq<NodeId>)

  /** One call into the host. A creation call names the id its node receives. */
  datatype Call =
    | CreateElement(node: NodeId, tag: string)
    | CreateTextNode(node: NodeId)
    | SetProp(node: NodeId, name: string, value: Value)
    | AddListener(node: NodeId, event: string, handler: Value)
    | RemoveListener(node: NodeId, event: string, handler: Value)
    | AppendChild(node: NodeId, child: NodeId)
    | RemoveChild(node: NodeId, child: NodeId)

  /** The output tree and the log of every host call that succeeded. */
  datatype Dom = Dom(nodes: seq<Node>, log: seq<Call>)

  /** The host after a run of calls, and whether every call returned normally
      (`ok == false`: the last attempted call threw, and the calls after it were
      never made). */
  datatype Outcome = Outcome(dom: Dom, ok: bool)

  /** `s` with every occurrence of `c` taken out. */
  function Without(s: seq<NodeId>, c: NodeId): (r: seq<NodeId>)
    ensures forall x :: x in r <==> x in s && x != c
  {
    if |s| == 0 then [] else (if s[0] == c then [] else [s[0]]) + Without(s[1..], c)
  }

  /** Every node with `c` removed from its children. */
  function Detach(nodes: seq<Node>, c: NodeId): (r: seq<Node>)
    ensures |r| == |nodes|
    ensures forall i :: 0 <= i < |nodes| ==> r[i] == nodes[i].(children := Without(nodes[i].children, c))
  {
    seq(|nodes|, i requires 0 <= i < |nodes| => nodes[i].(children := Without(nodes[i].children, c)))
  }

  /** The effect of a property or listener call on the node it targets. */
  function ApplyToNode(d: Node, c: Call): Node
    requires c.SetProp? || c.AddListener? || c.RemoveListener?
  {
    match c
    case SetProp(_, k, v) => d.(props := d.props[k := v])
    case AddListener(_, e, f) => d.(listeners := d.listeners + {(e, f)})
    case RemoveListener(_, e, f) => d.(listeners := d.listeners - {(e, f)})
  }

  /** Makes one host call. None when the host throws: a node id that names no
      node, `appendChild` of a node into itself (HierarchyRequestError), or
      `removeChild` of a node that is not a child (NotFoundError). Adding a
      listener that is already registered changes nothing, as in the DOM. */
  function Apply(h: Dom, c: Call): (r: Option<Dom>)
    ensures r.Some? ==> r.value.log == h.log + [c] && |r.value.nodes| >= |h.nodes|
  {
    var ns := h.nodes;
    match c
    case CreateElement(n, tag) =>
      if n == |ns| then Some(Dom(ns + [Node(false, tag, map[], {}, [])], h.log + [c])) else None
    case CreateTextNode(n) =>
      if n == |ns| then Some(Dom(ns + [Node(true, "", map[], {}, [])], h.log + [c])) else None
    case SetProp(n, _, _) =>
      if n < |ns| then Some(Dom(ns[n := ApplyToNode(ns[n], c)], h.log + [c])) else None
    case AddListener(n, _, _) =>
      if n < |ns| then Some(Dom(ns[n := ApplyToNode(ns[n], c)], h.log + [c])) else None
    case RemoveListener(n, _, _) =>
      if n < |ns| then Some(Dom(ns[n := ApplyToNode(ns[n], c)], h.log + [c])) else None
    case AppendChild(p, ch) =>
      if p < |ns| && ch < |ns| && p != ch then
        var d := Detach(ns, ch);
        Some(Dom(d[p := d[p].(children := d[p].children + [ch])], h.log + [c]))
      else None
    case RemoveChild(p, ch) =>
      if p < |ns| && ch in ns[p].children then
        Some(Dom(ns[p := ns[p].(children := Without(ns[p].children, ch))], h.log + [c]))
      else None
  }

  /** Makes the calls in order, stopping at the first that throws. */
  function ApplyAll(h: Dom, calls: seq<Call>): (r: Outcome)
    ensures r.ok ==> r.dom.log == h.log + calls
    decreases |calls|
  {
    if |calls| == 0 then Outcome(h, true)
    else match Apply(h, calls[0])
      case None => Outcome(h, false)
      case Some(h1) =>
        var r := ApplyAll(h1, calls[1..]);
        assert r.ok ==> r.dom.log == h.log + [calls[0]] + calls[1..];
        assert [calls[0]] + calls[1..] == calls;
        r
  }

  /** Property and listener calls aimed at one existing node. */
  predicate NodeCalls(calls: seq<Call>, n: NodeId) {
    forall i :: 0 <= i < |calls| ==>
      (calls[i].SetProp? || calls[i].AddListener? || calls[i].RemoveListener?) && calls[i].node == n
  }

  /** The node after a run of property and listener calls. */
  function ApplyAllToNode(d: Node, calls: seq<Call>): Node
    requires forall i :: 0 <= i < |calls| ==> calls[i].SetProp? || calls[i].AddListener? || calls[i].RemoveListener?
    decreases |calls|
  {
    if |calls| == 0 then d else ApplyAllToNode(ApplyToNode(d, calls[0]), calls[1..])
  }

  /** Property and listener calls on an existing node never throw, touch only
      that node, and leave it as `ApplyAllToNode` says. */
  lemma {:induction false} NodeCallsSucceed(h: Dom, calls: seq<Call>, n: NodeId)
    requires n < |h.nodes| && NodeCalls(calls, n)
    ensures ApplyAll(h, calls).ok
    ensures ApplyAll(h, calls).dom.nodes == h.nodes[n := ApplyAllToNode(h.nodes[n], calls)]
    decreases |calls|
  {
    if |calls| > 0 {
      var h1 := Apply(h, calls[0]).value;
      assert h1.nodes == h.nodes[n := ApplyToNode(h.nodes[n], calls[0])];
      assert NodeCalls(calls[1..], n) by {
        forall i | 0 <= i < |calls[1..]| ensures calls[1..][i] == calls[i + 1] { }
      }
      NodeCallsSucceed(h1, calls[1..], n);
    }
  }

  /** Running two batches of calls is running their concatenation. */
  lemma {:induction false} ApplyAllAppend(h: Dom, a: seq<Call>, b: seq<Call>)
    ensures ApplyAll(h, a + b) ==
      (var r := ApplyAll(h, a); if r.ok then ApplyAll(r.dom, b) else r)
    decreases |a|
  {
    if |a| > 0 {
      assert (a + b)[0] == a[0] && (a + b)[1..] == a[1..] + b;
      match Apply(h, a[0])
      case None =>
      case Some(h1) => ApplyAllAppend(h1, a[1..], b);
    } else {
      assert a + b == b;
    }
  }
}

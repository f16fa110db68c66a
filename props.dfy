/** The property diff: `updateDom` and the property set-up of `createDom`, as
    the sequence of host calls each variant makes. Every pass is
    `Object.keys(obj).filter(...).forEach(call)`. */
module PropDiff {
  import opened Base
  import opened Elements
  import opened HostDom

  /** `isEvent`: the key starts with "on". */
  predicate IsEvent(key: string) {
    |key| >= 2 && key[..2] == "on"
  }

  /** `isProperty`: neither `children` nor an event key. */
  predicate IsProperty(key: string) {
    key != "children" && !IsEvent(key)
  }

  /** `isNew(prev, next)(key)`: `prev[key] !== next[key]`. */
  predicate IsNew(prev: seq<Prop>, next: seq<Prop>, key: string) {
    Get(prev, key) != Get(next, key)
  }

  /** `isGone(prev, next)(key)`: `!(key in next)`. */
  predicate IsGone(next: seq<Prop>, key: string) {
    !Has(next, key)
  }

  function LowerChar(c: char): char {
    if 'A' <= c <= 'Z' then (c as int + 32) as char else c
  }

  /** `toLowerCase` on the ASCII letters. */
  function ToLower(s: string): (r: string)
    ensures |r| == |s|
    ensures forall i :: 0 <= i < |s| ==> r[i] == LowerChar(s[i])
  {
    if |s| == 0 then "" else [LowerChar(s[0])] + ToLower(s[1..])
  }

  /** `key.toLowerCase().substring(2)`: the native event type of a handler key. */
  function EventType(key: string): (r: string)
    ensures |key| >= 2 ==> |r| == |key| - 2 && forall i :: 0 <= i < |r| ==> r[i] == LowerChar(key[i + 2])
  {
    var l := ToLower(key);
    if |l| >= 2 then l[2..] else ""
  }

  /** One filter-and-call pass over the keys of an object. */
  datatype Pass =
    | ClearGone         // properties of prev missing from next: set to ""
    | Unsubscribe       // handlers of prev gone or changed: removeEventListener
    | AssignChanged     // properties of next that differ from prev: assign
    | SubscribeAll      // every handler of next: addEventListener
    | SubscribeChanged  // handlers of next that differ from prev: addEventListener
    | CopyAll           // every key but children: assign as a plain property

  /** The filter of a pass. */
  predicate Selects(pass: Pass, key: string, prev: seq<Prop>, next: seq<Prop>) {
    match pass
    case ClearGone => IsProperty(key) && IsGone(next, key)
    case Unsubscribe => IsEvent(key) && (IsGone(next, key) || IsNew(prev, next, key))
    case AssignChanged => IsProperty(key) && IsNew(prev, next, key)
    case SubscribeAll => IsEvent(key)
    case SubscribeChanged => IsEvent(key) && IsNew(prev, next, key)
    case CopyAll => key != "children"
  }

  /** The host call a pass makes for a key it keeps, with the value the walked
      object holds under that key. */
  function CallFor(pass: Pass, node: NodeId, p: Prop): Call {
    match pass
    case ClearGone => SetProp(node, p.key, Str(""))
    case Unsubscribe => RemoveListener(node, EventType(p.key), p.value)
    case AssignChanged => SetProp(node, p.key, p.value)
    case SubscribeAll => AddListener(node, EventType(p.key), p.value)
    case SubscribeChanged => AddListener(node, EventType(p.key), p.value)
    case CopyAll => SetProp(node, p.key, p.value)
  }

  /** The calls of one pass over the entries `rest` of the walked object. */
  function Walk(pass: Pass, node: NodeId, rest: seq<Prop>, prev: seq<Prop>, next: seq<Prop>): (r: seq<Call>)
    ensures NodeCalls(r, node)
    decreases |rest|
  {
    if |rest| == 0 then []
    else
      (if Selects(pass, rest[0].key, prev, next) then [CallFor(pass, node, rest[0])] else [])
      + Walk(pass, node, rest[1..], prev, next)
  }

  /** `updateDom(dom, prev, next)`. js/index.jsx clears gone properties, drops
      gone or changed handlers, assigns changed properties and then adds EVERY
      handler of next; ts/index.ts, index.ts and index.js drop gone or changed
      handlers, add only new or changed ones, then clear and assign properties. */
  function UpdateDom(v: Variant, node: NodeId, prev: seq<Prop>, next: seq<Prop>): (r: seq<Call>)
    ensures NodeCalls(r, node)
  {
    if v == Jsx then
      Walk(ClearGone, node, prev, prev, next) + Walk(Unsubscribe, node, prev, prev, next)
      + Walk(AssignChanged, node, next, prev, next) + Walk(SubscribeAll, node, next, prev, next)
    else
      Walk(Unsubscribe, node, prev, prev, next) + Walk(SubscribeChanged, node, next, prev, next)
      + Walk(ClearGone, node, prev, prev, next) + Walk(AssignChanged, node, next, prev, next)
  }

  /** The property set-up `createDom` performs on a fresh node: js/index.jsx runs
      `updateDom(dom, {}, props)`; the other variants copy every key except
      `children` as a plain property, handlers included. */
  function InitProps(v: Variant, node: NodeId, props: seq<Prop>): (r: seq<Call>)
    ensures NodeCalls(r, node)
  {
    if v == Jsx then UpdateDom(Jsx, node, [], props) else Walk(CopyAll, node, props, [], props)
  }

  // ---------------------------------------------------------------------------
  // What a pass does

  /** A call is made by a pass exactly when some entry of the walked object is
      kept by the filter and the call is the one made for that entry, in the
      order of the entries. */
  lemma {:induction false} WalkMembers(pass: Pass, node: NodeId, rest: seq<Prop>, prev: seq<Prop>, next: seq<Prop>, c: Call)
    ensures c in Walk(pass, node, rest, prev, next) <==>
      exists i :: 0 <= i < |rest| && Selects(pass, rest[i].key, prev, next) && c == CallFor(pass, node, rest[i])
    decreases |rest|
  {
    if |rest| > 0 {
      WalkMembers(pass, node, rest[1..], prev, next, c);
      if c in Walk(pass, node, rest[1..], prev, next) {
        var i :| 0 <= i < |rest[1..]| && Selects(pass, rest[1..][i].key, prev, next) && c == CallFor(pass, node, rest[1..][i]);
        assert rest[i + 1] == rest[1..][i];
      }
      if exists i :: 0 <= i < |rest| && Selects(pass, rest[i].key, prev, next) && c == CallFor(pass, node, rest[i]) {
        var i :| 0 <= i < |rest| && Selects(pass, rest[i].key, prev, next) && c == CallFor(pass, node, rest[i]);
        if i > 0 {
          assert rest[1..][i - 1] == rest[i];
        }
      }
    }
  }

  /** A pass whose filter keeps no entry makes no call. */
  lemma {:induction false} WalkNone(pass: Pass, node: NodeId, rest: seq<Prop>, prev: seq<Prop>, next: seq<Prop>)
    requires forall i :: 0 <= i < |rest| ==> !Selects(pass, rest[i].key, prev, next)
    ensures Walk(pass, node, rest, prev, next) == []
    decreases |rest|
  {
    if |rest| > 0 {
      assert forall i :: 0 <= i < |rest[1..]| ==> rest[1..][i] == rest[i + 1];
      WalkNone(pass, node, rest[1..], prev, next);
    }
  }

  /** Every key of an object is in it. */
  lemma {:induction false} OwnKeys(props: seq<Prop>, i: nat)
    requires i < |props|
    ensures Has(props, props[i].key)
    decreases i
  {
    if i > 0 && props[0].key != props[i].key {
      OwnKeys(props[1..], i - 1);
    }
  }

  /** With identical props, the ts/index.ts, index.ts and index.js `updateDom`
      makes no call at all. */
  lemma UpdateDomSameIsSilent(v: Variant, node: NodeId, props: seq<Prop>)
    requires v != Jsx
    ensures UpdateDom(v, node, props, props) == []
  {
    forall i | 0 <= i < |props| ensures Has(props, props[i].key) {
      OwnKeys(props, i);
    }
    WalkNone(Unsubscribe, node, props, props, props);
    WalkNone(SubscribeChanged, node, props, props, props);
    WalkNone(ClearGone, node, props, props, props);
    WalkNone(AssignChanged, node, props, props, props);
  }

  /** With identical props, the js/index.jsx `updateDom` still adds every
      handler again (and makes no other call). */
  lemma UpdateDomSameResubscribes(node: NodeId, props: seq<Prop>)
    ensures UpdateDom(Jsx, node, props, props) == Walk(SubscribeAll, node, props, props, props)
    ensures forall i :: 0 <= i < |props| && IsEvent(props[i].key) ==>
      AddListener(node, EventType(props[i].key), props[i].value) in UpdateDom(Jsx, node, props, props)
  {
    forall i | 0 <= i < |props| ensures Has(props, props[i].key) {
      OwnKeys(props, i);
    }
    WalkNone(ClearGone, node, props, props, props);
    WalkNone(Unsubscribe, node, props, props, props);
    WalkNone(AssignChanged, node, props, props, props);
    forall i | 0 <= i < |props| && IsEvent(props[i].key)
      ensures AddListener(node, EventType(props[i].key), props[i].value) in UpdateDom(Jsx, node, props, props)
    {
      WalkMembers(SubscribeAll, node, props, props, props, AddListener(node, EventType(props[i].key), props[i].value));
    }
  }

  /** The position of a call in the index.ts / ts/index.ts / index.js order:
      listener removals, then listener additions, then property writes. */
  function Rank(c: Call): nat {
    if c.RemoveListener? then 0 else if c.AddListener? then 1 else 2
  }

  /** The kind of call a pass makes. */
  predicate Makes(pass: Pass, c: Call) {
    match pass
    case ClearGone => c.SetProp? && c.value == Str("")
    case Unsubscribe => c.RemoveListener?
    case AssignChanged => c.SetProp?
    case SubscribeAll => c.AddListener?
    case SubscribeChanged => c.AddListener?
    case CopyAll => c.SetProp?
  }

  lemma {:induction false} WalkMakes(pass: Pass, node: NodeId, rest: seq<Prop>, prev: seq<Prop>, next: seq<Prop>)
    ensures forall i :: 0 <= i < |Walk(pass, node, rest, prev, next)| ==> Makes(pass, Walk(pass, node, rest, prev, next)[i])
    decreases |rest|
  {
    if |rest| > 0 {
      WalkMakes(pass, node, rest[1..], prev, next);
    }
  }

  /** The order of the passes. In ts/index.ts, index.ts and index.js every
      listener removal precedes every listener addition, which precedes every
      property write; in js/index.jsx the listener additions come last. */
  lemma UpdateDomOrder(v: Variant, node: NodeId, prev: seq<Prop>, next: seq<Prop>)
    ensures var r := UpdateDom(v, node, prev, next);
      forall i, j :: 0 <= i < j < |r| ==>
        if v == Jsx then (r[i].AddListener? ==> r[j].AddListener?) else Rank(r[i]) <= Rank(r[j])
  {
    WalkMakes(ClearGone, node, prev, prev, next);
    WalkMakes(Unsubscribe, node, prev, prev, next);
    WalkMakes(AssignChanged, node, next, prev, next);
    WalkMakes(SubscribeAll, node, next, prev, next);
    WalkMakes(SubscribeChanged, node, next, prev, next);
  }

  /** What each pass of `updateDom` makes a call for. */
  predicate Cleared(node: NodeId, prev: seq<Prop>, next: seq<Prop>, c: Call) {
    exists i :: 0 <= i < |prev| && IsProperty(prev[i].key) && !Has(next, prev[i].key)
      && c == SetProp(node, prev[i].key, Str(""))
  }

  predicate Removed(node: NodeId, prev: seq<Prop>, next: seq<Prop>, c: Call) {
    exists i :: 0 <= i < |prev| && IsEvent(prev[i].key) && (!Has(next, prev[i].key) || IsNew(prev, next, prev[i].key))
      && c == RemoveListener(node, EventType(prev[i].key), prev[i].value)
  }

  predicate Assigned(node: NodeId, prev: seq<Prop>, next: seq<Prop>, c: Call) {
    exists i :: 0 <= i < |next| && IsProperty(next[i].key) && IsNew(prev, next, next[i].key)
      && c == SetProp(node, next[i].key, next[i].value)
  }

  predicate Added(node: NodeId, prev: seq<Prop>, next: seq<Prop>, c: Call, all: bool) {
    exists i :: 0 <= i < |next| && IsEvent(next[i].key) && (all || IsNew(prev, next, next[i].key))
      && c == AddListener(node, EventType(next[i].key), next[i].value)
  }

  lemma ClearGoneCalls(node: NodeId, prev: seq<Prop>, next: seq<Prop>, c: Call)
    ensures c in Walk(ClearGone, node, prev, prev, next) <==> Cleared(node, prev, next, c)
  {
    WalkMembers(ClearGone, node, prev, prev, next, c);
  }

  lemma UnsubscribeCalls(node: NodeId, prev: seq<Prop>, next: seq<Prop>, c: Call)
    ensures c in Walk(Unsubscribe, node, prev, prev, next) <==> Removed(node, prev, next, c)
  {
    WalkMembers(Unsubscribe, node, prev, prev, next, c);
  }

  lemma AssignChangedCalls(node: NodeId, prev: seq<Prop>, next: seq<Prop>, c: Call)
    ensures c in Walk(AssignChanged, node, next, prev, next) <==> Assigned(node, prev, next, c)
  {
    WalkMembers(AssignChanged, node, next, prev, next, c);
  }

  lemma SubscribeCalls(v: Variant, node: NodeId, prev: seq<Prop>, next: seq<Prop>, c: Call)
    ensures c in Walk(if v == Jsx then SubscribeAll else SubscribeChanged, node, next, prev, next)
            <==> Added(node, prev, next, c, v == Jsx)
  {
    WalkMembers(if v == Jsx then SubscribeAll else SubscribeChanged, node, next, prev, next, c);
  }

  /** The `updateDom` rules: a call is made exactly for an old property gone
      from next (cleared to ""), an old handler gone or changed (removed), a
      property whose value changed (assigned), and a handler of next (added:
      every one in js/index.jsx, only new or changed ones elsewhere). */
  lemma UpdateDomCalls(v: Variant, node: NodeId, prev: seq<Prop>, next: seq<Prop>, c: Call)
    ensures c in UpdateDom(v, node, prev, next) <==>
      || Cleared(node, prev, next, c) || Removed(node, prev, next, c)
      || Assigned(node, prev, next, c) || Added(node, prev, next, c, v == Jsx)
  {
    ClearGoneCalls(node, prev, next, c);
    UnsubscribeCalls(node, prev, next, c);
    AssignChangedCalls(node, prev, next, c);
    SubscribeCalls(v, node, prev, next, c);
  }

  /** The set-up of a fresh node. js/index.jsx assigns every property and
      registers every handler; the other variants assign every key except
      `children` as a property, handlers included, and register nothing. */
  lemma InitPropsCalls(v: Variant, node: NodeId, props: seq<Prop>, c: Call)
    ensures c in InitProps(v, node, props) <==>
      if v == Jsx then
        || (exists i :: 0 <= i < |props| && IsProperty(props[i].key) && c == SetProp(node, props[i].key, props[i].value))
        || (exists i :: 0 <= i < |props| && IsEvent(props[i].key) && c == AddListener(node, EventType(props[i].key), props[i].value))
      else
        exists i :: 0 <= i < |props| && props[i].key != "children" && c == SetProp(node, props[i].key, props[i].value)
  {
    WalkMembers(CopyAll, node, props, [], props, c);
    if v == Jsx {
      forall i | 0 <= i < |props| ensures IsNew([], props, props[i].key) {
        OwnKeys(props, i);
      }
      UpdateDomCalls(Jsx, node, [], props, c);
      assert !Cleared(node, [], props, c) && !Removed(node, [], props, c);
    }
  }
}


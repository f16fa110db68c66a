/** The element model: immutable descriptions of the UI built by `createElement`. */
module Elements {
  import opened Base

  /** The `type` of an element or fiber. Text elements carry the reserved tag
      TEXT_ELEMENT; a component is a function, identified here by a number; a
      root fiber has no type at all. */
  datatype Kind = Host(tag: string) | Component(fn: nat) | NoType

  const TEXT_ELEMENT: string := "TEXT_ELEMENT"

  /** A property value. `Fn` is a function value (an event handler), compared by
      identity; `Nodes` is the array held under the `children` key. */
  datatype Value = Str(s: string) | Num(n: int) | Bool(b: bool) | Fn(id: nat) | Nodes(elements: seq<Element>)

  datatype Prop = Prop(key: string, value: Value)

  /** An element: its type and its props, in key order (`children` among them). */
  datatype Element = Element(kind: Kind, props: seq<Prop>)

  /** An argument passed as a child to `createElement`: an element object, or a
      primitive that becomes a text element. */
  datatype Child = Obj(element: Element) | Primitive(value: Value)

  /** `props[key]`: the value stored under `key`, or undefined. */
  function Get(props: seq<Prop>, key: string): (r: Option<Value>)
    ensures r.Some? ==> Prop(key, r.value) in props
  {
    if |props| == 0 then None
    else if props[0].key == key then Some(props[0].value)
    else Get(props[1..], key)
  }

  /** `key in props`. */
  predicate Has(props: seq<Prop>, key: string) {
    Get(props, key).Some?
  }

  /** `Object.keys(props)`. */
  function Keys(props: seq<Prop>): (r: seq<string>)
    ensures |r| == |props|
  {
    if |props| == 0 then [] else [props[0].key] + Keys(props[1..])
  }

  /** A JavaScript object never holds a key twice. */
  predicate DistinctKeys(props: seq<Prop>) {
    forall i, j :: 0 <= i < j < |props| ==> props[i].key != props[j].key
  }

  /** `createTextElement(text)`. */
  function CreateTextElement(text: Value): (e: Element)
    ensures e.kind == Host(TEXT_ELEMENT)
    ensures Keys(e.props) == ["nodeValue", "children"]
    ensures Get(e.props, "nodeValue") == Some(text) && Get(e.props, "children") == Some(Nodes([]))
  {
    Element(Host(TEXT_ELEMENT), [Prop("nodeValue", text), Prop("children", Nodes([]))])
  }

  /** `{...props, [key]: v}` (and `__assign({}, props, {[key]: v})`): an existing
      key keeps its position and takes the new value, a new key goes last. */
  function Assign(props: seq<Prop>, key: string, v: Value): (r: seq<Prop>)
    ensures Get(r, key) == Some(v)
  {
    if |props| == 0 then [Prop(key, v)]
    else if props[0].key == key then [Prop(key, v)] + props[1..]
    else [props[0]] + Assign(props[1..], key, v)
  }

  /** The merge leaves every other key's value alone. */
  lemma {:induction false} AssignKeepsOthers(props: seq<Prop>, key: string, v: Value, k: string)
    requires k != key
    ensures Get(Assign(props, key, v), k) == Get(props, k)
  {
    if |props| > 0 && props[0].key != key {
      AssignKeepsOthers(props[1..], key, v, k);
    }
  }

  /** The merge appends `key` to the key order only when it was absent. */
  lemma {:induction false} AssignKeyOrder(props: seq<Prop>, key: string, v: Value)
    ensures Keys(Assign(props, key, v)) == if Has(props, key) then Keys(props) else Keys(props) + [key]
  {
    if |props| == 0 {
    } else if props[0].key == key {
      assert ([Prop(key, v)] + props[1..])[1..] == props[1..];
    } else {
      AssignKeyOrder(props[1..], key, v);
      var rest := Assign(props[1..], key, v);
      assert ([props[0]] + rest)[1..] == rest;
    }
  }

  /** The element a child argument becomes: objects are kept, primitives are
      wrapped by `createTextElement`. */
  function ChildElement(c: Child): Element {
    match c
    case Obj(e) => e
    case Primitive(v) => CreateTextElement(v)
  }

  /** `createElement(type, props, ...children)`. */
  function CreateElement(kind: Kind, props: seq<Prop>, children: seq<Child>): (e: Element)
    ensures e.kind == kind
  {
    Element(kind, Assign(props, "children", Nodes(seq(|children|, i requires 0 <= i < |children| => ChildElement(children[i])))))
  }

  /** `createElement` keeps every passed prop except `children`, which it
      overrides with the children list, one element per argument, in order. */
  lemma CreateElementShape(kind: Kind, props: seq<Prop>, children: seq<Child>)
    ensures var e := CreateElement(kind, props, children);
      && (forall k :: k != "children" ==> Get(e.props, k) == Get(props, k))
      && Get(e.props, "children").Some?
      && var els := Get(e.props, "children").value;
      && els.Nodes?
      && |els.elements| == |children|
      && (forall i :: 0 <= i < |children| ==>
            els.elements[i] == if children[i].Obj? then children[i].element else CreateTextElement(children[i].value))
      && Keys(e.props) == (if Has(props, "children") then Keys(props) else Keys(props) + ["children"])
  {
    var kids := Nodes(seq(|children|, i requires 0 <= i < |children| => ChildElement(children[i])));
    AssignKeyOrder(props, "children", kids);
    forall k | k != "children" ensures Get(Assign(props, "children", kids), k) == Get(props, k) {
      AssignKeepsOthers(props, "children", kids, k);
    }
  }
}

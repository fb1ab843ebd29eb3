/**
 * The `convert` command: XML to JSON (one level, typed scalars, last write
 * wins) and JSON to XML (fully recursive, under a synthetic `root`), plus the
 * choice of direction from the two format arguments.
 */
module Converter {
  import opened Wrappers
  import opened Strings
  import opened Numbers
  import opened Xml
  import opened Json

  // ---------------------------------------------------------------------------
  // XML to JSON
  // ---------------------------------------------------------------------------

  /** A value of the result dictionary: a boxed `int`, `double`, `bool` or `string`. */
  datatype Scalar =
    | IntValue(int32: int)
    | DoubleValue(source: string)  // the double `double.TryParse` reads from `source`
    | BoolValue(truth: bool)
    | StringValue(text: string)

  /**
   * The type inference of the XML-to-JSON direction. `isDouble` stands for
   * `double.TryParse`, whose floating-point and culture rules are not modelled.
   */
  function Classify(text: string, isDouble: string -> bool): (r: Scalar)
    ensures r.IntValue? <==> ParseInt32(text).Some?
    ensures r.IntValue? ==> ParseInt32(text) == Some(r.int32) && InInt32Range(r.int32)
    ensures r.DoubleValue? <==> ParseInt32(text).None? && isDouble(text)
    ensures r.DoubleValue? ==> r.source == text
    ensures r.BoolValue? <==> ParseInt32(text).None? && !isDouble(text) && ParseBool(text).Some?
    ensures r.BoolValue? ==> ParseBool(text) == Some(r.truth)
    ensures r.StringValue? <==> ParseInt32(text).None? && !isDouble(text) && ParseBool(text).None?
    ensures r.StringValue? ==> r.text == text
  {
    match ParseInt32(text)
    case Some(n) => IntValue(n)
    case None =>
      if isDouble(text) then DoubleValue(text)
      else match ParseBool(text)
        case Some(b) => BoolValue(b)
        case None => StringValue(text)
  }

  /** The result dictionary: keys in insertion order, and the value of each key. */
  datatype Dict = Dict(keys: seq<string>, values: map<string, Scalar>)

  /** Each key listed once, and exactly the keys that have a value. */
  ghost predicate DictValid(d: Dict) {
    && (forall i, j :: 0 <= i < j < |d.keys| ==> d.keys[i] != d.keys[j])
    && (forall k :: k in d.values <==> k in d.keys)
  }

  /** `result[key] = value`: a new key goes last, an existing key keeps its place. */
  function Put(d: Dict, key: string, value: Scalar): (r: Dict)
    ensures key in r.values && r.values[key] == value
    ensures r.keys == d.keys || r.keys == d.keys + [key]
    ensures key in d.values ==> r.keys == d.keys
    ensures key !in d.values ==> r.keys == d.keys + [key]
    ensures forall k :: k != key ==>
      (k in r.values <==> k in d.values) && (k in d.values ==> r.values[k] == d.values[k])
  {
    Dict(if key in d.values then d.keys else d.keys + [key], d.values[key := value])
  }

  /** The value stored for one element child: its flattened `InnerText`, classified. */
  function Entry(isDouble: string -> bool): Element -> Scalar {
    e => Classify(InnerText(e), isDouble)
  }

  /** What one child node of the root does to the dictionary, given how an element's value is found. */
  function Step(d: Dict, n: Node, value: Element -> Scalar): Dict {
    match n
    case ElementNode(e) => Put(d, e.name, value(e))
    case _ => d
  }

  /** The dictionary after visiting `nodes` in order. */
  function Collect(nodes: seq<Node>, value: Element -> Scalar): Dict {
    if nodes == [] then Dict([], map[])
    else Step(Collect(nodes[..|nodes| - 1], value), nodes[|nodes| - 1], value)
  }

  /**
   * `ConvertXmlToJson` from the parsed document element on: one pass over the
   * root's child nodes that skips everything but elements and sets
   * `result[name]` to the classified `InnerText`.
   */
  method ConvertXmlToJson(root: Element, isDouble: string -> bool) returns (result: Dict)
    ensures result == Collect(root.children, Entry(isDouble))
  {
    var keys: seq<string> := [];
    var values: map<string, Scalar> := map[];
    var i := 0;
    while i < |root.children|
      invariant 0 <= i <= |root.children|
      invariant Dict(keys, values) == Collect(root.children[..i], Entry(isDouble))
    {
      var node := root.children[i];
      CollectPrefixStep(root.children, i, Entry(isDouble));
      if node.ElementNode? {
        var key := node.element.name;
        var value := InnerText(node.element);
        var stored: Scalar;
        var asInt := ParseInt32(value);
        if asInt.Some? {
          stored := IntValue(asInt.value);
        } else if isDouble(value) {
          stored := DoubleValue(value);
        } else {
          var asBool := ParseBool(value);
          if asBool.Some? {
            stored := BoolValue(asBool.value);
          } else {
            stored := StringValue(value);
          }
        }
        assert stored == Entry(isDouble)(node.element);
        if key !in values {
          keys := keys + [key];
        }
        values := values[key := stored];
      }
      i := i + 1;
    }
    assert root.children[..i] == root.children;
    result := Dict(keys, values);
  }

  lemma CollectPrefixStep(nodes: seq<Node>, i: nat, value: Element -> Scalar)
    requires i < |nodes|
    ensures Collect(nodes[..i + 1], value) == Step(Collect(nodes[..i], value), nodes[i], value)
  {
    assert nodes[..i + 1][..i] == nodes[..i];
  }

  predicate IsElementNamed(n: Node, name: string) {
    n.ElementNode? && n.element.name == name
  }

  /** Some child at an index below `bound` is an element with this name. */
  ghost predicate HasElementBefore(nodes: seq<Node>, name: string, bound: int) {
    exists i :: 0 <= i < |nodes| && i < bound && IsElementNamed(nodes[i], name)
  }

  /** `a` is the name of an element child that comes before every element child named `b`. */
  ghost predicate FirstSeenBefore(nodes: seq<Node>, a: string, b: string) {
    exists i :: 0 <= i < |nodes| && IsElementNamed(nodes[i], a) && !HasElementBefore(nodes, b, i + 1)
  }

  lemma PutValid(d: Dict, key: string, value: Scalar)
    requires DictValid(d)
    ensures DictValid(Put(d, key, value))
  {
  }

  /** The dictionary lists each key once, and exactly the keys that have a value. */
  lemma {:induction false} CollectValid(nodes: seq<Node>, value: Element -> Scalar)
    ensures DictValid(Collect(nodes, value))
  {
    if nodes != [] {
      var d := Collect(nodes[..|nodes| - 1], value);
      CollectValid(nodes[..|nodes| - 1], value);
      match nodes[|nodes| - 1]
      case ElementNode(e) => PutValid(d, e.name, value(e));
      case _ =>
    }
  }

  /** A key is present exactly when some element child has that name. */
  lemma {:induction false} CollectKeys(nodes: seq<Node>, value: Element -> Scalar, name: string)
    ensures name in Collect(nodes, value).values <==> HasElementBefore(nodes, name, |nodes|)
  {
    if nodes != [] {
      var m := |nodes| - 1;
      CollectKeys(nodes[..m], value, name);
      if HasElementBefore(nodes[..m], name, m) {
        var i :| 0 <= i < m && IsElementNamed(nodes[..m][i], name);
        assert IsElementNamed(nodes[i], name);
      }
      if HasElementBefore(nodes, name, |nodes|) && !IsElementNamed(nodes[m], name) {
        var i :| 0 <= i < |nodes| && IsElementNamed(nodes[i], name);
        assert nodes[..m][i] == nodes[i];
      }
    }
  }

  /**
   * Last write wins: the value of a key comes from the last element child of that name,
   * classified from its flattened `InnerText`.
   */
  lemma {:induction false} CollectLastWins(nodes: seq<Node>, value: Element -> Scalar, i: nat)
    requires i < |nodes| && nodes[i].ElementNode?
    requires forall j :: i < j < |nodes| ==> !IsElementNamed(nodes[j], nodes[i].element.name)
    ensures var e := nodes[i].element;
      && e.name in Collect(nodes, value).values
      && Collect(nodes, value).values[e.name] == value(e)
  {
    var m := |nodes| - 1;
    if i < m {
      assert forall j :: i < j < m ==> nodes[..m][j] == nodes[j];
      CollectLastWins(nodes[..m], value, i);
    }
  }

  /** Keys are ordered by the first element child that carries them. */
  lemma {:induction false} CollectOrder(nodes: seq<Node>, value: Element -> Scalar, a: nat, b: nat)
    requires a < b < |Collect(nodes, value).keys|
    ensures var keys := Collect(nodes, value).keys;
      FirstSeenBefore(nodes, keys[a], keys[b])
  {
    var m := |nodes| - 1;
    var prev := Collect(nodes[..m], value);
    var keys := Collect(nodes, value).keys;
    CollectValid(nodes[..m], value);
    if b < |prev.keys| {
      assert keys[a] == prev.keys[a] && keys[b] == prev.keys[b];
      CollectOrder(nodes[..m], value, a, b);
      var i :| 0 <= i < m && IsElementNamed(nodes[..m][i], keys[a]) && !HasElementBefore(nodes[..m], keys[b], i + 1);
      assert IsElementNamed(nodes[i], keys[a]);
      assert !HasElementBefore(nodes, keys[b], i + 1) by {
        forall j | 0 <= j < i + 1 ensures !IsElementNamed(nodes[j], keys[b]) {
          assert nodes[j] == nodes[..m][j];
        }
      }
    } else {
      // the key at `b` is new: it is the name of the last child and not in the prefix
      assert keys[b] == nodes[m].element.name && keys[b] !in prev.values;
      CollectKeys(nodes[..m], value, keys[b]);
      CollectKeys(nodes[..m], value, keys[a]);
      assert keys[a] in prev.values;
      var i :| 0 <= i < m && IsElementNamed(nodes[..m][i], keys[a]);
      assert IsElementNamed(nodes[i], keys[a]);
      assert !HasElementBefore(nodes, keys[b], i + 1) by {
        forall j | 0 <= j < i + 1 ensures !IsElementNamed(nodes[j], keys[b]) {
          assert nodes[j] == nodes[..m][j];
        }
      }
    }
  }

  /** A node that is not an element (text, comment, ...) changes nothing, wherever it stands. */
  lemma {:induction false} CollectSkipsNonElements(a: seq<Node>, n: Node, b: seq<Node>, value: Element -> Scalar)
    requires !n.ElementNode?
    ensures Collect(a + [n] + b, value) == Collect(a + b, value)
    decreases |b|
  {
    if b == [] {
      assert (a + [n] + b)[..|a|] == a;
      assert a + b == a;
    } else {
      var m := |b| - 1;
      assert (a + [n] + b)[..|a + [n] + b| - 1] == a + [n] + b[..m];
      assert (a + b)[..|a + b| - 1] == a + b[..m];
      CollectSkipsNonElements(a, n, b[..m], value);
    }
  }

  /** A root without element children yields the empty object. */
  lemma {:induction false} CollectWithoutElements(nodes: seq<Node>, value: Element -> Scalar)
    requires forall i :: 0 <= i < |nodes| ==> !nodes[i].ElementNode?
    ensures Collect(nodes, value) == Dict([], map[])
  {
    if nodes != [] {
      CollectWithoutElements(nodes[..|nodes| - 1], value);
    }
  }

  /** Element children with pairwise different names give one key each, in child order. */
  lemma {:induction false} CollectDistinct(nodes: seq<Node>, value: Element -> Scalar)
    requires forall i :: 0 <= i < |nodes| ==> nodes[i].ElementNode?
    requires forall i, j :: 0 <= i < j < |nodes| ==> nodes[i].element.name != nodes[j].element.name
    ensures var d := Collect(nodes, value);
      && |d.keys| == |nodes|
      && forall i :: 0 <= i < |nodes| ==>
           && d.keys[i] == nodes[i].element.name
           && d.keys[i] in d.values
           && d.values[d.keys[i]] == value(nodes[i].element)
  {
    if nodes != [] {
      var m := |nodes| - 1;
      var prefix := nodes[..m];
      var name := nodes[m].element.name;
      assert forall i :: 0 <= i < m ==> prefix[i] == nodes[i];
      CollectDistinct(prefix, value);
      assert !HasElementBefore(prefix, name, m) by {
        forall i | 0 <= i < m ensures !IsElementNamed(prefix[i], name) {
          assert prefix[i] == nodes[i];
        }
      }
      CollectKeys(prefix, value, name);
      var prev := Collect(prefix, value);
      var d := Collect(nodes, value);
      var v := value(nodes[m].element);
      assert d == Put(prev, name, v);
      assert d.keys == prev.keys + [name];
      CollectValid(prefix, value);
      CollectValid(nodes, value);
      forall i | 0 <= i < |nodes|
        ensures d.keys[i] == nodes[i].element.name
        ensures d.keys[i] in d.values && d.values[d.keys[i]] == value(nodes[i].element)
      {
        if i < m {
          assert d.keys[i] == prev.keys[i] == nodes[i].element.name;
          assert d.keys[i] != name;
          assert d.values[d.keys[i]] == prev.values[prev.keys[i]];
        }
      }
    }
  }

  // ---------------------------------------------------------------------------
  // JSON to XML
  // ---------------------------------------------------------------------------

  /** `AppendJsonToXml` applied to element `e`: what the element looks like afterwards. */
  function Fill(json: Json, e: Element): (r: Element)
    ensures r.name == e.name
    decreases json, 2
  {
    match json
    case Object(properties) => WithChildren(e, PropertyElements(json, |properties|))
    case Array(items) => WithChildren(e, ItemElements(json, |items|))
    case String(s) => WithInnerText(e, s)
    case Number(raw) => WithInnerText(e, raw)
    case Bool(b) => WithInnerText(e, BoolText(b))
    case Null => WithIsEmpty(e, true)
    case Undefined => e
  }

  /** A new element called `name`, filled from `json`. */
  function Build(json: Json, name: string): (r: Element)
    ensures r.name == name
    decreases json, 3
  {
    Fill(json, NewElement(name))
  }

  /** The child elements written for the first `k` properties of an object. */
  function PropertyElements(json: Json, k: nat): seq<Node>
    requires json.Object? && k <= |json.properties|
    decreases json, 1, k
  {
    if k == 0 then []
    else
      var p := json.properties[k - 1];
      PropertyElements(json, k - 1) + [ElementNode(Build(p.value, p.name))]
  }

  /** The `item` elements written for the first `k` items of an array. */
  function ItemElements(json: Json, k: nat): seq<Node>
    requires json.Array? && k <= |json.items|
    decreases json, 1, k
  {
    if k == 0 then [] else ItemElements(json, k - 1) + [ElementNode(Build(json.items[k - 1], "item"))]
  }

  /** Every property name in `json`, at any depth, is accepted by `CreateElement`. */
  predicate NamesAccepted(json: Json, isName: string -> bool)
    decreases json, 1
  {
    match json
    case Object(properties) => PropertiesAccepted(json, |properties|, isName)
    case Array(items) => ItemsAccepted(json, |items|, isName)
    case _ => true
  }

  /** The keys of the first `k` properties, and every name inside their values, are accepted. */
  predicate PropertiesAccepted(json: Json, k: nat, isName: string -> bool)
    requires json.Object? && k <= |json.properties|
    decreases json, 0, k
  {
    k == 0 ||
    (PropertiesAccepted(json, k - 1, isName) &&
     isName(json.properties[k - 1].name) && NamesAccepted(json.properties[k - 1].value, isName))
  }

  /** Every name inside the first `k` items is accepted. */
  predicate ItemsAccepted(json: Json, k: nat, isName: string -> bool)
    requires json.Array? && k <= |json.items|
    decreases json, 0, k
  {
    k == 0 || (ItemsAccepted(json, k - 1, isName) && NamesAccepted(json.items[k - 1], isName))
  }

  /** An object's names are accepted exactly when every key and every name inside every value is. */
  lemma {:induction false} PropertiesAcceptedAll(json: Json, k: nat, isName: string -> bool)
    requires json.Object? && k <= |json.properties|
    ensures PropertiesAccepted(json, k, isName) <==>
      forall i :: 0 <= i < k ==>
        isName(json.properties[i].name) && NamesAccepted(json.properties[i].value, isName)
  {
    if k > 0 {
      PropertiesAcceptedAll(json, k - 1, isName);
    }
  }

  /** An array's names are accepted exactly when the names inside every item are. */
  lemma {:induction false} ItemsAcceptedAll(json: Json, k: nat, isName: string -> bool)
    requires json.Array? && k <= |json.items|
    ensures ItemsAccepted(json, k, isName) <==> forall i :: 0 <= i < k ==> NamesAccepted(json.items[i], isName)
  {
    if k > 0 {
      ItemsAcceptedAll(json, k - 1, isName);
    }
  }

  /** A rejected property makes every longer prefix rejected. */
  lemma {:induction false} PropertyRejected(json: Json, i: nat, k: nat, isName: string -> bool)
    requires json.Object? && i < k <= |json.properties|
    requires !(isName(json.properties[i].name) && NamesAccepted(json.properties[i].value, isName))
    ensures !PropertiesAccepted(json, k, isName)
  {
    if i < k - 1 {
      PropertyRejected(json, i, k - 1, isName);
    }
  }

  /** A rejected item makes every longer prefix rejected. */
  lemma {:induction false} ItemRejected(json: Json, i: nat, k: nat, isName: string -> bool)
    requires json.Array? && i < k <= |json.items|
    requires !NamesAccepted(json.items[i], isName)
    ensures !ItemsAccepted(json, k, isName)
  {
    if i < k - 1 {
      ItemRejected(json, i, k - 1, isName);
    }
  }

  /**
   * `AppendJsonToXml`. `isName` stands for the name check of `CreateElement`,
   * whose failure (an exception) is reported as `ok == false`.
   */
  method AppendJsonToXml(json: Json, current: XmlElement, isName: string -> bool) returns (ok: bool)
    modifies current
    ensures ok == NamesAccepted(json, isName)
    ensures ok ==> current.Value() == Fill(json, old(current.Value()))
    decreases json, 1
  {
    match json {
      case Object(_) =>
        ok := AppendProperties(json, current, isName);
      case Array(_) =>
        ok := AppendItems(json, current, isName);
      case String(s) =>
        current.SetInnerText(s);
        ok := true;
      case Number(raw) =>
        current.SetInnerText(raw);
        ok := true;
      case Bool(b) =>
        current.SetInnerText(BoolText(b));
        ok := true;
      case Null =>
        current.SetIsEmpty(true);
        ok := true;
      case Undefined =>
        ok := true;
    }
  }

  /** The `Object` case: one child element per property, named after the key, in order. */
  method AppendProperties(json: Json, current: XmlElement, isName: string -> bool) returns (ok: bool)
    requires json.Object?
    modifies current
    ensures ok == NamesAccepted(json, isName)
    ensures ok ==> current.Value() == WithChildren(old(current.Value()), PropertyElements(json, |json.properties|))
    decreases json, 0, 1
  {
    var properties := json.properties;
    ghost var start := current.Value();
    var i := 0;
    while i < |properties|
      invariant 0 <= i <= |properties|
      invariant PropertiesAccepted(json, i, isName)
      invariant current.Value() == WithChildren(start, PropertyElements(json, i))
    {
      var propertyOk := AppendProperty(json, i, current, isName);
      if !propertyOk {
        PropertyRejected(json, i, |properties|, isName);
        return false;
      }
      var p := properties[i];
      var element := ElementNode(Build(p.value, p.name));
      assert PropertyElements(json, i + 1) == PropertyElements(json, i) + [element];
      WithChildrenStep(start, PropertyElements(json, i), element);
      i := i + 1;
    }
    assert NamesAccepted(json, isName);
    ok := true;
  }

  /** One pass of the object loop: create the element named after key `i`, fill it from the value, append it. */
  method AppendProperty(json: Json, i: nat, current: XmlElement, isName: string -> bool) returns (ok: bool)
    requires json.Object? && i < |json.properties|
    modifies current
    ensures var p := json.properties[i];
      ok == (isName(p.name) && NamesAccepted(p.value, isName))
    ensures var p := json.properties[i];
      ok ==> current.Value() == WithChild(old(current.Value()), ElementNode(Build(p.value, p.name)))
    ensures !ok ==> current.Value() == old(current.Value())
    decreases json, 0, 0
  {
    var property := json.properties[i];
    if !isName(property.name) {
      return false;
    }
    var child := new XmlElement(property.name);
    ok := AppendJsonToXml(property.value, child, isName);
    if ok {
      current.AppendChild(ElementNode(child.Value()));
    }
  }

  /** The `Array` case: one child element called `item` per array item, in order. */
  method AppendItems(json: Json, current: XmlElement, isName: string -> bool) returns (ok: bool)
    requires json.Array?
    modifies current
    ensures ok == NamesAccepted(json, isName)
    ensures ok ==> current.Value() == WithChildren(old(current.Value()), ItemElements(json, |json.items|))
    decreases json, 0, 1
  {
    var items := json.items;
    ghost var start := current.Value();
    var i := 0;
    while i < |items|
      invariant 0 <= i <= |items|
      invariant ItemsAccepted(json, i, isName)
      invariant current.Value() == WithChildren(start, ItemElements(json, i))
    {
      var itemOk := AppendItem(json, i, current, isName);
      if !itemOk {
        ItemRejected(json, i, |items|, isName);
        return false;
      }
      var element := ElementNode(Build(items[i], "item"));
      assert ItemElements(json, i + 1) == ItemElements(json, i) + [element];
      WithChildrenStep(start, ItemElements(json, i), element);
      i := i + 1;
    }
    assert NamesAccepted(json, isName);
    ok := true;
  }

  /** One pass of the array loop: create `item`, fill it from item `i`, append it. */
  method AppendItem(json: Json, i: nat, current: XmlElement, isName: string -> bool) returns (ok: bool)
    requires json.Array? && i < |json.items|
    modifies current
    ensures ok == NamesAccepted(json.items[i], isName)
    ensures ok ==> current.Value() == WithChild(old(current.Value()), ElementNode(Build(json.items[i], "item")))
    ensures !ok ==> current.Value() == old(current.Value())
    decreases json, 0, 0
  {
    var itemElement := new XmlElement("item");
    ok := AppendJsonToXml(json.items[i], itemElement, isName);
    if ok {
      current.AppendChild(ElementNode(itemElement.Value()));
    }
  }

  /** The concatenated scalar text of a JSON value, in document order: what `InnerText` sees. */
  function Flatten(json: Json): string
    decreases json, 1
  {
    match json
    case Object(properties) => PropertiesText(json, |properties|)
    case Array(items) => ItemsText(json, |items|)
    case String(s) => s
    case Number(raw) => raw
    case Bool(b) => BoolText(b)
    case Null => ""
    case Undefined => ""
  }

  function PropertiesText(json: Json, k: nat): string
    requires json.Object? && k <= |json.properties|
    decreases json, 0, k
  {
    if k == 0 then "" else PropertiesText(json, k - 1) + Flatten(json.properties[k - 1].value)
  }

  function ItemsText(json: Json, k: nat): string
    requires json.Array? && k <= |json.items|
    decreases json, 0, k
  {
    if k == 0 then "" else ItemsText(json, k - 1) + Flatten(json.items[k - 1])
  }

  lemma {:induction false} PropertyElementsAt(json: Json, k: nat)
    requires json.Object? && k <= |json.properties|
    ensures |PropertyElements(json, k)| == k
    ensures forall i :: 0 <= i < k ==>
      var p := json.properties[i];
      PropertyElements(json, k)[i] == ElementNode(Build(p.value, p.name))
  {
    if k > 0 {
      PropertyElementsAt(json, k - 1);
    }
  }

  lemma {:induction false} ItemElementsAt(json: Json, k: nat)
    requires json.Array? && k <= |json.items|
    ensures |ItemElements(json, k)| == k
    ensures forall i :: 0 <= i < k ==> ItemElements(json, k)[i] == ElementNode(Build(json.items[i], "item"))
  {
    if k > 0 {
      ItemElementsAt(json, k - 1);
    }
  }

  /** An object gives one child element per property, named by its key, in property order. */
  lemma BuildObjectShape(json: Json, name: string)
    requires json.Object?
    ensures var e := Build(json, name);
      && |e.children| == |json.properties|
      && (e.isEmpty <==> e.children == [])
      && forall i :: 0 <= i < |json.properties| ==>
           var p := json.properties[i];
           e.children[i] == ElementNode(Build(p.value, p.name))
  {
    var elements := PropertyElements(json, |json.properties|);
    PropertyElementsAt(json, |json.properties|);
    var e := Build(json, name);
    assert e == Fill(json, NewElement(name));
    assert e == WithChildren(NewElement(name), elements);
    assert e.children == elements;
  }

  /** An array gives one `item` child element per item, in item order. */
  lemma BuildArrayShape(json: Json, name: string)
    requires json.Array?
    ensures var e := Build(json, name);
      && |e.children| == |json.items|
      && (e.isEmpty <==> e.children == [])
      && forall i :: 0 <= i < |json.items| ==> e.children[i] == ElementNode(Build(json.items[i], "item"))
  {
    var elements := ItemElements(json, |json.items|);
    ItemElementsAt(json, |json.items|);
    var e := Build(json, name);
    assert e == Fill(json, NewElement(name));
    assert e == WithChildren(NewElement(name), elements);
    assert e.children == elements;
  }

  /**
   * A string, a number and a boolean give a single text child holding the string, the raw
   * number text and the lower-case boolean; null and undefined give a short-tag element
   * with no children at all.
   */
  lemma BuildScalarShape(json: Json, name: string)
    requires !json.Object? && !json.Array?
    ensures var e := Build(json, name);
      && (e.isEmpty <==> e.children == [])
      && (json.String? ==> e.children == [Text(json.text)])
      && (json.Number? ==> e.children == [Text(json.rawText)])
      && (json.Bool? ==> e.children == [Text(if json.truth then "true" else "false")])
      && (json.Null? || json.Undefined? ==> e.children == [])
  {
  }

  lemma {:induction false} PropertyElementsText(json: Json, k: nat)
    requires json.Object? && k <= |json.properties|
    ensures NodesText(PropertyElements(json, k)) == PropertiesText(json, k)
    decreases json, 0, k
  {
    if k > 0 {
      var p := json.properties[k - 1];
      var prefix := PropertyElements(json, k - 1);
      var last := ElementNode(Build(p.value, p.name));
      assert (prefix + [last])[..k - 1] == prefix by { PropertyElementsAt(json, k - 1); }
      PropertyElementsText(json, k - 1);
      BuildText(p.value, p.name);
    }
  }

  lemma {:induction false} ItemElementsText(json: Json, k: nat)
    requires json.Array? && k <= |json.items|
    ensures NodesText(ItemElements(json, k)) == ItemsText(json, k)
    decreases json, 0, k
  {
    if k > 0 {
      var prefix := ItemElements(json, k - 1);
      var last := ElementNode(Build(json.items[k - 1], "item"));
      assert (prefix + [last])[..k - 1] == prefix by { ItemElementsAt(json, k - 1); }
      ItemElementsText(json, k - 1);
      BuildText(json.items[k - 1], "item");
    }
  }

  /** Reading the written element's `InnerText` gives back the value's scalar text, in order. */
  lemma {:induction false} BuildText(json: Json, name: string)
    ensures InnerText(Build(json, name)) == Flatten(json)
    decreases json, 1
  {
    var e := Build(json, name);
    assert e == Fill(json, NewElement(name));
    InnerTextOfChildren(e);
    match json
    case Object(properties) =>
      assert e == WithChildren(NewElement(name), PropertyElements(json, |properties|));
      assert e.children == PropertyElements(json, |properties|);
      PropertyElementsText(json, |properties|);
      assert Flatten(json) == PropertiesText(json, |properties|);
    case Array(items) =>
      assert e == WithChildren(NewElement(name), ItemElements(json, |items|));
      assert e.children == ItemElements(json, |items|);
      ItemElementsText(json, |items|);
      assert Flatten(json) == ItemsText(json, |items|);
    case String(text) =>
    case Number(raw) =>
    case Bool(b) =>
    case Null =>
    case Undefined =>
  }

  /**
   * A JSON object whose keys differ, written to XML and read back: one key per property,
   * in property order, each holding the classified flattened text of its value.
   */
  lemma ObjectThroughXml(properties: seq<Property>, isDouble: string -> bool)
    requires forall i, j :: 0 <= i < j < |properties| ==> properties[i].name != properties[j].name
    ensures var d := Collect(Build(Object(properties), "root").children, Entry(isDouble));
      && |d.keys| == |properties|
      && forall i :: 0 <= i < |properties| ==>
           && d.keys[i] == properties[i].name
           && d.keys[i] in d.values
           && d.values[d.keys[i]] == Classify(Flatten(properties[i].value), isDouble)
  {
    var json := Object(properties);
    var children := Build(json, "root").children;
    BuildObjectShape(json, "root");
    CollectDistinct(children, Entry(isDouble));
    forall i | 0 <= i < |properties|
      ensures Entry(isDouble)(children[i].element) == Classify(Flatten(properties[i].value), isDouble)
    {
      BuildText(properties[i].value, properties[i].name);
    }
  }

  /**
   * What a scalar comes back as: a string that does not read as a number or a boolean
   * is unchanged, a boolean is unchanged, an Int32 number comes back as that integer,
   * and null comes back as the empty string.
   */
  lemma ScalarThroughXml(v: Json, isDouble: string -> bool)
    ensures var r := Classify(Flatten(v), isDouble);
      && (v.String? && Classify(v.text, isDouble).StringValue? ==> r == StringValue(v.text))
      && (v.Bool? && !isDouble(BoolText(v.truth)) ==> r == BoolValue(v.truth))
      && (forall n :: v == Number(Int32Text(n)) && InInt32Range(n) ==> r == IntValue(n))
      && (v.Null? && !isDouble("") ==> r == StringValue(""))
  {
    if v.Bool? {
      ParseBoolRoundTrip(v.truth);
      NumberOfBoolText(v.truth);
    }
    forall n | v == Number(Int32Text(n)) && InInt32Range(n) ensures Classify(Flatten(v), isDouble) == IntValue(n) {
      ParseInt32Text(n);
    }
    if v.Null? {
      assert ParseInt32("").None?;
      assert ParseBool("").None?;
    }
  }

  lemma NumberOfBoolText(b: bool)
    ensures ParseInt32(BoolText(b)).None?
  {
    var t := BoolText(b);
    assert forall i :: 0 <= i < |t| ==> !IsDigit(t[i]);
  }

  datatype ConvertError =
    | XmlParseError       // `XmlDocument.LoadXml` threw
    | JsonParseError      // `JsonDocument.Parse` threw
    | InvalidElementName  // `CreateElement` refused a property name
    | SerializationError  // `JsonSerializer.Serialize` refused a NaN or infinite double

  /** `ConvertJsonToXml` from the parsed JSON document on: the document element is a new `root`. */
  method ConvertJsonToXml(json: Json, isName: string -> bool) returns (r: Result<Element, ConvertError>)
    ensures r == if NamesAccepted(json, isName) then Ok(Build(json, "root")) else Err(InvalidElementName)
  {
    var root := new XmlElement("root");
    var ok := AppendJsonToXml(json, root, isName);
    if ok {
      r := Ok(root.Value());
    } else {
      r := Err(InvalidElementName);
    }
  }

  /** Two element children with the same name: one key, placed once, holding the second value. */
  lemma CollectRepeatedName(first: Element, second: Element, value: Element -> Scalar)
    requires first.name == second.name
    ensures Collect([ElementNode(first), ElementNode(second)], value)
         == Dict([first.name], map[first.name := value(second)])
  {
    var nodes := [ElementNode(first), ElementNode(second)];
    assert nodes[..1] == [ElementNode(first)];
    assert nodes[..1][..0] == [];
    var d := Collect(nodes[..1], value);
    assert Collect(nodes[..1][..0], value) == Dict([], map[]);
    assert d == Put(Dict([], map[]), first.name, value(first));
    assert d == Dict([first.name], map[first.name := value(first)]);
    assert d.values[first.name := value(second)] == map[first.name := value(second)];
  }

  /** The text of an Int32 is classified as that integer. */
  lemma ClassifyIntText(n: int, isDouble: string -> bool)
    requires InInt32Range(n)
    ensures Classify(Int32Text(n), isDouble) == IntValue(n)
  {
    ParseInt32Text(n);
  }

  /** Integer text outside the Int32 range is not an int: it falls through to the double test, and otherwise stays a string. */
  lemma ClassifyOutOfRange(n: int, isDouble: string -> bool)
    requires !InInt32Range(n)
    ensures var t := Int32Text(n);
      Classify(t, isDouble) == if isDouble(t) then DoubleValue(t) else StringValue(t)
  {
    var t := Int32Text(n);
    ParseInt32Text(n);
    assert t[0] == '-' || IsDigit(t[0]);
    SignOrDigitIsNotWhite(t[0]);
    assert TrimStartBy(t, IsWhiteOrNull) == t;
    NumberStartIsNotBool(t);
  }

  /** `"1"` is an int, never the boolean it might suggest. */
  lemma ClassifyOneIsInt(isDouble: string -> bool)
    ensures Classify("1", isDouble) == IntValue(1)
  {
    assert Int32Text(1) == "1" by { assert DecimalDigits(1) == "1"; }
    ClassifyIntText(1, isDouble);
  }

  /** `true` and `false`, as the JSON-to-XML direction writes them, read back as booleans unless they read as doubles. */
  lemma ClassifyBoolText(b: bool, isDouble: string -> bool)
    requires !isDouble(BoolText(b))
    ensures Classify(BoolText(b), isDouble) == BoolValue(b)
  {
    ParseBoolRoundTrip(b);
    NumberOfBoolText(b);
  }

  /** Any text `bool.TryParse` accepts, and `double.TryParse` does not, is that boolean. */
  lemma ClassifyBoolAnyText(text: string, isDouble: string -> bool)
    requires ParseBool(text).Some? && !isDouble(text)
    ensures Classify(text, isDouble) == BoolValue(ParseBool(text).value)
  {
    if ParseInt32(text).Some? {
      IntTextIsNotBool(text);
    }
  }

  /** `<a> TRUE </a>` holds the boolean true, unless the text reads as a double. */
  lemma ClassifyPaddedTrue(isDouble: string -> bool)
    requires !isDouble(" TRUE ")
    ensures Classify(" TRUE ", isDouble) == BoolValue(true)
  {
    ParseBoolExample();
    ClassifyBoolAnyText(" TRUE ", isDouble);
  }

  /**
   * `JsonSerializer.Serialize` writes the dictionary only when every double in it is finite;
   * `isFinite(t)` says that the double `double.TryParse` reads from `t` is neither NaN nor infinite.
   */
  predicate Serializable(d: Dict, isFinite: string -> bool) {
    forall k :: k in d.values && d.values[k].DoubleValue? ==> isFinite(d.values[k].source)
  }

  /** The value an element child contributes is not a NaN or infinite double. */
  predicate EntryFinite(n: Node, isDouble: string -> bool, isFinite: string -> bool) {
    n.ElementNode? ==>
      var v := Entry(isDouble)(n.element);
      v.DoubleValue? ==> isFinite(v.source)
  }

  /** When no element child reads as a non-finite double, the dictionary can be written. */
  lemma {:induction false} CollectSerializable(nodes: seq<Node>, isDouble: string -> bool, isFinite: string -> bool)
    requires forall i :: 0 <= i < |nodes| ==> EntryFinite(nodes[i], isDouble, isFinite)
    ensures Serializable(Collect(nodes, Entry(isDouble)), isFinite)
  {
    if nodes != [] {
      var m := |nodes| - 1;
      assert forall i :: 0 <= i < m ==> nodes[..m][i] == nodes[i];
      CollectSerializable(nodes[..m], isDouble, isFinite);
      assert EntryFinite(nodes[m], isDouble, isFinite);
    }
  }

  /** A non-finite double that no later sibling of the same name replaces makes writing fail. */
  lemma CollectNotSerializable(nodes: seq<Node>, isDouble: string -> bool, isFinite: string -> bool, i: nat)
    requires i < |nodes| && nodes[i].ElementNode? && !EntryFinite(nodes[i], isDouble, isFinite)
    requires forall j :: i < j < |nodes| ==> !IsElementNamed(nodes[j], nodes[i].element.name)
    ensures !Serializable(Collect(nodes, Entry(isDouble)), isFinite)
  {
    CollectLastWins(nodes, Entry(isDouble), i);
  }

  /** `<root><a>1</a><a>2</a></root>`: the repeated key keeps its first place and its last value. */
  lemma RepeatedKeyExample(isDouble: string -> bool)
    ensures var one := WithInnerText(NewElement("a"), "1");
      var two := WithInnerText(NewElement("a"), "2");
      Collect([ElementNode(one), ElementNode(two)], Entry(isDouble)) == Dict(["a"], map["a" := IntValue(2)])
  {
    var one := WithInnerText(NewElement("a"), "1");
    var two := WithInnerText(NewElement("a"), "2");
    CollectRepeatedName(one, two, Entry(isDouble));
    assert Int32Text(2) == "2" by { assert DecimalDigits(2) == "2"; }
    ClassifyIntText(2, isDouble);
    assert Entry(isDouble)(two) == Classify("2", isDouble);
  }

  // ---------------------------------------------------------------------------
  // The command
  // ---------------------------------------------------------------------------

  /** A format argument as the command reads it: `ToLower()` then `Trim()`. */
  function Normalize(arg: string): (r: string)
    ensures |r| <= |arg|
    ensures r == [] || (!IsWhiteSpace(r[0]) && !IsWhiteSpace(r[|r| - 1]))
  {
    Trim(Lower(arg))
  }

  datatype Direction = XmlToJson | JsonToXml

  /** The `switch`: only `xml` to `json` and `json` to `xml` convert anything. */
  function Dispatch(from: string, to: string): (r: Option<Direction>)
    ensures r == Some(XmlToJson) <==> Normalize(from) == "xml" && Normalize(to) == "json"
    ensures r == Some(JsonToXml) <==> Normalize(from) == "json" && Normalize(to) == "xml"
  {
    var f := Normalize(from);
    var t := Normalize(to);
    if f == "xml" && t == "json" then Some(XmlToJson)
    else if f == "json" && t == "xml" then Some(JsonToXml)
    else None
  }

  /** Surrounding white space and ASCII letter case in a format argument do not matter. */
  lemma NormalizeIgnoresPaddingAndCase(pre: string, arg: string, post: string)
    requires AllSatisfy(pre, IsWhiteSpace) && AllSatisfy(post, IsWhiteSpace)
    ensures Normalize(pre + arg + post) == Normalize(arg)
    ensures Normalize(Lower(arg)) == Normalize(arg)
  {
    TrimLowerIgnoresPadding(pre, arg, post);
    LowerIdempotent(arg);
  }

  lemma NormalizeXml()
    ensures Normalize("XML") == "xml"
  {
    var l := Lower("XML");
    assert l[0] == 'x' && l[1] == 'm' && l[2] == 'l';
    assert l == "xml";
    TrimByUnpadded("xml", IsWhiteSpace);
  }

  lemma NormalizeJson()
    ensures Normalize("Json") == "json"
  {
    var l := Lower("Json");
    assert l[0] == 'j' && l[1] == 's' && l[2] == 'o' && l[3] == 'n';
    assert l == "json";
    assert !IsWhiteSpace('j') && !IsWhiteSpace('n');
    TrimByUnpadded("json", IsWhiteSpace);
  }

  /** ` XML ` and `Json` select the XML-to-JSON direction. */
  lemma DispatchExample()
    ensures Dispatch(" XML ", "Json") == Some(XmlToJson)
  {
    assert " XML " == " " + "XML" + " ";
    NormalizeIgnoresPaddingAndCase(" ", "XML", " ");
    NormalizeXml();
    NormalizeJson();
  }

  /** What one run of `convert` does, given the content the input file holds. */
  datatype Outcome =
    | Skipped                            // a blank argument: nothing is read or written
    | NotConverted                       // the file was read, but the pair of formats is not handled
    | Failed(error: ConvertError)        // the conversion threw: nothing is printed or written
    | JsonWritten(dict: Dict, saved: bool)      // printed, and written to `output` when `saved`
    | XmlWritten(document: Element, saved: bool)

  /**
   * `Convert`: normalise the two format arguments, give up on a blank argument, read the
   * input, convert in the chosen direction, and save the result when an output path is given.
   * `loadXml` and `parseJson` stand for `XmlDocument.LoadXml` (with its document element)
   * and `JsonDocument.Parse`; `fileContent` is what `File.ReadAllText(input)` returns;
   * `isFinite` decides whether `JsonSerializer.Serialize` accepts a double (see `Serializable`).
   */
  method Convert(from: string, to: string, input: string, output: string, fileContent: string,
                 loadXml: string -> Option<Element>, parseJson: string -> Option<Json>,
                 isDouble: string -> bool, isFinite: string -> bool, isName: string -> bool)
    returns (outcome: Outcome)
    ensures IsBlank(Normalize(from)) || IsBlank(Normalize(to)) || IsBlank(input) ==> outcome == Skipped
    ensures !IsBlank(Normalize(from)) && !IsBlank(Normalize(to)) && !IsBlank(input) ==>
      outcome == match Dispatch(from, to)
        case None => NotConverted
        case Some(XmlToJson) =>
          (match loadXml(fileContent)
           case None => Failed(XmlParseError)
           case Some(root) =>
             var d := Collect(root.children, Entry(isDouble));
             if Serializable(d, isFinite) then JsonWritten(d, !IsBlank(output)) else Failed(SerializationError))
        case Some(JsonToXml) =>
          (match parseJson(fileContent)
           case None => Failed(JsonParseError)
           case Some(json) =>
             if NamesAccepted(json, isName) then XmlWritten(Build(json, "root"), !IsBlank(output))
             else Failed(InvalidElementName))
  {
    var f := Normalize(from);
    var t := Normalize(to);
    if IsBlank(f) || IsBlank(t) || IsBlank(input) {
      return Skipped;
    }
    var direction := Dispatch(from, to);
    if direction == Some(XmlToJson) {
      var document := loadXml(fileContent);
      if document.None? {
        return Failed(XmlParseError);
      }
      var dict := ConvertXmlToJson(document.value, isDouble);
      if !Serializable(dict, isFinite) {
        return Failed(SerializationError);
      }
      outcome := JsonWritten(dict, !IsBlank(output));
    } else if direction == Some(JsonToXml) {
      var json := parseJson(fileContent);
      if json.None? {
        return Failed(JsonParseError);
      }
      var converted := ConvertJsonToXml(json.value, isName);
      if converted.Err? {
        return Failed(converted.error);
      }
      outcome := XmlWritten(converted.value, !IsBlank(output));
    } else {
      outcome := NotConverted;
    }
  }

  /** After normalising, a format argument is blank exactly when it is empty. */
  lemma NormalizedBlankIsEmpty(arg: string)
    ensures IsBlank(Normalize(arg)) <==> Normalize(arg) == []
  {
    var n := Normalize(arg);
    BlankIffTrimsToEmpty(n);
    TrimByIdempotent(Lower(arg), IsWhiteSpace);
  }
}

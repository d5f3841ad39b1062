/**
 Input bindings: JSON values in which some objects are references to node outputs.
 */
module Bindings {
  import opened Wrappers
  import opened OrderedMaps

  /** `Atom` stands for a number, a boolean or null. */
  datatype Value = Text(text: string) | Atom(json: string) | List(items: seq<Value>) | Object(fields: seq<(string, Value)>)

  datatype Ref = Ref(node: string, path: seq<string>)

  const INPUT := "__seqlane_input"

  predicate AllText(items: seq<Value>) {
    forall i | 0 <= i < |items| :: items[i].Text?
  }

  /** The strict schema of a reference: these three fields, of these types, and no other. */
  function AsRef(v: Value): Option<Ref> {
    if !v.Object? || |v.fields| != 3 then None
    else
      var tag, node, path := FieldOf(v, "type"), FieldOf(v, "nodeId"), FieldOf(v, "path");
      if tag == Text("ref") && node.Text? && node.text != "" && path.List? && AllText(path.items)
      then Some(Ref(node.text, Texts(path.items))) else None
  }

  /** A field of an object; null when there is none, as no reference has a null field. */
  function FieldOf(v: Value, name: string): Value
    requires v.Object?
  {
    var field := Get<string, Value>(v.fields, name);
    if field.Some? then field.value else Atom("null")
  }

  function Texts(items: seq<Value>): seq<string>
    requires AllText(items)
  {
    seq(|items|, i requires 0 <= i < |items| => items[i].text)
  }

  function TextValues(texts: seq<string>): seq<Value> {
    seq(|texts|, i requires 0 <= i < |texts| => Text(texts[i]))
  }

  function RefValue(r: Ref): Value {
    Object([("type", Text("ref")), ("nodeId", Text(r.node)),
            ("path", List(TextValues(r.path)))])
  }

  function Serialize(v: Value): Value {
    var ref := AsRef(v);
    if ref.Some? then RefValue(ref.value)
    else match v
      case List(items) => List(seq(|items|, i requires 0 <= i < |items| => Serialize(items[i])))
      case Object(fields) =>
        Object(seq(|fields|, i requires 0 <= i < |fields| => (fields[i].0, Serialize(fields[i].1))))
      case _ => v
  }

  function Children(v: Value): (children: seq<Value>)
    ensures forall i | 0 <= i < |children| :: children[i] < v
  {
    match v
    case List(items) => items
    case Object(fields) => seq(|fields|, i requires 0 <= i < |fields| => fields[i].1)
    case _ => []
  }

  /** Every reference in a value, in the order of its fields and items. */
  function Refs(v: Value): seq<Ref>
    decreases v, |Children(v)| + 1
  {
    var ref := AsRef(v);
    if ref.Some? then [ref.value] else RefsOf(v, |Children(v)|)
  }

  function RefsOf(v: Value, n: nat): seq<Ref>
    requires n <= |Children(v)|
    decreases v, n
  {
    if n == 0 then [] else RefsOf(v, n - 1) + Refs(Children(v)[n - 1])
  }

  /** Adding to a set that remembers the order of insertion. */
  function Insert(ids: seq<string>, id: string): seq<string> {
    if id in ids then ids else ids + [id]
  }

  /** `collectDependencies`: adds the nodes a value refers to, other than the workflow's input. */
  function Collect(v: Value, ids: seq<string>): seq<string>
    decreases v, |Children(v)| + 1
  {
    var ref := AsRef(v);
    if ref.Some? then (if ref.value.node == INPUT then ids else Insert(ids, ref.value.node))
    else CollectOf(v, |Children(v)|, ids)
  }

  function CollectOf(v: Value, n: nat, ids: seq<string>): seq<string>
    requires n <= |Children(v)|
    decreases v, n
  {
    if n == 0 then ids else Collect(Children(v)[n - 1], CollectOf(v, n - 1, ids))
  }

  // ----- serialisation keeps the references ------------------------------

  lemma {:induction false} RefValueIsRef(r: Ref)
    requires r.node != ""
    ensures AsRef(RefValue(r)) == Some(r)
  {
    var v := RefValue(r);
    var fields := v.fields;
    assert "type"[0] != "path"[0];
    assert FieldOf(v, "type") == Text("ref");
    assert fields[1..][0] == fields[1] && fields[1..][1..][0] == fields[2];
    assert Get<string, Value>(fields[1..], "nodeId") == Some(Text(r.node));
    assert FieldOf(v, "nodeId") == Text(r.node);
    assert Get<string, Value>(fields[1..][1..], "path") == Some(fields[2].1);
    assert Get<string, Value>(fields[1..], "path") == Some(fields[2].1);
    assert FieldOf(v, "path") == List(TextValues(r.path));
    assert Texts(TextValues(r.path)) == r.path;
  }

  lemma {:induction false} SerializeShape(v: Value)
    ensures Serialize(v).Text? <==> v.Text?
    ensures v.Text? ==> Serialize(v) == v
    ensures AsRef(v).None? ==> (Serialize(v).List? <==> v.List?) && (Serialize(v).Object? <==> v.Object?)
    ensures AsRef(v).Some? ==> v.Object? && Serialize(v) == RefValue(AsRef(v).value)
    ensures AsRef(v).None? ==> |Children(Serialize(v))| == |Children(v)|
    ensures AsRef(v).None? ==> forall i | 0 <= i < |Children(v)| :: Children(Serialize(v))[i] == Serialize(Children(v)[i])
  {
  }

  /** Serialising the fields of an object keeps their names and order. */
  lemma {:induction false} SerializedField(fields: seq<(string, Value)>, after: seq<(string, Value)>, name: string)
    requires |after| == |fields|
    requires forall i | 0 <= i < |fields| :: after[i] == (fields[i].0, Serialize(fields[i].1))
    ensures Get<string, Value>(after, name) ==
            match Get<string, Value>(fields, name) { case None => None case Some(v) => Some(Serialize(v)) }
  {
    hide Serialize;
    if fields != [] && fields[0].0 != name {
      SerializedField(fields[1..], after[1..], name);
    }
  }

  lemma {:induction false} SerializedTexts(items: seq<Value>, after: seq<Value>)
    requires |after| == |items| && AllText(after)
    requires forall i | 0 <= i < |items| :: after[i] == Serialize(items[i])
    ensures after == items
  {
    forall i | 0 <= i < |items| ensures after[i] == items[i] {
      SerializeShape(items[i]);
    }
  }

  function SerializeFields(fields: seq<(string, Value)>): seq<(string, Value)> {
    seq(|fields|, i requires 0 <= i < |fields| => (fields[i].0, Serialize(fields[i].1)))
  }

  /** Serialising the fields of an object makes a reference only of a reference. */
  lemma {:induction false} NoNewRef(fields: seq<(string, Value)>)
    requires AsRef(Object(SerializeFields(fields))).Some?
    ensures AsRef(Object(fields)).Some?
  {
    hide Get, Serialize;
    var v, after := Object(fields), Object(SerializeFields(fields));
    SerializedField(fields, after.fields, "type");
    SerializedField(fields, after.fields, "nodeId");
    SerializedField(fields, after.fields, "path");
    var tag, node, path := FieldOf(v, "type"), FieldOf(v, "nodeId"), FieldOf(v, "path");
    SerializeShape(Atom("null"));
    SerializeShape(tag);
    SerializeShape(node);
    assert FieldOf(after, "path") == Serialize(path);
    RefValueIsNoList(path);
    SerializedTexts(path.items, Serialize(path).items);
  }

  lemma {:induction false} RefValueIsNoList(v: Value)
    requires Serialize(v).List?
    ensures v.List? && |v.items| == |Serialize(v).items|
    ensures forall i | 0 <= i < |v.items| :: Serialize(v).items[i] == Serialize(v.items[i])
  {
  }

  lemma {:induction false} NotARef(v: Value)
    requires AsRef(v).None?
    ensures AsRef(Serialize(v)).None?
  {
    hide Get;
    if v.Object? {
      assert Serialize(v) == Object(SerializeFields(v.fields));
      if AsRef(Object(SerializeFields(v.fields))).Some? {
        NoNewRef(v.fields);
        assert false;
      }
    }
  }

  /** Serialising changes no reference: none is lost, added, altered or moved. */
  lemma {:induction false} SerializeKeepsRefs(v: Value)
    ensures Refs(Serialize(v)) == Refs(v)
    ensures AsRef(Serialize(v)) == AsRef(v)
    decreases v, |Children(v)| + 1
  {
    hide Serialize, Get;
    SerializeShape(v);
    if AsRef(v).Some? {
      RefValueIsRef(AsRef(v).value);
    } else {
      NotARef(v);
      SerializeKeepsRefsOf(v, |Children(v)|);
    }
  }

  lemma {:induction false} SerializeKeepsRefsOf(v: Value, n: nat)
    requires AsRef(v).None? && n <= |Children(v)| == |Children(Serialize(v))|
    ensures RefsOf(Serialize(v), n) == RefsOf(v, n)
    decreases v, n
  {
    hide Serialize, Get, AsRef, Refs, Children;
    SerializeShape(v);
    if n > 0 {
      SerializeKeepsRefsOf(v, n - 1);
      SerializeKeepsRefs(Children(v)[n - 1]);
    }
  }

  // ----- collected dependencies are the references -------------------------

  ghost predicate Distinct(ids: seq<string>) {
    forall i, j | 0 <= i < j < |ids| :: ids[i] != ids[j]
  }

  /** The node is the target of one of the references, and is not the workflow's input. */
  ghost predicate Refers(refs: seq<Ref>, id: string) {
    id != INPUT && exists i | 0 <= i < |refs| :: refs[i].node == id
  }

  lemma {:induction false} RefersConcat(a: seq<Ref>, b: seq<Ref>, id: string)
    ensures Refers(a + b, id) <==> Refers(a, id) || Refers(b, id)
  {
    if Refers(a, id) {
      var i :| 0 <= i < |a| && a[i].node == id;
      assert (a + b)[i].node == id;
    }
    if Refers(b, id) {
      var i :| 0 <= i < |b| && b[i].node == id;
      assert (a + b)[|a| + i].node == id;
    }
  }

  lemma {:induction false} InsertAdds(ids: seq<string>, id: string)
    requires Distinct(ids)
    ensures Distinct(Insert(ids, id))
    ensures forall x :: x in Insert(ids, id) <==> x in ids || x == id
  {
  }

  /** Collecting adds exactly the nodes referred to, each at most once. */
  lemma {:induction false} CollectAddsRefs(v: Value, ids: seq<string>)
    requires Distinct(ids)
    ensures Distinct(Collect(v, ids))
    ensures forall x :: x in Collect(v, ids) <==> x in ids || Refers(Refs(v), x)
    decreases v, |Children(v)| + 1
  {
    hide Get;
    if AsRef(v).Some? {
      var r := AsRef(v).value;
      InsertAdds(ids, r.node);
      assert Refs(v) == [r] && [r][0].node == r.node;
    } else {
      CollectOfAddsRefs(v, |Children(v)|, ids);
    }
  }

  lemma {:induction false} CollectOfAddsRefs(v: Value, n: nat, ids: seq<string>)
    requires Distinct(ids) && n <= |Children(v)|
    ensures Distinct(CollectOf(v, n, ids))
    ensures forall x :: x in CollectOf(v, n, ids) <==> x in ids || Refers(RefsOf(v, n), x)
    decreases v, n
  {
    if n == 0 {
      forall x ensures !Refers([], x) { }
    } else {
      hide Refs, Collect, Refers, Distinct;
      CollectOfAddsRefs(v, n - 1, ids);
      CollectAddsRefs(Children(v)[n - 1], CollectOf(v, n - 1, ids));
      forall x ensures Refers(RefsOf(v, n), x) <==> Refers(RefsOf(v, n - 1), x) || Refers(Refs(Children(v)[n - 1]), x) {
        RefersConcat(RefsOf(v, n - 1), Refs(Children(v)[n - 1]), x);
      }
    }
  }

  // ----- only references change their form -------------------------------------

  /** A strict reference, told by its three fields. */
  ghost predicate IsReference(v: Value, node: string, path: seq<string>) {
    && v.Object? && |v.fields| == 3 && node != ""
    && ("type", Text("ref")) in v.fields && ("nodeId", Text(node)) in v.fields
    && exists items: seq<Value> :: ("path", List(items)) in v.fields && IsTexts(items, path)
  }

  ghost predicate IsTexts(items: seq<Value>, path: seq<string>) {
    |items| == |path| && forall i | 0 <= i < |items| :: items[i] == Text(path[i])
  }

  lemma {:induction false} FieldIs(v: Value, name: string, field: Value)
    requires v.Object? && DistinctKeys(v.fields) && field != Atom("null")
    ensures FieldOf(v, name) == field <==> (name, field) in v.fields
  {
    GetIsMember<string, Value>(v.fields, name);
    if (name, field) in v.fields { MemberIsGet(v.fields, name, field); }
  }

  /** In an object, whose names differ, what counts as a reference is exactly those three fields. */
  lemma {:induction false} ReferenceExactly(v: Value, node: string, path: seq<string>)
    requires v.Object? ==> DistinctKeys(v.fields)
    ensures AsRef(v) == Some(Ref(node, path)) <==> IsReference(v, node, path)
  {
    hide Get;
    if v.Object? {
      FieldIs(v, "type", Text("ref"));
      FieldIs(v, "nodeId", Text(node));
      var found := FieldOf(v, "path");
      if found.List? { FieldIs(v, "path", found); }
      if AsRef(v) == Some(Ref(node, path)) {
        assert FieldOf(v, "nodeId") == Text(node);
        assert IsTexts(found.items, path);
      }
      if IsReference(v, node, path) {
        var items: seq<Value> :| ("path", List(items)) in v.fields && IsTexts(items, path);
        FieldIs(v, "path", List(items));
        assert Texts(items) == path;
      }
    }
  }

  /** The same value, but for the form of its references. */
  ghost predicate Same(v: Value, w: Value)
    decreases v
  {
    if AsRef(v).Some? then w == RefValue(AsRef(v).value)
    else match v
      case List(items) => w.List? && |w.items| == |items| && forall i | 0 <= i < |items| :: Same(items[i], w.items[i])
      case Object(fields) =>
        && w.Object? && |w.fields| == |fields|
        && forall i | 0 <= i < |fields| :: w.fields[i].0 == fields[i].0 && Same(fields[i].1, w.fields[i].1)
      case _ => w == v
  }

  /** Serialising changes nothing but the form of references, which it writes as type, node and path. */
  lemma {:induction false} SerializedIsSame(v: Value)
    ensures Same(v, Serialize(v))
    decreases v
  {
    hide AsRef;
    if AsRef(v).None? {
      match v
      case List(items) =>
        forall i | 0 <= i < |items| ensures Same(items[i], Serialize(items[i])) { SerializedIsSame(items[i]); }
      case Object(fields) =>
        forall i | 0 <= i < |fields| ensures Same(fields[i].1, Serialize(fields[i].1)) { SerializedIsSame(fields[i].1); }
      case _ =>
    }
  }

  lemma {:induction false} NoRefsBelow(v: Value, n: nat, i: nat)
    requires n <= |Children(v)| && i < n && RefsOf(v, n) == []
    ensures Refs(Children(v)[i]) == []
  {
    hide Refs, Children;
    if i < n - 1 { NoRefsBelow(v, n - 1, i); }
  }

  /** A value without references serialises to itself. */
  lemma {:induction false} LiteralsStay(v: Value)
    requires Refs(v) == []
    ensures Serialize(v) == v
    decreases v
  {
    hide AsRef, RefsOf;
    forall i | 0 <= i < |Children(v)| ensures Serialize(Children(v)[i]) == Children(v)[i] {
      NoRefsBelow(v, |Children(v)|, i);
      LiteralsStay(Children(v)[i]);
    }
    match v
    case List(items) => assert Serialize(v).items == items;
    case Object(fields) =>
      forall i | 0 <= i < |fields| ensures Serialize(fields[i].1) == fields[i].1 { assert fields[i].1 == Children(v)[i]; }
      assert Serialize(v).fields == fields;
    case _ =>
  }
}

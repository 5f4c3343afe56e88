/**
 * Value::write: the recursive visitor that renders a variant as compact JSON
 * text, appending to a buffer.
 *
 * The order in which an unordered_map is iterated is unspecified, so the
 * rendering depends on a `Layout`: the key order chosen for every object in
 * the tree. `Write` returns the layout it happened to use.
 */
module Serializer {
  import opened Wrappers
  import opened Json
  import opened Grammar

  /** std::to_string of a double. */
  type NumberFormatter = Double -> string

  /** The key order of each object and the layouts of the children. */
  datatype Layout =
    | Leaf
    | Items(elements: seq<Layout>)
    | Fields(keys: seq<string>, values: seq<Layout>)

  predicate Distinct(keys: seq<string>)
  {
    forall i, j | 0 <= i < j < |keys| :: keys[i] != keys[j]
  }

  /** `l` is an iteration order for `d`: every object's keys are visited once each. */
  predicate Fits(l: Layout, d: Data)
    decreases d, 1
  {
    match d
    case Object(m) =>
      l.Fields? && Distinct(l.keys) && (forall k | k in m :: k in l.keys) && MembersListed(m, l.keys, l.values)
    case Array(a) => l.Items? && |l.elements| == |a| && ElementsListed(a, l.elements)
    case _ => l.Leaf?
  }

  /** Each of `keys` is a key of `m`, laid out by the matching entry of `values`. */
  predicate MembersListed(m: map<string, Data>, keys: seq<string>, values: seq<Layout>)
    decreases Object(m), 0
  {
    |keys| == |values| && forall j | 0 <= j < |keys| :: keys[j] in m && Fits(values[j], m[keys[j]])
  }

  /** `layouts` lays out a prefix of `a`. */
  predicate ElementsListed(a: seq<Data>, layouts: seq<Layout>)
    decreases Array(a), 0
  {
    |layouts| <= |a| && forall j | 0 <= j < |layouts| :: Fits(layouts[j], a[j])
  }

  /** result.back() = c */
  function CloseWith(t: string, c: char): (r: string)
    requires |t| > 0
    ensures |r| == |t| && r[..|t| - 1] == t[..|t| - 1] && r[|t| - 1] == c
  {
    t[..|t| - 1] + [c]
  }

  lemma CloseAppended(result: string, t: string, c: char)
    requires |t| > 0
    ensures (result + t)[..|result + t| - 1] + [c] == result + CloseWith(t, c)
  {
    assert (result + t)[..|result + t| - 1] == result + t[..|t| - 1];
  }

  /** The text `write` appends, as written: every entry is followed by a
      comma and the last byte is then overwritten by the closing bracket. */
  function Written(d: Data, l: Layout, toText: NumberFormatter): (r: string)
    requires Fits(l, d)
    decreases d, 1
  {
    match d
    case Empty => "null"
    case String(t) => "\"" + t + "\""
    case Number(x) => toText(x)
    case Boolean(b) => if b then "true" else "false"
    case Object(m) => CloseWith("{" + WrittenMembers(m, l.keys, l.values, toText, 0), '}')
    case Array(a) => CloseWith("[" + WrittenElements(a, l.elements, toText, 0), ']')
  }

  /** `"key":value,` for the keys from index i on. */
  function WrittenMembers(m: map<string, Data>, keys: seq<string>, values: seq<Layout>, toText: NumberFormatter, i: nat): (r: string)
    requires MembersListed(m, keys, values) && i <= |keys|
    decreases Object(m), 0, |keys| - i
  {
    if i == |keys| then ""
    else "\"" + keys[i] + "\":" + Written(m[keys[i]], values[i], toText) + "," + WrittenMembers(m, keys, values, toText, i + 1)
  }

  /** `value,` for the elements a[i..|layouts|]. */
  function WrittenElements(a: seq<Data>, layouts: seq<Layout>, toText: NumberFormatter, i: nat): (r: string)
    requires ElementsListed(a, layouts) && i <= |layouts|
    decreases Array(a), 0, |layouts| - i
  {
    if i == |layouts| then ""
    else Written(a[i], layouts[i], toText) + "," + WrittenElements(a, layouts, toText, i + 1)
  }

  /** `write` always ends a container with its closing bracket, and a
      non-empty container also starts with its opening bracket. */
  lemma WrittenClosed(d: Data, l: Layout, toText: NumberFormatter)
    requires Fits(l, d)
    ensures var r := Written(d, l, toText);
      && (d.Object? ==> |r| > 0 && r[|r| - 1] == '}' && (|l.keys| > 0 ==> r[0] == '{'))
      && (d.Array? ==> |r| > 0 && r[|r| - 1] == ']' && (|d.items| > 0 ==> r[0] == '['))
  {
  }

  lemma {:induction false} WrittenMembersAppend(m: map<string, Data>, keys: seq<string>, values: seq<Layout>, key: string, l: Layout,
                                               toText: NumberFormatter, i: nat)
    requires MembersListed(m, keys, values) && i <= |keys|
    requires key in m && Fits(l, m[key])
    ensures WrittenMembers(m, keys + [key], values + [l], toText, i)
         == WrittenMembers(m, keys, values, toText, i) + ("\"" + key + "\":" + Written(m[key], l, toText) + ",")
    decreases |keys| - i
  {
    var keys', values' := keys + [key], values + [l];
    if i < |keys| {
      assert keys'[i] == keys[i] && values'[i] == values[i];
      WrittenMembersAppend(m, keys, values, key, l, toText, i + 1);
    } else {
      assert keys'[i] == key && values'[i] == l;
    }
  }

  lemma {:induction false} WrittenElementsAppend(a: seq<Data>, layouts: seq<Layout>, l: Layout, toText: NumberFormatter, i: nat)
    requires ElementsListed(a, layouts) && i <= |layouts| < |a|
    requires Fits(l, a[|layouts|])
    ensures WrittenElements(a, layouts + [l], toText, i)
         == WrittenElements(a, layouts, toText, i) + (Written(a[|layouts|], l, toText) + ",")
    decreases |layouts| - i
  {
    var layouts' := layouts + [l];
    if i < |layouts| {
      assert layouts'[i] == layouts[i];
      WrittenElementsAppend(a, layouts, l, toText, i + 1);
    } else {
      assert layouts'[i] == l;
    }
  }

  /** The bookkeeping of the key loop of `WriteObject`: `keys` were visited
      (with layouts `values`), `rest` are still to come. */
  predicate Visiting(m: map<string, Data>, rest: set<string>, keys: seq<string>, values: seq<Layout>)
  {
    && Distinct(keys) && MembersListed(m, keys, values)
    && (forall k | k in m :: k in rest || k in keys)
    && (forall k | k in rest :: k in m && k !in keys)
  }

  lemma VisitStep(m: map<string, Data>, rest: set<string>, keys: seq<string>, values: seq<Layout>, key: string, l: Layout)
    requires Visiting(m, rest, keys, values) && key in rest && Fits(l, m[key])
    ensures Visiting(m, rest - {key}, keys + [key], values + [l])
  {
  }

  lemma FieldsFit(m: map<string, Data>, keys: seq<string>, values: seq<Layout>)
    requires Visiting(m, {}, keys, values)
    ensures Fits(Fields(keys, values), Object(m))
  {
  }

  lemma AppendAssoc(x: string, y: string, z: string)
    ensures (x + y) + z == x + (y + z)
  {
  }

  /** One iteration of the key loop of `WriteObject`. */
  lemma ObjectStep(m: map<string, Data>, rest: set<string>, keys: seq<string>, values: seq<Layout>, key: string, l: Layout,
                   toText: NumberFormatter, result: string, before: string, w: string, out: string)
    requires Visiting(m, rest, keys, values) && key in rest && Fits(l, m[key])
    requires before == result + "{" + WrittenMembers(m, keys, values, toText, 0)
    requires w == Written(m[key], l, toText) && out == before + ("\"" + key + "\":") + w + ","
    ensures Visiting(m, rest - {key}, keys + [key], values + [l])
    ensures out == result + "{" + WrittenMembers(m, keys + [key], values + [l], toText, 0)
  {
    VisitStep(m, rest, keys, values, key, l);
    WrittenMembersAppend(m, keys, values, key, l, toText, 0);
    var entry := "\"" + key + "\":" + w + ",";
    AppendAssoc(result + "{", WrittenMembers(m, keys, values, toText, 0), entry);
    AppendAssoc(before, "\"" + key + "\":", w);
    AppendAssoc(before, "\"" + key + "\":" + w, ",");
  }

  /** One iteration of the element loop of `WriteArray`. */
  lemma ArrayStep(a: seq<Data>, elements: seq<Layout>, i: nat, l: Layout, toText: NumberFormatter,
                  result: string, before: string, w: string, out: string)
    requires ElementsListed(a, elements) && |elements| == i < |a| && Fits(l, a[i])
    requires before == result + "[" + WrittenElements(a, elements, toText, 0)
    requires w == Written(a[i], l, toText) && out == before + w + ","
    ensures ElementsListed(a, elements + [l])
    ensures out == result + "[" + WrittenElements(a, elements + [l], toText, 0)
  {
    ElementsListedAppend(a, elements, l);
    WrittenElementsAppend(a, elements, l, toText, 0);
    AppendAssoc(result + "[", WrittenElements(a, elements, toText, 0), w + ",");
    AppendAssoc(before, w, ",");
  }

  lemma ElementsListedAppend(a: seq<Data>, elements: seq<Layout>, l: Layout)
    requires ElementsListed(a, elements) && |elements| < |a| && Fits(l, a[|elements|])
    ensures ElementsListed(a, elements + [l])
  {
    var e := elements + [l];
    forall j | 0 <= j < |e|
      ensures Fits(e[j], a[j])
    {
      if j < |elements| {
        assert e[j] == elements[j];
      }
    }
  }

  /** The closing `result.back() = c` of a container. */
  lemma Closed(result: string, body: string, out: string, c: char)
    requires |body| > 0 && out == result + body
    ensures |out| > 0 && out[..|out| - 1] + [c] == result + CloseWith(body, c)
  {
    CloseAppended(result, body, c);
  }

  /** Value::write: appends the rendering of `d` to `result`, visiting every
      object's keys in an order of its own choosing. */
  method Write(d: Data, result: string, toText: NumberFormatter) returns (out: string, ghost layout: Layout)
    ensures Fits(layout, d)
    ensures out == result + Written(d, layout, toText)
    decreases d, 1
  {
    match d
    case Empty =>
      out, layout := result + "null", Leaf;
    case String(t) =>
      out, layout := result + ("\"" + t + "\""), Leaf;
    case Number(x) =>
      out, layout := result + toText(x), Leaf;
    case Boolean(b) =>
      out, layout := result + (if b then "true" else "false"), Leaf;
    case Object(m) =>
      out, layout := WriteObject(m, result, toText);
    case Array(a) =>
      out, layout := WriteArray(a, result, toText);
  }

  /** The object branch of Value::write. */
  method WriteObject(m: map<string, Data>, result: string, toText: NumberFormatter) returns (out: string, ghost layout: Layout)
    ensures Fits(layout, Object(m))
    ensures out == result + Written(Object(m), layout, toText)
    decreases Object(m), 0
  {
    out := result + "{";
    var rest := m.Keys;
    ghost var keys: seq<string> := [];
    ghost var values: seq<Layout> := [];
    while rest != {}
      invariant Visiting(m, rest, keys, values)
      invariant out == result + "{" + WrittenMembers(m, keys, values, toText, 0)
      decreases rest
    {
      var key :| key in rest;
      ghost var before := out;
      out := out + ("\"" + key + "\":");
      ghost var l: Layout;
      out, l := Write(m[key], out, toText);
      ghost var w := out[|before| + |key| + 3..];
      out := out + ",";
      ObjectStep(m, rest, keys, values, key, l, toText, result, before, w, out);
      keys, values := keys + [key], values + [l];
      rest := rest - {key};
    }
    layout := Fields(keys, values);
    FieldsFit(m, keys, values);
    Closed(result, "{" + WrittenMembers(m, keys, values, toText, 0), out, '}');
    out := out[..|out| - 1] + "}";
  }

  /** The array branch of Value::write. */
  method WriteArray(a: seq<Data>, result: string, toText: NumberFormatter) returns (out: string, ghost layout: Layout)
    ensures Fits(layout, Array(a))
    ensures out == result + Written(Array(a), layout, toText)
    decreases Array(a), 0
  {
    out := result + "[";
    ghost var elements: seq<Layout> := [];
    for i := 0 to |a|
      invariant |elements| == i && ElementsListed(a, elements)
      invariant out == result + "[" + WrittenElements(a, elements, toText, 0)
    {
      ghost var before := out;
      ghost var l: Layout;
      out, l := Write(a[i], out, toText);
      ghost var w := out[|before|..];
      out := out + ",";
      ArrayStep(a, elements, i, l, toText, result, before, w, out);
      elements := elements + [l];
    }
    Closed(result, "[" + WrittenElements(a, elements, toText, 0), out, ']');
    out := out[..|out| - 1] + "]";
    layout := Items(elements);
  }

  /** The balanced rendering: members and elements joined by commas, `{}`
      and `[]` for empty containers. */
  function Serialized(d: Data, l: Layout, toText: NumberFormatter): (r: string)
    requires Fits(l, d)
    decreases d, 1
  {
    match d
    case Empty => "null"
    case String(t) => "\"" + t + "\""
    case Number(x) => toText(x)
    case Boolean(b) => if b then "true" else "false"
    case Object(m) => if |l.keys| == 0 then "{}" else "{" + JoinedMembers(m, l.keys, l.values, toText, 0) + "}"
    case Array(a) => if |a| == 0 then "[]" else "[" + JoinedElements(a, l.elements, toText, 0) + "]"
  }

  /** `"key":value` for the keys from index i on, separated by commas. */
  function JoinedMembers(m: map<string, Data>, keys: seq<string>, values: seq<Layout>, toText: NumberFormatter, i: nat): (r: string)
    requires MembersListed(m, keys, values) && i < |keys|
    decreases Object(m), 0, |keys| - i
  {
    "\"" + keys[i] + "\":" + Serialized(m[keys[i]], values[i], toText)
      + (if i + 1 < |keys| then "," + JoinedMembers(m, keys, values, toText, i + 1) else "")
  }

  /** The elements a[i..] separated by commas. */
  function JoinedElements(a: seq<Data>, layouts: seq<Layout>, toText: NumberFormatter, i: nat): (r: string)
    requires ElementsListed(a, layouts) && |layouts| == |a| && i < |a|
    decreases Array(a), 0, |a| - i
  {
    Serialized(a[i], layouts[i], toText)
      + (if i + 1 < |a| then "," + JoinedElements(a, layouts, toText, i + 1) else "")
  }

  /** Every container is rendered between its opening and closing brackets,
      and every string between quotes. */
  lemma SerializedBracketed(d: Data, l: Layout, toText: NumberFormatter)
    requires Fits(l, d)
    ensures var r := Serialized(d, l, toText);
      && (d.Object? ==> |r| >= 2 && r[0] == '{' && r[|r| - 1] == '}')
      && (d.Array? ==> |r| >= 2 && r[0] == '[' && r[|r| - 1] == ']')
      && (d.String? ==> |r| >= 2 && r[0] == '"' && r[|r| - 1] == '"')
  {
  }

  /** No object or array in `d` is empty. */
  predicate NoEmptyContainer(d: Data)
    decreases d
  {
    match d
    case Object(m) => |m| > 0 && forall k | k in m :: NoEmptyContainer(m[k])
    case Array(a) => |a| > 0 && forall i | 0 <= i < |a| :: NoEmptyContainer(a[i])
    case _ => true
  }

  lemma FirstKeyListed(m: map<string, Data>, keys: seq<string>, values: seq<Layout>)
    requires MembersListed(m, keys, values)
    ensures |keys| > 0 ==> keys[0] in m
  {
  }

  /** Whatever the key order, `write` renders an empty object as a lone
      closing brace. */
  lemma EmptyObjectWritten(l: Layout, toText: NumberFormatter)
    requires Fits(l, Object(map[]))
    ensures Written(Object(map[]), l, toText) == "}"
  {
    var none: map<string, Data> := map[];
    FirstKeyListed(none, l.keys, l.values);
    assert WrittenMembers(none, l.keys, l.values, toText, 0) == "";
  }

  /** `write` renders an empty array as a lone closing bracket. */
  lemma EmptyArrayWritten(l: Layout, toText: NumberFormatter)
    requires Fits(l, Array([]))
    ensures Written(Array([]), l, toText) == "]"
  {
    assert WrittenElements([], l.elements, toText, 0) == "";
  }

  /** A lone closing brace or bracket is not a document. */
  lemma ClosersDoNotParse(fromChars: NumberParser)
    ensures ParseDocument("}", fromChars) == None && ParseDocument("]", fromChars) == None
  {
    assert SkipBlanks("}", 0) == Read('}', 1);
    assert SkipBlanks("]", 0) == Read(']', 1);
  }

  /** Whatever the key order, `write` renders an empty object as a lone
      closing brace and an empty array as a lone closing bracket, and
      neither text parses back. */
  lemma EmptyContainersWrittenUnbalanced(l: Layout, toText: NumberFormatter, fromChars: NumberParser)
    ensures Fits(l, Object(map[])) ==> Written(Object(map[]), l, toText) == "}"
    ensures Fits(l, Array([])) ==> Written(Array([]), l, toText) == "]"
    ensures ParseDocument("}", fromChars) == None && ParseDocument("]", fromChars) == None
  {
    if Fits(l, Object(map[])) {
      EmptyObjectWritten(l, toText);
    }
    if Fits(l, Array([])) {
      EmptyArrayWritten(l, toText);
    }
    ClosersDoNotParse(fromChars);
  }

  /** Without empty containers the as-written rendering is the intended one. */
  lemma {:induction false} WrittenIsSerialized(d: Data, l: Layout, toText: NumberFormatter)
    requires Fits(l, d) && NoEmptyContainer(d)
    ensures Written(d, l, toText) == Serialized(d, l, toText)
    decreases d, 2
  {
    match d
    case Object(m) => WrittenObjectIsSerialized(m, l, toText);
    case Array(a) => WrittenArrayIsSerialized(a, l, toText);
    case _ =>
  }

  lemma {:induction false} WrittenObjectIsSerialized(m: map<string, Data>, l: Layout, toText: NumberFormatter)
    requires Fits(l, Object(m)) && NoEmptyContainer(Object(m))
    ensures Written(Object(m), l, toText) == Serialized(Object(m), l, toText)
    decreases Object(m), 1
  {
    assert |l.keys| > 0 by {
      var k :| k in m;
      assert k in l.keys;
    }
    var joined := JoinedMembers(m, l.keys, l.values, toText, 0);
    WrittenMembersJoined(m, l.keys, l.values, toText, 0);
    assert "{" + WrittenMembers(m, l.keys, l.values, toText, 0) == ("{" + joined) + ",";
    CloseAppended("{" + joined, ",", '}');
  }

  lemma {:induction false} WrittenArrayIsSerialized(a: seq<Data>, l: Layout, toText: NumberFormatter)
    requires Fits(l, Array(a)) && NoEmptyContainer(Array(a))
    ensures Written(Array(a), l, toText) == Serialized(Array(a), l, toText)
    decreases Array(a), 1
  {
    var joined := JoinedElements(a, l.elements, toText, 0);
    WrittenElementsJoined(a, l.elements, toText, 0);
    assert "[" + WrittenElements(a, l.elements, toText, 0) == ("[" + joined) + ",";
    CloseAppended("[" + joined, ",", ']');
  }

  lemma {:induction false} WrittenMembersJoined(m: map<string, Data>, keys: seq<string>, values: seq<Layout>, toText: NumberFormatter, i: nat)
    requires MembersListed(m, keys, values) && i < |keys|
    requires forall k | k in m :: NoEmptyContainer(m[k])
    ensures WrittenMembers(m, keys, values, toText, i) == JoinedMembers(m, keys, values, toText, i) + ","
    decreases Object(m), 0, |keys| - i
  {
    WrittenIsSerialized(m[keys[i]], values[i], toText);
    if i + 1 < |keys| {
      WrittenMembersJoined(m, keys, values, toText, i + 1);
    }
  }

  lemma {:induction false} WrittenElementsJoined(a: seq<Data>, layouts: seq<Layout>, toText: NumberFormatter, i: nat)
    requires ElementsListed(a, layouts) && |layouts| == |a| && i < |a|
    requires forall j | 0 <= j < |a| :: NoEmptyContainer(a[j])
    ensures WrittenElements(a, layouts, toText, i) == JoinedElements(a, layouts, toText, i) + ","
    decreases Array(a), 0, |a| - i
  {
    WrittenIsSerialized(a[i], layouts[i], toText);
    if i + 1 < |a| {
      WrittenElementsJoined(a, layouts, toText, i + 1);
    }
  }
}

/**
 * The tagged-union document model of Value.h and the accessors of Value.cpp.
 *
 * Value::Data is a std::variant over six alternatives, each behind an owning
 * HeapObject box. Boxes deep-copy on copy, so in this model a variant is a
 * plain recursive datatype (`Data`), a `Value` is a class with one mutable
 * field holding it, and the box itself is the generic class `HeapObject`.
 */
module Json {
  import opened Wrappers

  /** The IEEE double held by a Number. Conversions and comparisons of doubles
      belong to the C++ library and are passed in as functions. */
  type Double(==)

  /** IEEE equality of doubles (false for NaN against NaN). */
  type DoubleEq = (Double, Double) -> bool

  /** Value::Data, the alternatives in the variant's declaration order. */
  datatype Data =
    | Empty
    | Object(fields: map<string, Data>)
    | Array(items: seq<Data>)
    | String(text: string)
    | Number(number: Double)
    | Boolean(flag: bool)

  /** The alternative types a caller can name in is<T>() and getAs<T>(). */
  datatype Alternative = EmptyAlt | ObjectAlt | ArrayAlt | StringAlt | NumberAlt | BooleanAlt

  /** std::variant::index, as an alternative. */
  function AlternativeOf(d: Data): (r: Alternative)
    ensures Holds(d, r)
  {
    match d
    case Empty => EmptyAlt
    case Object(_) => ObjectAlt
    case Array(_) => ArrayAlt
    case String(_) => StringAlt
    case Number(_) => NumberAlt
    case Boolean(_) => BooleanAlt
  }

  /** std::holds_alternative<T>, stated on the alternative's own constructor. */
  predicate Holds(d: Data, alt: Alternative)
  {
    match alt
    case EmptyAlt => d.Empty?
    case ObjectAlt => d.Object?
    case ArrayAlt => d.Array?
    case StringAlt => d.String?
    case NumberAlt => d.Number?
    case BooleanAlt => d.Boolean?
  }

  /** The argument of the converting constructor and of the converting
      operator=, by the branch of `if constexpr` that handles it. */
  datatype Arg =
    | FromValue(value: Data)          // another Value: its _data is taken
    | FromArithmetic(asDouble: Double) // any non-bool arithmetic rvalue, after static_cast<double>
    | FromCString(chars: string)       // char* / const char*: the characters before the terminator
    | FromBool(flag: bool)             // bool: falls to the generic branch, HeapObject<bool>
    | FromPayload(payload: Data)       // any other T: HeapObject<decay_t<T>>, one of the boxed alternatives

  /** The variant a Value holds after being constructed from, or assigned, `arg`. */
  function Converted(arg: Arg): (d: Data)
    ensures arg.FromArithmetic? ==> d == Number(arg.asDouble)
    ensures arg.FromCString? ==> d == String(arg.chars)
    ensures arg.FromBool? ==> d == Boolean(arg.flag)
    ensures arg.FromValue? ==> d == arg.value
    ensures arg.FromPayload? ==> d == arg.payload
  {
    match arg
    case FromValue(v) => v
    case FromArithmetic(x) => Number(x)
    case FromCString(cs) => String(cs)
    case FromBool(b) => Boolean(b)
    case FromPayload(p) => p
  }

  /** Structural equality of variants: the same alternative and equal contents,
      doubles compared by `eq`, objects compared as maps (key order is not part
      of an unordered_map), arrays element by element. */
  function Equal(a: Data, b: Data, eq: DoubleEq): (r: bool)
    ensures r ==> AlternativeOf(a) == AlternativeOf(b)
    ensures a.Empty? || a.String? || a.Boolean? ==> (r <==> a == b)
  {
    match a
    case Empty => b.Empty?
    case Object(m) => b.Object? && m.Keys == b.fields.Keys && forall k | k in m :: Equal(m[k], b.fields[k], eq)
    case Array(x) => b.Array? && |x| == |b.items| && forall i | 0 <= i < |x| :: Equal(x[i], b.items[i], eq)
    case String(s) => b.String? && s == b.text
    case Number(x) => b.Number? && eq(x, b.number)
    case Boolean(p) => b.Boolean? && p == b.flag
  }

  /** When doubles compare by identity (no NaN), structural equality is
      exactly equality of the trees. */
  lemma {:induction false} EqualIsIdentity(a: Data, b: Data, eq: DoubleEq)
    requires forall x, y :: eq(x, y) <==> x == y
    ensures Equal(a, b, eq) <==> a == b
  {
    match a
    case Object(m) =>
      if b.Object? {
        forall k | k in m && k in b.fields {
          EqualIsIdentity(m[k], b.fields[k], eq);
        }
        if Equal(a, b, eq) {
          assert m == b.fields;
        }
      }
    case Array(x) =>
      if b.Array? && |x| == |b.items| {
        forall i | 0 <= i < |x| {
          EqualIsIdentity(x[i], b.items[i], eq);
        }
        if Equal(a, b, eq) {
          assert x == b.items;
        }
      }
    case _ =>
  }

  /** Structural equality is symmetric when double equality is. */
  lemma {:induction false} EqualSymmetric(a: Data, b: Data, eq: DoubleEq)
    requires forall x, y :: eq(x, y) == eq(y, x)
    ensures Equal(a, b, eq) == Equal(b, a, eq)
  {
    match a
    case Object(m) =>
      if b.Object? && m.Keys == b.fields.Keys {
        forall k | k in m {
          EqualSymmetric(m[k], b.fields[k], eq);
        }
      }
    case Array(x) =>
      if b.Array? && |x| == |b.items| {
        forall i | 0 <= i < |x| {
          EqualSymmetric(x[i], b.items[i], eq);
        }
      }
    case _ =>
  }

  /** The result of the non-const operator[](key), as a new variant: a
      non-Object is replaced by an empty Object, then a missing key is added
      holding Empty. */
  function WithKey(d: Data, key: string): (r: Data)
    ensures r.Object? && key in r.fields
    ensures r.fields.Keys == (if d.Object? then d.fields.Keys else {}) + {key}
    ensures d.Object? ==> forall k | k in d.fields :: r.fields[k] == d.fields[k]
    ensures !(d.Object? && key in d.fields) ==> r.fields[key] == Empty
  {
    var m := if d.Object? then d.fields else map[];
    Object(if key in m then m else m[key := Empty])
  }

  /** The result of the non-const operator[](index), as a new variant: a
      non-Array is replaced by an empty Array, which is then padded with Empty
      until it has more than `index` elements. */
  function WithIndex(d: Data, index: nat): (r: Data)
    ensures r.Array? && index < |r.items|
    ensures |r.items| == if d.Array? && index < |d.items| then |d.items| else index + 1
    ensures d.Array? ==> forall j | 0 <= j < |d.items| :: r.items[j] == d.items[j]
    ensures forall j | (if d.Array? then |d.items| else 0) <= j < |r.items| :: r.items[j] == Empty
  {
    var a := if d.Array? then d.items else [];
    if index < |a| then Array(a) else Array(a + seq(index + 1 - |a|, _ => Empty))
  }

  /** `v[key] = x`: the assignment through the reference the non-const
      operator[](key) returns. */
  function SetKey(d: Data, key: string, x: Data): (r: Data)
    ensures r.Object? && r.fields.Keys == WithKey(d, key).fields.Keys && r.fields[key] == x
    ensures d.Object? ==> forall k | k in d.fields && k != key :: r.fields[k] == d.fields[k]
  {
    Object(WithKey(d, key).fields[key := x])
  }

  /** `v[index] = x`: the assignment through the reference the non-const
      operator[](index) returns. */
  function SetIndex(d: Data, index: nat, x: Data): (r: Data)
    ensures r.Array? && |r.items| == |WithIndex(d, index).items| && r.items[index] == x
    ensures forall j | 0 <= j < |r.items| && j != index :: r.items[j] == WithIndex(d, index).items[j]
  {
    Array(WithIndex(d, index).items[index := x])
  }

  /** Auto-vivification on a fresh Value, as two key accesses and one index access. */
  lemma AutoVivification()
    ensures WithKey(WithKey(Empty, "a"), "b") == Object(map["a" := Empty, "b" := Empty])
    ensures WithIndex(Empty, 3) == Array([Empty, Empty, Empty, Empty])
  {
    var r := WithKey(WithKey(Empty, "a"), "b");
    assert r.fields.Keys == {"a", "b"};
    assert r.fields == map["a" := Empty, "b" := Empty];
    var s := WithIndex(Empty, 3);
    assert |s.items| == 4;
    assert s.items == [Empty, Empty, Empty, Empty];
  }

  /** The shared immutable sentinel returned by the const accessors. */
  const Dummy: Data := Empty

  /**
   * JSON::Value: a variable holding one variant. Mutating operations change
   * `data`; the const accessors are functions reading it.
   */
  class Value {
    var data: Data

    /** Value() = default: the Empty alternative. */
    constructor ()
      ensures data == Empty
    {
      data := Empty;
    }

    /** The converting constructor Value(T&&). */
    constructor From(arg: Arg)
      ensures data == Converted(arg)
    {
      data := Converted(arg);
    }

    /** is<T>() */
    function Is(alt: Alternative): (r: bool)
      reads this
      ensures r <==> AlternativeOf(data) == alt
    {
      Holds(data, alt)
    }

    /** getAs<JObject>(): only when the Object alternative is held. */
    function AsObject(): (r: map<string, Data>)
      reads this
      requires Is(ObjectAlt)
      ensures data == Object(r)
    {
      data.fields
    }

    /** getAs<JArray>() */
    function AsArray(): (r: seq<Data>)
      reads this
      requires Is(ArrayAlt)
      ensures data == Array(r)
    {
      data.items
    }

    /** getAs<JString>() */
    function AsString(): (r: string)
      reads this
      requires Is(StringAlt)
      ensures data == String(r)
    {
      data.text
    }

    /** getAs<JNumber>() */
    function AsNumber(): (r: Double)
      reads this
      requires Is(NumberAlt)
      ensures data == Number(r)
    {
      data.number
    }

    /** getAs<JBool>() */
    function AsBoolean(): (r: bool)
      reads this
      requires Is(BooleanAlt)
      ensures data == Boolean(r)
    {
      data.flag
    }

    /** emplace<T>(args): `alternative` is the alternative T constructed from args;
        whatever was held before is discarded. */
    method Emplace(alternative: Data)
      modifies this
      ensures data == alternative
    {
      data := alternative;
    }

    /** The converting operator=(T&&) for every T other than Value. */
    method Assign(arg: Arg)
      requires !arg.FromValue?
      modifies this
      ensures data == Converted(arg)
    {
      data := Converted(arg);
    }

    /** operator=(const Value&): a no-op on self-assignment, otherwise the
        target takes a copy of the source's variant. */
    method AssignValue(right: Value)
      modifies this
      ensures data == old(right.data)
      ensures this != right ==> right.data == old(right.data)
    {
      if this != right {
        data := right.data;
      }
    }

    /** operator==: the identity shortcut, then structural equality. */
    function Equals(right: Value, eq: DoubleEq): (r: bool)
      reads this, right
      ensures this == right ==> r
      ensures this != right ==> (r <==> Equal(data, right.data, eq))
    {
      this == right || Equal(data, right.data, eq)
    }

    /** operator!= as written: std::variant's operator!=, which skips the
        identity shortcut of operator== at the top level only. On a Value
        compared with itself, a held container compares its boxes through
        Value::operator==, which does take the shortcut for every element,
        so only a directly held double is compared by IEEE inequality. */
    function NotEquals(right: Value, eq: DoubleEq): (r: bool)
      reads this, right
      ensures this != right ==> (r <==> !Equal(data, right.data, eq))
      ensures this == right ==> (r <==> data.Number? && !eq(data.number, data.number))
    {
      if this == right then data.Number? && !eq(data.number, data.number)
      else !Equal(data, right.data, eq)
    }

    /** operator!= as the negation of operator==. */
    function NotEqualsCorrected(right: Value, eq: DoubleEq): (r: bool)
      reads this, right
      ensures r <==> !Equals(right, eq)
      ensures this != right ==> (r <==> NotEquals(right, eq))
    {
      !Equals(right, eq)
    }

    /** hasKey */
    function HasKey(key: string): (r: bool)
      reads this
      ensures r <==> Is(ObjectAlt) && key in AsObject()
    {
      data.Object? && key in data.fields
    }

    /** const operator[](key): the stored entry, or the shared sentinel. */
    function AtKey(key: string): (r: Data)
      reads this
      ensures HasKey(key) ==> r == data.fields[key]
      ensures !HasKey(key) ==> r == Dummy
    {
      if data.Object? && key in data.fields then data.fields[key] else Dummy
    }

    /** const operator[](index): the element, or the shared sentinel. */
    function At(index: nat): (r: Data)
      reads this
      ensures data.Array? && index < |data.items| ==> r == data.items[index]
      ensures !(data.Array? && index < |data.items|) ==> r == Dummy
    {
      if data.Array? && index < |data.items| then data.items[index] else Dummy
    }

    /** Non-const operator[](key); returns the (possibly new) entry. */
    method IndexKey(key: string) returns (entry: Data)
      modifies this
      ensures data == WithKey(old(data), key)
      ensures entry == data.fields[key]
    {
      if !data.Object? {
        data := Object(map[]);
      }
      if key !in data.fields {
        data := Object(data.fields[key := Empty]);
      }
      entry := data.fields[key];
    }

    /** Non-const operator[](index): pads with Empty one element at a time. */
    method Index(index: nat) returns (element: Data)
      modifies this
      ensures data == WithIndex(old(data), index)
      ensures element == data.items[index]
    {
      if !data.Array? {
        data := Array([]);
      }
      ghost var start := data.items;
      while |data.items| <= index
        invariant data.Array?
        invariant |start| <= |data.items| <= (if index < |start| then |start| else index + 1)
        invariant data.items[..|start|] == start
        invariant forall j | |start| <= j < |data.items| :: data.items[j] == Empty
        decreases index + 1 - |data.items|
      {
        data := Array(data.items + [Empty]);
      }
      element := data.items[index];
    }

    /** `v[key] = x`: operator[](key), then assignment through the reference. */
    method AssignAtKey(key: string, x: Data)
      modifies this
      ensures data == SetKey(old(data), key, x)
    {
      var _ := IndexKey(key);
      data := Object(data.fields[key := x]);
    }

    /** `v[index] = x`: operator[](index), then assignment through the reference. */
    method AssignAtIndex(index: nat, x: Data)
      modifies this
      ensures data == SetIndex(old(data), index, x)
    {
      var _ := Index(index);
      data := Array(data.items[index := x]);
    }
  }

  /** A second `v[key]` or `v[index]` changes nothing, and neither does one
      after an assignment through it. */
  lemma VivifyIdempotent(d: Data, key: string, index: nat, x: Data)
    ensures WithKey(WithKey(d, key), key) == WithKey(d, key)
    ensures WithIndex(WithIndex(d, index), index) == WithIndex(d, index)
    ensures WithKey(SetKey(d, key, x), key) == SetKey(d, key, x)
    ensures WithIndex(SetIndex(d, index, x), index) == SetIndex(d, index, x)
  {
  }

  /** A Value holding a double that is unequal to itself (NaN) is, as
      written, both equal and unequal to itself. */
  lemma NaNIsEqualAndUnequalToItself(v: Value, eq: DoubleEq, nan: Double)
    requires v.data == Number(nan) && !eq(nan, nan)
    ensures v.Equals(v, eq) && v.NotEquals(v, eq)
    ensures !v.NotEqualsCorrected(v, eq)
  {
  }

  /** A NaN inside a container is reached through Value::operator== and its
      identity shortcut, so such a Value is not unequal to itself. */
  lemma NestedNaNNotUnequalToItself(v: Value, eq: DoubleEq, nan: Double)
    requires v.data == Array([Number(nan)]) && !eq(nan, nan)
    ensures v.Equals(v, eq) && !v.NotEquals(v, eq)
    ensures !Equal(v.data, v.data, eq)
  {
    assert !Equal(v.data.items[0], v.data.items[0], eq);
  }

  /** The as-written operator!= and the negation of operator== disagree
      exactly on a Value compared with itself that holds a double unequal
      to itself. */
  lemma NotEqualsDisagreement(v: Value, right: Value, eq: DoubleEq)
    ensures v.NotEquals(right, eq) != v.NotEqualsCorrected(right, eq)
        <==> v == right && v.data.Number? && !eq(v.data.number, v.data.number)
  {
  }

  /**
   * HeapObject<T>: an owning pointer. `pointee` is None when the pointer is
   * null (only after HeapObject(nullptr), a move out, or reset()).
   */
  class HeapObject<T> {
    var pointee: Option<T>

    /** HeapObject(): owns a value-initialised T, here passed as `init`. */
    constructor (init: T)
      ensures pointee == Some(init)
    {
      pointee := Some(init);
    }

    /** HeapObject(nullptr) */
    constructor Null()
      ensures pointee == None
    {
      pointee := None;
    }

    /** The copy constructor: a new box owning a copy of the pointee. */
    constructor Copy(other: HeapObject<T>)
      requires other.pointee.Some?
      ensures pointee == other.pointee
    {
      pointee := other.pointee;
    }

    /** The move constructor: the pointee changes owner, the source is left null. */
    constructor Move(other: HeapObject<T>)
      modifies other
      ensures pointee == old(other.pointee)
      ensures other.pointee == None
    {
      pointee := other.pointee;
      other.pointee := None;
    }

    /** Copy assignment: the old pointee is destroyed, a copy of the other's is owned. */
    method CopyAssign(other: HeapObject<T>)
      requires other.pointee.Some?
      modifies this
      ensures pointee == old(other.pointee)
      ensures other != this ==> other.pointee == old(other.pointee)
    {
      pointee := other.pointee;
    }

    /** Move assignment, reset(other.release()): self-move keeps the pointee. */
    method MoveAssign(other: HeapObject<T>)
      modifies this, other
      ensures pointee == old(other.pointee)
      ensures other != this ==> other.pointee == None
    {
      var p := other.pointee;
      other.pointee := None;
      pointee := p;
    }

    /** Assignment of a T: overwrites the pointee in place. */
    method AssignPointee(x: T)
      requires pointee.Some?
      modifies this
      ensures pointee == Some(x)
    {
      pointee := Some(x);
    }

    /** operator=(nullptr): reset() */
    method Reset()
      modifies this
      ensures pointee == None
    {
      pointee := None;
    }

    /** operator==: T's own operator== on the pointees (`eqT`), not a
        comparison of addresses. A box equals itself only when T's == is
        reflexive (a double box holding NaN does not). */
    function Equals(right: HeapObject<T>, eqT: (T, T) -> bool): (r: bool)
      reads this, right
      requires pointee.Some? && right.pointee.Some?
      ensures r <==> eqT(pointee.value, right.pointee.value)
      ensures this == right ==> (r <==> eqT(pointee.value, pointee.value))
    {
      eqT(pointee.value, right.pointee.value)
    }

    /** operator!=: T's own operator!= on the pointees (`neT`). */
    function NotEquals(right: HeapObject<T>, neT: (T, T) -> bool): (r: bool)
      reads this, right
      requires pointee.Some? && right.pointee.Some?
      ensures r <==> neT(pointee.value, right.pointee.value)
    {
      neT(pointee.value, right.pointee.value)
    }
  }

  /** When T's != is the negation of its ==, so is the box's. */
  lemma BoxNotEqualsNegatesEquals<T>(h: HeapObject<T>, right: HeapObject<T>, eqT: (T, T) -> bool, neT: (T, T) -> bool)
    requires h.pointee.Some? && right.pointee.Some?
    requires forall x, y :: neT(x, y) == !eqT(x, y)
    ensures h.NotEquals(right, neT) == !h.Equals(right, eqT)
  {
  }

  /** A box of a double holding NaN is, by IEEE comparison, unequal to itself. */
  lemma NaNBoxUnequalToItself(h: HeapObject<Double>, eq: DoubleEq, nan: Double)
    requires h.pointee == Some(nan) && !eq(nan, nan)
    ensures !h.Equals(h, eq) && h.NotEquals(h, (x, y) => !eq(x, y))
  {
  }
}

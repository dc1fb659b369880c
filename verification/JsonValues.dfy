/** JSON values as the validator's JSON library holds them: integers and floats
    are different types of value that nevertheless compare by numeric value. */
module JsonValues {
  datatype Option<T> = None | Some(value: T)

  datatype Json =
    | Null
    | Boolean(truth: bool)
    | Integer(whole: int)
    | Float(number: real)
    | Text(chars: string)
    | Array(items: seq<Json>)
    | Object(fields: map<string, Json>)

  /** The types that index the validator's dispatch table. */
  datatype JsonType = NullType | BooleanType | IntegerType | NumberType | TextType | ArrayType | ObjectType

  function TypeOf(j: Json): JsonType {
    match j
    case Null => NullType
    case Boolean(_) => BooleanType
    case Integer(_) => IntegerType
    case Float(_) => NumberType
    case Text(_) => TextType
    case Array(_) => ArrayType
    case Object(_) => ObjectType
  }

  /** Values that contain others. */
  predicate Compound(j: Json) { j.Array? || j.Object? }

  predicate Whole(r: real) { r.Floor as real == r }

  /** The library's equality operator. */
  predicate Same(a: Json, b: Json) {
    match (a, b)
    case (Array(x), Array(y)) =>
      |x| == |y| && forall i :: 0 <= i < |x| ==> Same(x[i], y[i])
    case (Object(x), Object(y)) =>
      x.Keys == y.Keys && forall k :: k in x && k in y ==> Same(x[k], y[k])
    case (Integer(i), Float(r)) => i as real == r
    case (Float(r), Integer(i)) => i as real == r
    case _ => a == b
  }

  /** The value with every number that has no fraction written as an integer. */
  function Normal(j: Json): Json {
    match j
    case Float(r) => if Whole(r) then Integer(r.Floor) else j
    case Array(items) => Array(seq(|items|, i requires 0 <= i < |items| => Normal(items[i])))
    case Object(fields) => Object(map k | k in fields :: Normal(fields[k]))
    case _ => j
  }

  /** The library's equality is equality of JSON values, numbers being compared
      as numbers; in particular it is an equivalence. */
  lemma {:induction false} SameIsEqualValue(a: Json, b: Json)
    ensures Same(a, b) <==> Normal(a) == Normal(b)
    decreases a
  {
    match (a, b)
    case (Array(x), Array(y)) => SameArrays(x, y, a);
    case (Object(x), Object(y)) => SameObjects(x, y, a);
    case _ =>
  }

  lemma {:induction false} SameArrays(x: seq<Json>, y: seq<Json>, whole: Json)
    requires whole == Array(x)
    ensures Same(Array(x), Array(y)) <==> Normal(Array(x)) == Normal(Array(y))
    decreases whole, 0
  {
    var u, v := Normal(Array(x)).items, Normal(Array(y)).items;
    if |x| == |y| {
      forall i | 0 <= i < |x|
        ensures Same(x[i], y[i]) <==> u[i] == v[i]
      {
        SameIsEqualValue(x[i], y[i]);
      }
      if Same(Array(x), Array(y)) {
        assert u == v;
      }
    }
  }

  lemma {:induction false} SameObjects(x: map<string, Json>, y: map<string, Json>, whole: Json)
    requires whole == Object(x)
    ensures Same(Object(x), Object(y)) <==> Normal(Object(x)) == Normal(Object(y))
    decreases whole, 0
  {
    var u, v := Normal(Object(x)).fields, Normal(Object(y)).fields;
    assert u.Keys == x.Keys && v.Keys == y.Keys;
    if x.Keys == y.Keys {
      forall k | k in x
        ensures Same(x[k], y[k]) <==> u[k] == v[k]
      {
        SameIsEqualValue(x[k], y[k]);
      }
      if Same(Object(x), Object(y)) {
        assert u == v;
      }
    }
  }
}

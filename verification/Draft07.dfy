/** Schema documents, what JSON Schema draft-07 says they mean (JSON Schema
    Validation draft-07, sections 6.1 to 6.7), and the constructors that turn
    them into validator objects. */
module Draft07 {
  import opened JsonValues
  import opened RealArithmetic
  import opened Schemas

  datatype Document =
    | Truth(holds: bool)
    | Ref(target: string, own: OwnDefault)
    | Keywords(types: Option<seq<JsonType>>, enumeration: Option<seq<Json>>, constant: Option<Json>,
               bounds: Bounds, forText: TextKeywords, forObjects: ObjectKeywords, forArrays: ArrayKeywords,
               negated: Option<Document>, allOf: ListKeyword, anyOf: ListKeyword,
               oneOf: ListKeyword, condition: Option<Document>, consequent: Option<Document>,
               alternative: Option<Document>)

  /** Whether a default stands beside the $ref, and if so, whether the reference
      led to a schema when the default was given to a copy of it. */
  datatype OwnDefault = NoDefault | Overrides(resolved: bool, isNull: bool)
  {
    predicate Unresolved() { Overrides? && !resolved }

    /** A null default counts as none. */
    predicate Found() { Overrides? && !isNull }
  }

  datatype ListKeyword = NoList | List(documents: seq<Document>)

  datatype Bounds = Bounds(maximum: Option<real>, minimum: Option<real>,
                           exclusiveMaximum: Option<real>, exclusiveMinimum: Option<real>)

  datatype TextKeywords = TextKeywords(maxLength: Option<nat>, minLength: Option<nat>, pattern: Option<string>)

  datatype ObjectKeywords = ObjectKeywords(
    maxProperties: Option<nat>, minProperties: Option<nat>, required: seq<string>,
    properties: map<string, Document>, patterns: seq<(string, Document)>,
    additional: Option<Document>, dependencies: map<string, Dependency>, propertyNames: Option<Document>)

  datatype Dependency = Names(names: seq<string>) | Applies(document: Document)

  datatype ItemsKeyword = NoItems | Every(document: Document) | Tuple(documents: seq<Document>)

  datatype ArrayKeywords = ArrayKeywords(
    maxItems: Option<nat>, minItems: Option<nat>, uniqueItems: bool,
    items: ItemsKeyword, additionalItems: Option<Document>, contains: Option<Document>)

  // --------------------------------------------------- the specification

  /** References are well-founded and all of them lead somewhere. */
  predicate Closed(env: Env<Document>, d: Document, n: nat)
    requires env.Ranked()
    decreases d
  {
    match d
    case Truth(_) => true
    case Ref(id, _) => id in env.schemas && env.rank[id] < n
    case Keywords(_, _, _, _, _, forObjects, forArrays, negated, allOf, anyOf, oneOf,
                  condition, consequent, alternative) =>
      && ClosedObject(env, forObjects, n)
      && ClosedArray(env, forArrays)
      && (negated.Some? ==> Closed(env, negated.value, n))
      && (allOf.List? ==> forall i :: 0 <= i < |allOf.documents| ==> Closed(env, allOf.documents[i], n))
      && (anyOf.List? ==> forall i :: 0 <= i < |anyOf.documents| ==> Closed(env, anyOf.documents[i], n))
      && (oneOf.List? ==> forall i :: 0 <= i < |oneOf.documents| ==> Closed(env, oneOf.documents[i], n))
      && (condition.Some? ==> Closed(env, condition.value, n))
      && (consequent.Some? ==> Closed(env, consequent.value, n))
      && (alternative.Some? ==> Closed(env, alternative.value, n))
  }

  predicate ClosedObject(env: Env<Document>, o: ObjectKeywords, n: nat)
    requires env.Ranked()
    decreases o
  {
    && (forall k :: k in o.properties ==> Closed(env, o.properties[k], env.top))
    && (forall i :: 0 <= i < |o.patterns| ==> Closed(env, o.patterns[i].1, env.top))
    && (o.additional.Some? ==> Closed(env, o.additional.value, env.top))
    && (forall k :: k in o.dependencies && o.dependencies[k].Applies? ==>
          Closed(env, o.dependencies[k].document, n))
    && (o.propertyNames.Some? ==> Closed(env, o.propertyNames.value, env.top))
  }

  predicate ClosedArray(env: Env<Document>, a: ArrayKeywords)
    requires env.Ranked()
    decreases a
  {
    && (a.items.Every? ==> Closed(env, a.items.document, env.top))
    && (a.items.Tuple? ==> forall i :: 0 <= i < |a.items.documents| ==> Closed(env, a.items.documents[i], env.top))
    && (a.additionalItems.Some? ==> Closed(env, a.additionalItems.value, env.top))
    && (a.contains.Some? ==> Closed(env, a.contains.value, env.top))
  }

  predicate ClosedEnv(env: Env<Document>) {
    && env.Ranked()
    && forall id :: id in env.schemas ==> Closed(env, env.schemas[id], env.rank[id])
  }

  /** Section 6.1.1: an integer is any number without a fraction. */
  predicate IsOfType(t: JsonType, j: Json) {
    match t
    case NullType => j.Null?
    case BooleanType => j.Boolean?
    case IntegerType => j.Integer? || (j.Float? && j.number.Floor as real == j.number)
    case NumberType => j.Integer? || j.Float?
    case TextType => j.Text?
    case ArrayType => j.Array?
    case ObjectType => j.Object?
  }

  ghost predicate TypeHolds(types: Option<seq<JsonType>>, j: Json) {
    types.Some? ==> exists i :: 0 <= i < |types.value| && IsOfType(types.value[i], j)
  }

  function ValueOf(j: Json): real
    requires j.Integer? || j.Float?
  {
    if j.Integer? then j.whole as real else j.number
  }

  /** Equality of instances (JSON Schema core, section 4.2.3). */
  ghost predicate EqualValues(a: Json, b: Json) {
    || (a.Null? && b.Null?)
    || (a.Boolean? && b.Boolean? && a.truth == b.truth)
    || ((a.Integer? || a.Float?) && (b.Integer? || b.Float?) && ValueOf(a) == ValueOf(b))
    || (a.Text? && b.Text? && a.chars == b.chars)
    || (a.Array? && b.Array? && |a.items| == |b.items|
        && forall i :: 0 <= i < |a.items| ==> EqualValues(a.items[i], b.items[i]))
    || (a.Object? && b.Object? && a.fields.Keys == b.fields.Keys
        && forall k :: k in a.fields && k in b.fields ==> EqualValues(a.fields[k], b.fields[k]))
  }

  /** Section 6.1.2. */
  ghost predicate EnumHolds(values: seq<Json>, j: Json) {
    exists i :: 0 <= i < |values| && EqualValues(values[i], j)
  }

  /** Section 6.4.5. */
  ghost predicate ItemsUnique(items: seq<Json>) {
    forall a, b :: 0 <= a < b < |items| ==> !EqualValues(items[a], items[b])
  }

  /** Section 6.2, without multipleOf. */
  ghost predicate BoundsHold(b: Bounds, j: Json) {
    j.Integer? || j.Float? ==>
      && (b.maximum.Some? ==> ValueOf(j) <= b.maximum.value)
      && (b.minimum.Some? ==> ValueOf(j) >= b.minimum.value)
      && (b.exclusiveMaximum.Some? ==> ValueOf(j) < b.exclusiveMaximum.value)
      && (b.exclusiveMinimum.Some? ==> ValueOf(j) > b.exclusiveMinimum.value)
  }

  /** Section 6.3. */
  ghost predicate TextHolds(env: Env<Document>, t: TextKeywords, j: Json) {
    j.Text? ==>
      && (t.maxLength.Some? ==> |j.chars| <= t.maxLength.value)
      && (t.minLength.Some? ==> |j.chars| >= t.minLength.value)
      && (t.pattern.Some? ==> env.matches(j.chars, t.pattern.value))
  }

  /** The document d holds of the instance j. */
  ghost predicate Holds(env: Env<Document>, d: Document, j: Json, n: nat)
    requires ClosedEnv(env) && Closed(env, d, n)
    decreases Compound(j), j, n, d, 1
  {
    match d
    case Truth(holds) => holds
    case Ref(id, _) => Holds(env, env.schemas[id], j, env.rank[id])
    case Keywords(_, _, _, _, _, _, _, _, _, _, _, _, _, _) =>
      && TypeHolds(d.types, j)
      && (d.enumeration.Some? ==> EnumHolds(d.enumeration.value, j))
      && (d.constant.Some? ==> EqualValues(d.constant.value, j))
      && BoundsHold(d.bounds, j)
      && TextHolds(env, d.forText, j)
      && (j.Object? ==> ObjectHolds(env, d.forObjects, j, n))
      && (j.Array? ==> ArrayHolds(env, d.forArrays, j, n))
      && LogicHolds(env, d, j, n)
  }

  ghost predicate AllHold(env: Env<Document>, ds: seq<Document>, j: Json, n: nat)
    requires ClosedEnv(env) && forall i :: 0 <= i < |ds| ==> Closed(env, ds[i], n)
    decreases Compound(j), j, n, ds, 0
  {
    forall i :: 0 <= i < |ds| ==> Holds(env, ds[i], j, n)
  }

  ghost predicate SomeHolds(env: Env<Document>, ds: seq<Document>, j: Json, n: nat)
    requires ClosedEnv(env) && forall i :: 0 <= i < |ds| ==> Closed(env, ds[i], n)
    decreases Compound(j), j, n, ds, 0
  {
    exists i :: 0 <= i < |ds| && Holds(env, ds[i], j, n)
  }

  ghost predicate JustOneHolds(env: Env<Document>, ds: seq<Document>, j: Json, n: nat)
    requires ClosedEnv(env) && forall i :: 0 <= i < |ds| ==> Closed(env, ds[i], n)
    decreases Compound(j), j, n, ds, 0
  {
    exists i :: 0 <= i < |ds| && Holds(env, ds[i], j, n) &&
                forall k :: 0 <= k < |ds| && Holds(env, ds[k], j, n) ==> k == i
  }

  /** Sections 6.6 and 6.7. */
  ghost predicate LogicHolds(env: Env<Document>, d: Document, j: Json, n: nat)
    requires d.Keywords? && ClosedEnv(env) && Closed(env, d, n)
    decreases Compound(j), j, n, d, 0
  {
    && (d.negated.Some? ==> !Holds(env, d.negated.value, j, n))
    && (d.allOf.List? ==> AllHold(env, d.allOf.documents, j, n))
    && (d.anyOf.List? ==> SomeHolds(env, d.anyOf.documents, j, n))
    && (d.oneOf.List? ==> JustOneHolds(env, d.oneOf.documents, j, n))
    && (d.condition.Some? && Holds(env, d.condition.value, j, n) && d.consequent.Some? ==>
          Holds(env, d.consequent.value, j, n))
    && (d.condition.Some? && !Holds(env, d.condition.value, j, n) && d.alternative.Some? ==>
          Holds(env, d.alternative.value, j, n))
  }

  /** Section 6.5. */
  ghost predicate ObjectHolds(env: Env<Document>, o: ObjectKeywords, j: Json, n: nat)
    requires j.Object? && ClosedEnv(env) && ClosedObject(env, o, n)
    decreases Compound(j), j, n, o, 1
  {
    && (o.maxProperties.Some? ==> |j.fields| <= o.maxProperties.value)
    && (o.minProperties.Some? ==> |j.fields| >= o.minProperties.value)
    && (forall i :: 0 <= i < |o.required| ==> o.required[i] in j.fields)
    && (forall k :: k in j.fields ==> PropertyHolds(env, o, j, k, n))
    && (forall k :: k in o.dependencies && k in j.fields ==>
          match o.dependencies[k]
          case Names(names) => forall i :: 0 <= i < |names| ==> names[i] in j.fields
          case Applies(d) => Holds(env, d, j, n))
  }

  ghost predicate SomePattern(env: Env<Document>, o: ObjectKeywords, k: string) {
    exists i :: 0 <= i < |o.patterns| && env.matches(k, o.patterns[i].0)
  }

  ghost predicate PropertyHolds(env: Env<Document>, o: ObjectKeywords, j: Json, k: string, n: nat)
    requires j.Object? && k in j.fields && ClosedEnv(env) && ClosedObject(env, o, n)
    decreases Compound(j), j, n, o, 0
  {
    && (o.propertyNames.Some? ==> Holds(env, o.propertyNames.value, Text(k), env.top))
    && (k in o.properties ==> Holds(env, o.properties[k], j.fields[k], env.top))
    && (forall i :: 0 <= i < |o.patterns| && env.matches(k, o.patterns[i].0) ==>
          Holds(env, o.patterns[i].1, j.fields[k], env.top))
    && (k !in o.properties && !SomePattern(env, o, k) && o.additional.Some? ==>
          Holds(env, o.additional.value, j.fields[k], env.top))
  }

  /** Section 6.4. */
  ghost predicate ArrayHolds(env: Env<Document>, a: ArrayKeywords, j: Json, n: nat)
    requires j.Array? && ClosedEnv(env) && ClosedArray(env, a)
    decreases Compound(j), j, n, a, 1
  {
    && (a.maxItems.Some? ==> |j.items| <= a.maxItems.value)
    && (a.minItems.Some? ==> |j.items| >= a.minItems.value)
    && (a.uniqueItems ==> ItemsUnique(j.items))
    && (forall i :: 0 <= i < |j.items| ==> ItemHolds(env, a, j, i, n))
    && (a.contains.Some? ==>
          exists i :: 0 <= i < |j.items| && Holds(env, a.contains.value, j.items[i], env.top))
  }

  ghost predicate ItemHolds(env: Env<Document>, a: ArrayKeywords, j: Json, i: nat, n: nat)
    requires j.Array? && i < |j.items| && ClosedEnv(env) && ClosedArray(env, a)
    decreases Compound(j), j, n, a, 0
  {
    match a.items
    case NoItems => true
    case Every(d) => Holds(env, d, j.items[i], env.top)
    case Tuple(ds) =>
      if i < |ds| then Holds(env, ds[i], j.items[i], env.top)
      else a.additionalItems.Some? ==> Holds(env, a.additionalItems.value, j.items[i], env.top)
  }

  // ---------------------------------------------------- the constructors

  /** A floating-point bound read as an integer loses its fraction. */
  function WholePart(r: real): real { Truncated(r) as real }

  /** The value kept for a pair of bounds: the exclusive one, read last, overwrites. */
  function Kept(plain: Option<real>, exclusive: Option<real>, toInteger: bool): Option<real> {
    var bound := if exclusive.Some? then exclusive else plain;
    if bound.Some? && toInteger then Some(WholePart(bound.value)) else bound
  }

  function MakeNumber(b: Bounds, toInteger: bool): Schema {
    NumberCheck(Kept(b.maximum, b.exclusiveMaximum, toInteger), Kept(b.minimum, b.exclusiveMinimum, toInteger),
                b.exclusiveMaximum.Some?, b.exclusiveMinimum.Some?)
  }

  function MakeText(t: TextKeywords): Schema {
    TextCheck(t.maxLength, t.minLength, t.pattern)
  }

  function MakeOption(o: Option<Document>): Option<Schema>
    decreases o
  {
    match o
    case None => None
    case Some(d) => Some(Make(d))
  }

  function MakeAll(ds: seq<Document>): (list: seq<Schema>)
    ensures |list| == |ds|
    ensures forall i :: 0 <= i < |ds| ==> list[i] == Make(ds[i])
    decreases ds, 0
  {
    seq(|ds|, i requires 0 <= i < |ds| => Make(ds[i]))
  }

  function MakeObject(o: ObjectKeywords): Schema
    decreases o
  {
    ObjectCheck(
      o.maxProperties, o.minProperties, o.required,
      map k | k in o.properties :: Make(o.properties[k]),
      seq(|o.patterns|, i requires 0 <= i < |o.patterns| => (o.patterns[i].0, Make(o.patterns[i].1))),
      MakeOption(o.additional),
      map k | k in o.dependencies ::
        match o.dependencies[k] {
          case Names(names) => Required(names)
          case Applies(d) => Make(d)
        },
      MakeOption(o.propertyNames))
  }

  /** additionalItems is looked at only beside a list of item schemas. */
  function MakeArray(a: ArrayKeywords): Schema
    decreases a
  {
    ArrayCheck(
      a.maxItems, a.minItems, a.uniqueItems,
      if a.items.Every? then Some(Make(a.items.document)) else None,
      if a.items.Tuple? then MakeAll(a.items.documents) else [],
      if a.items.Tuple? then MakeOption(a.additionalItems) else None,
      MakeOption(a.contains))
  }

  const EMPTY_OBJECT := ObjectCheck(None, None, [], map[], [], None, map[], None)
  const EMPTY_ARRAY := ArrayCheck(None, None, false, None, [], None, None)
  const EMPTY_TEXT := TextCheck(None, None, None)

  /** The type is written at least twice in the list. The keywords of strings,
      arrays and objects are erased as they are read, so the second validator
      built for such a type is empty, and it replaces the first. */
  predicate Repeated(types: Option<seq<JsonType>>, t: JsonType) {
    types.Some? && multiset(types.value)[t] > 1
  }

  /** The type has an entry of its own in the dispatch table. */
  predicate Offered(types: Option<seq<JsonType>>, t: JsonType) {
    types.None? || t in types.value
  }

  function MakeTable(d: Document): map<JsonType, Schema>
    requires d.Keywords?
    decreases d, 0
  {
    map t: JsonType | Offered(d.types, t) || (t == IntegerType && Offered(d.types, NumberType)) ::
      match t
      case NullType => AnyValue
      case BooleanType => AnyValue
      case IntegerType => MakeNumber(d.bounds, Offered(d.types, IntegerType))
      case NumberType => MakeNumber(d.bounds, false)
      case TextType => if Repeated(d.types, TextType) then EMPTY_TEXT else MakeText(d.forText)
      case ArrayType => if Repeated(d.types, ArrayType) then EMPTY_ARRAY else MakeArray(d.forArrays)
      case ObjectType => if Repeated(d.types, ObjectType) then EMPTY_OBJECT else MakeObject(d.forObjects)
  }

  function MakeNegated(o: Option<Document>): seq<Schema>
    decreases o
  {
    if o.Some? then [Not(Make(o.value))] else []
  }

  function MakeCombined(kind: Combination, k: ListKeyword): seq<Schema>
    decreases k
  {
    if k.List? then [Combined(kind, MakeAll(k.documents))] else []
  }

  function MakeLogic(d: Document): seq<Schema>
    requires d.Keywords?
    decreases d, 0
  {
    MakeNegated(d.negated) + (MakeCombined(AllOf, d.allOf) +
                              (MakeCombined(AnyOf, d.anyOf) + MakeCombined(OneOf, d.oneOf)))
  }

  /** The validator object for a document; if without then and else is dropped. */
  function Make(d: Document): Schema
    decreases d
  {
    match d
    case Truth(holds) => Verdict(holds)
    case Ref(id, own) => if own.Unresolved() then Dangling(own.Found()) else Reference(id, own.Found())
    case Keywords(_, enumeration, constant, _, _, _, _, _, _, _, _, condition, consequent, alternative) =>
      var branches := consequent.Some? || alternative.Some?;
      Typed(MakeTable(d), enumeration, constant, MakeLogic(d),
            if condition.Some? && branches then Some(Make(condition.value)) else None,
            if condition.Some? then MakeOption(consequent) else None,
            if condition.Some? then MakeOption(alternative) else None)
  }

  function MakeEnv(env: Env<Document>): Env<Schema> {
    Env(map id | id in env.schemas :: Make(env.schemas[id]), env.rank, env.top, env.matches)
  }
}

/** The validator objects that a schema document is turned into, and which
    instances they accept. */
module Schemas {
  import opened JsonValues

  datatype Combination = AllOf | AnyOf | OneOf

  /** Dangling is a copy of a reference that was made, to give it a default of its
      own, before the reference was resolved: it points nowhere. */
  datatype Schema =
    | Verdict(accepts: bool)
    | Typed(table: map<JsonType, Schema>, enumeration: Option<seq<Json>>, constant: Option<Json>,
            logic: seq<Schema>, condition: Option<Schema>, consequent: Option<Schema>,
            alternative: Option<Schema>)
    | AnyValue
    | NumberCheck(maximum: Option<real>, minimum: Option<real>, exclusiveMaximum: bool, exclusiveMinimum: bool)
    | TextCheck(maxLength: Option<nat>, minLength: Option<nat>, pattern: Option<string>)
    | Required(names: seq<string>)
    | ObjectCheck(maxProperties: Option<nat>, minProperties: Option<nat>, required: seq<string>,
                  properties: map<string, Schema>, patterns: seq<(string, Schema)>,
                  additional: Option<Schema>, dependencies: map<string, Schema>,
                  propertyNames: Option<Schema>)
    | ArrayCheck(maxItems: Option<nat>, minItems: Option<nat>, uniqueItems: bool,
                 everyItem: Option<Schema>, firstItems: seq<Schema>, additionalItems: Option<Schema>,
                 contains: Option<Schema>)
    | Not(sub: Schema)
    | Combined(kind: Combination, subs: seq<Schema>)
    | Reference(id: string, ownDefault: bool)
    | Dangling(ownDefault: bool)

  /** What references resolve to, the regular-expression search, and a rank that
      shows the references to be well-founded: following a reference that
      applies to the same instance lowers the rank. */
  datatype Env<T> = Env(schemas: map<string, T>, rank: map<string, nat>, top: nat,
                        matches: (string, string) -> bool)
  {
    predicate Ranked() {
      forall id :: id in schemas ==> id in rank && rank[id] < top
    }
  }

  /** Every reference that s applies to its own instance has rank below n, and
      every reference it applies to a part of its instance has a rank at all. */
  predicate Guarded(env: Env<Schema>, s: Schema, n: nat)
    requires env.Ranked()
    decreases s
  {
    match s
    case Typed(table, _, _, logic, condition, consequent, alternative) =>
      && (forall t :: t in table ==> Guarded(env, table[t], n))
      && (forall i :: 0 <= i < |logic| ==> Guarded(env, logic[i], n))
      && (condition.Some? ==> Guarded(env, condition.value, n))
      && (consequent.Some? ==> Guarded(env, consequent.value, n))
      && (alternative.Some? ==> Guarded(env, alternative.value, n))
    case ObjectCheck(_, _, _, properties, patterns, additional, dependencies, propertyNames) =>
      && (forall k :: k in properties ==> Guarded(env, properties[k], env.top))
      && (forall i :: 0 <= i < |patterns| ==> Guarded(env, patterns[i].1, env.top))
      && (additional.Some? ==> Guarded(env, additional.value, env.top))
      && (forall k :: k in dependencies ==> Guarded(env, dependencies[k], n))
      && (propertyNames.Some? ==> Guarded(env, propertyNames.value, env.top))
    case ArrayCheck(_, _, _, everyItem, firstItems, additionalItems, contains) =>
      && (everyItem.Some? ==> Guarded(env, everyItem.value, env.top))
      && (forall i :: 0 <= i < |firstItems| ==> Guarded(env, firstItems[i], env.top))
      && (additionalItems.Some? ==> Guarded(env, additionalItems.value, env.top))
      && (contains.Some? ==> Guarded(env, contains.value, env.top))
    case Not(sub) => Guarded(env, sub, n)
    case Combined(_, subs) => forall i :: 0 <= i < |subs| ==> Guarded(env, subs[i], n)
    case Reference(id, _) => id in env.schemas ==> env.rank[id] < n
    case _ => true
  }

  predicate WellFounded(env: Env<Schema>) {
    && env.Ranked()
    && forall id :: id in env.schemas ==> Guarded(env, env.schemas[id], env.rank[id])
  }

  // ---------------------------------------------------------- denotation

  ghost predicate WithinMaximum(s: Schema, v: real)
    requires s.NumberCheck?
  {
    s.maximum.Some? ==> if s.exclusiveMaximum then v < s.maximum.value else v <= s.maximum.value
  }

  ghost predicate WithinMinimum(s: Schema, v: real)
    requires s.NumberCheck?
  {
    s.minimum.Some? ==> if s.exclusiveMinimum then v > s.minimum.value else v >= s.minimum.value
  }

  ghost predicate SizeWithin(size: nat, most: Option<nat>, least: Option<nat>) {
    && (most.Some? ==> size <= most.value)
    && (least.Some? ==> size >= least.value)
  }

  ghost predicate HasAll(names: seq<string>, fields: map<string, Json>) {
    forall i :: 0 <= i < |names| ==> names[i] in fields
  }

  /** The lookup of a default value finds a schema to ask. */
  ghost predicate DefaultReachable(env: Env<Schema>, s: Schema, n: nat)
    requires WellFounded(env) && Guarded(env, s, n)
    decreases n, s
  {
    match s
    case Not(sub) => DefaultReachable(env, sub, n)
    case Reference(id, own) =>
      own || (id in env.schemas && DefaultReachable(env, env.schemas[id], env.rank[id]))
    case Dangling(own) => own
    case _ => true
  }

  /** s accepts the instance j. */
  ghost predicate Accepts(env: Env<Schema>, s: Schema, j: Json, n: nat)
    requires WellFounded(env) && Guarded(env, s, n)
    decreases Compound(j), j, n, s, 1
  {
    match s
    case Verdict(accepts) => accepts
    case AnyValue => true
    case NumberCheck(_, _, _, _) =>
      && (j.Integer? ==> WithinMaximum(s, j.whole as real) && WithinMinimum(s, j.whole as real))
      && (j.Float? ==> WithinMaximum(s, j.number) && WithinMinimum(s, j.number))
    case TextCheck(maxLength, minLength, pattern) =>
      j.Text? ==>
        && SizeWithin(|j.chars|, maxLength, minLength)
        && (pattern.Some? ==> env.matches(j.chars, pattern.value))
    case Required(names) => j.Object? ==> HasAll(names, j.fields)
    case Typed(_, _, _, _, _, _, _) => AcceptsTyped(env, s, j, n)
    case ObjectCheck(_, _, _, _, _, _, _, _) => j.Object? ==> AcceptsObject(env, s, j, n)
    case ArrayCheck(_, _, _, _, _, _, _) => j.Array? ==> AcceptsArray(env, s, j, n)
    case Not(sub) => !Accepts(env, sub, j, n)
    case Combined(_, _) => AcceptsCombined(env, s, j, n)
    case Reference(id, _) =>
      id in env.schemas && Accepts(env, env.schemas[id], j, env.rank[id])
    case Dangling(_) => false
  }

  /** How many of several schemas have to accept. */
  ghost predicate Chosen(kind: Combination, r: seq<bool>) {
    match kind
    case AllOf => forall i :: 0 <= i < |r| ==> r[i]
    case AnyOf => exists i :: 0 <= i < |r| && r[i]
    case OneOf => exists i :: 0 <= i < |r| && r[i] && forall k :: 0 <= k < |r| && k != i ==> !r[k]
  }

  ghost function Outcomes(env: Env<Schema>, subs: seq<Schema>, j: Json, n: nat): (r: seq<bool>)
    requires WellFounded(env) && forall i :: 0 <= i < |subs| ==> Guarded(env, subs[i], n)
    ensures |r| == |subs| && forall i :: 0 <= i < |subs| ==> r[i] == Accepts(env, subs[i], j, n)
    decreases Compound(j), j, n, subs, 0
  {
    seq(|subs|, i requires 0 <= i < |subs| => Accepts(env, subs[i], j, n))
  }

  ghost predicate AcceptsCombined(env: Env<Schema>, s: Schema, j: Json, n: nat)
    requires s.Combined? && WellFounded(env) && Guarded(env, s, n)
    decreases Compound(j), j, n, s, 0
  {
    && (s.kind == AllOf ==> |s.subs| > 0)
    && Chosen(s.kind, Outcomes(env, s.subs, j, n))
  }

  ghost predicate Listed(values: seq<Json>, j: Json) {
    exists i :: 0 <= i < |values| && Normal(values[i]) == Normal(j)
  }

  ghost predicate AcceptsCondition(env: Env<Schema>, s: Schema, j: Json, n: nat)
    requires s.Typed? && WellFounded(env) && Guarded(env, s, n)
    decreases Compound(j), j, n, s, 0, 0
  {
    s.condition.Some? ==>
      if Accepts(env, s.condition.value, j, n)
      then s.consequent.Some? ==> Accepts(env, s.consequent.value, j, n)
      else s.alternative.Some? ==> Accepts(env, s.alternative.value, j, n)
  }

  ghost predicate AcceptsTyped(env: Env<Schema>, s: Schema, j: Json, n: nat)
    requires s.Typed? && WellFounded(env) && Guarded(env, s, n)
    decreases Compound(j), j, n, s, 0, 1
  {
    && TypeOf(j) in s.table
    && Accepts(env, s.table[TypeOf(j)], j, n)
    && (s.enumeration.Some? ==> Listed(s.enumeration.value, j))
    && (s.constant.Some? ==> Normal(s.constant.value) == Normal(j))
    && (forall i :: 0 <= i < |s.logic| ==> Accepts(env, s.logic[i], j, n))
    && AcceptsCondition(env, s, j, n)
  }

  /** Some of the first m property patterns is found in the name k. */
  ghost predicate PatternFound(env: Env<Schema>, patterns: seq<(string, Schema)>, k: string, m: nat) {
    exists i :: 0 <= i < m && i < |patterns| && env.matches(k, patterns[i].0)
  }

  ghost predicate AcceptsProperty(env: Env<Schema>, s: Schema, j: Json, k: string, n: nat)
    requires s.ObjectCheck? && j.Object? && k in j.fields && WellFounded(env) && Guarded(env, s, n)
    decreases Compound(j), j, n, s, 0, 0
  {
    && (s.propertyNames.Some? ==> Accepts(env, s.propertyNames.value, Text(k), env.top))
    && (k in s.properties ==> Accepts(env, s.properties[k], j.fields[k], env.top))
    && (forall i :: 0 <= i < |s.patterns| && env.matches(k, s.patterns[i].0) ==>
          Accepts(env, s.patterns[i].1, j.fields[k], env.top))
    && (k !in s.properties && !PatternFound(env, s.patterns, k, |s.patterns|) && s.additional.Some? ==>
          Accepts(env, s.additional.value, j.fields[k], env.top))
  }

  ghost predicate AcceptsObject(env: Env<Schema>, s: Schema, j: Json, n: nat)
    requires s.ObjectCheck? && j.Object? && WellFounded(env) && Guarded(env, s, n)
    decreases Compound(j), j, n, s, 0, 1
  {
    && SizeWithin(|j.fields|, s.maxProperties, s.minProperties)
    && HasAll(s.required, j.fields)
    && (forall k :: k in j.fields ==> AcceptsProperty(env, s, j, k, n))
    && (forall k :: k in s.properties && k !in j.fields ==> DefaultReachable(env, s.properties[k], env.top))
    && (forall k :: k in s.dependencies && k in j.fields ==> Accepts(env, s.dependencies[k], j, n))
  }

  ghost predicate Distinct(items: seq<Json>) {
    forall a, b :: 0 <= a < b < |items| ==> Normal(items[a]) != Normal(items[b])
  }

  ghost predicate AcceptsItem(env: Env<Schema>, s: Schema, j: Json, i: nat, n: nat)
    requires s.ArrayCheck? && j.Array? && i < |j.items| && WellFounded(env) && Guarded(env, s, n)
    decreases Compound(j), j, n, s, 0, 0
  {
    if s.everyItem.Some? then Accepts(env, s.everyItem.value, j.items[i], env.top)
    else if i < |s.firstItems| then Accepts(env, s.firstItems[i], j.items[i], env.top)
    else s.additionalItems.Some? ==> Accepts(env, s.additionalItems.value, j.items[i], env.top)
  }

  ghost predicate AcceptsArray(env: Env<Schema>, s: Schema, j: Json, n: nat)
    requires s.ArrayCheck? && j.Array? && WellFounded(env) && Guarded(env, s, n)
    decreases Compound(j), j, n, s, 0, 1
  {
    && SizeWithin(|j.items|, s.maxItems, s.minItems)
    && (s.uniqueItems ==> Distinct(j.items))
    && (forall i :: 0 <= i < |j.items| ==> AcceptsItem(env, s, j, i, n))
    && (s.contains.Some? ==>
          exists i :: 0 <= i < |j.items| && Accepts(env, s.contains.value, j.items[i], env.top))
  }
}

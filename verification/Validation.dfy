/** The validate methods: mutual recursion over the validator objects with local
    counters, early exits and nested error handlers. */
module Validation {
  import opened JsonValues
  import opened Schemas

  class FirstErrorHandler {
    var failed: bool

    constructor ()
      ensures !failed
    {
      failed := false;
    }

    method Error()
      modifies this
      ensures failed
    {
      failed := true;
    }
  }

  method CheckRequired(names: seq<string>, fields: map<string, Json>, e: FirstErrorHandler)
    modifies e
    ensures e.failed == (old(e.failed) || !HasAll(names, fields))
  {
    var i := 0;
    while i < |names|
      invariant 0 <= i <= |names|
      invariant e.failed == (old(e.failed) || !HasAll(names[..i], fields))
    {
      assert names[..i + 1] == names[..i] + [names[i]];
      assert HasAll(names[..i + 1], fields) <==> HasAll(names[..i], fields) && names[i] in fields by {
        assert names[..i + 1][i] == names[i];
        assert forall k :: 0 <= k < i ==> names[..i + 1][k] == names[..i][k];
      }
      if names[i] !in fields {
        e.Error();
      }
      i := i + 1;
    }
    assert names[..i] == names;
  }

  method CheckSize(size: nat, most: Option<nat>, least: Option<nat>, e: FirstErrorHandler)
    modifies e
    ensures e.failed == (old(e.failed) || !SizeWithin(size, most, least))
  {
    if most.Some? && size > most.value {
      e.Error();
    }
    if least.Some? && size < least.value {
      e.Error();
    }
  }

  /** The value is an integer or a float, converted to the bounds' type. */
  method CheckNumber(s: Schema, v: real, e: FirstErrorHandler)
    requires s.NumberCheck?
    modifies e
    ensures e.failed == (old(e.failed) || !(WithinMaximum(s, v) && WithinMinimum(s, v)))
  {
    if s.maximum.Some? {
      if s.exclusiveMaximum && v >= s.maximum.value {
        e.Error();
      } else if v > s.maximum.value {
        e.Error();
      }
    }
    if s.minimum.Some? {
      if s.exclusiveMinimum && v <= s.minimum.value {
        e.Error();
      } else if v < s.minimum.value {
        e.Error();
      }
    }
  }

  method CheckText(env: Env<Schema>, s: Schema, chars: string, e: FirstErrorHandler)
    requires s.TextCheck?
    modifies e
    ensures e.failed == (old(e.failed) ||
                         !(SizeWithin(|chars|, s.maxLength, s.minLength) &&
                           (s.pattern.Some? ==> env.matches(chars, s.pattern.value))))
  {
    CheckSize(|chars|, s.maxLength, s.minLength, e);
    if s.pattern.Some? && !env.matches(chars, s.pattern.value) {
      e.Error();
    }
  }

  /** Linear search with the library's equality. */
  method Find(values: seq<Json>, j: Json) returns (seen: bool)
    ensures seen <==> Listed(values, j)
  {
    seen := false;
    var i := 0;
    while i < |values|
      invariant 0 <= i <= |values|
      invariant forall k :: 0 <= k < i ==> Normal(values[k]) != Normal(j)
    {
      SameIsEqualValue(values[i], j);
      if Same(values[i], j) {
        seen := true;
        return;
      }
      i := i + 1;
    }
  }

  method CheckUnique(items: seq<Json>, e: FirstErrorHandler)
    modifies e
    ensures e.failed == (old(e.failed) || !Distinct(items))
  {
    ghost var repeated := false;
    var i := 0;
    while i < |items|
      invariant 0 <= i <= |items|
      invariant repeated <==>
                exists a, b :: 0 <= a < i && a < b < |items| && Normal(items[a]) == Normal(items[b])
      invariant e.failed == (old(e.failed) || repeated)
    {
      var rest := items[i + 1..];
      var again := Find(rest, items[i]);
      assert again <==> exists b :: i < b < |items| && Normal(items[i]) == Normal(items[b]) by {
        if b :| i < b < |items| && Normal(items[i]) == Normal(items[b]) {
          assert rest[b - i - 1] == items[b];
        }
        if k :| 0 <= k < |rest| && Normal(rest[k]) == Normal(items[i]) {
          assert rest[k] == items[i + 1 + k];
        }
      }
      if again {
        e.Error();
      }
      repeated := repeated || again;
      i := i + 1;
    }
  }

  method FindDefault(env: Env<Schema>, s: Schema, e: FirstErrorHandler, ghost n: nat)
    requires WellFounded(env) && Guarded(env, s, n)
    modifies e
    ensures e.failed == (old(e.failed) || !DefaultReachable(env, s, n))
    decreases n, s
  {
    match s
    case Not(sub) => FindDefault(env, sub, e, n);
    case Reference(id, ownDefault) =>
      if !ownDefault {
        if id in env.schemas {
          FindDefault(env, env.schemas[id], e, env.rank[id]);
        } else {
          e.Error();
        }
      }
    case Dangling(ownDefault) =>
      if !ownDefault {
        e.Error();
      }
    case _ =>
  }

  /** Validation fails exactly when the schema does not accept the instance; an
      error already recorded stays recorded. */
  method Validate(env: Env<Schema>, s: Schema, j: Json, e: FirstErrorHandler, ghost n: nat)
    requires WellFounded(env) && Guarded(env, s, n)
    modifies e
    ensures e.failed == (old(e.failed) || !Accepts(env, s, j, n))
    decreases Compound(j), j, n, s, 2
  {
    match s
    case Verdict(accepts) =>
      if !accepts {
        e.Error();
      }
    case AnyValue =>
    case NumberCheck(_, _, _, _) =>
      if j.Integer? {
        CheckNumber(s, j.whole as real, e);
      } else if j.Float? {
        CheckNumber(s, j.number, e);
      }
    case TextCheck(_, _, _) =>
      if j.Text? {
        CheckText(env, s, j.chars, e);
      }
    case Required(names) =>
      if j.Object? {
        CheckRequired(names, j.fields, e);
      }
    case Typed(_, _, _, _, _, _, _) => ValidateTyped(env, s, j, e, n);
    case ObjectCheck(_, _, _, _, _, _, _, _) =>
      if j.Object? {
        ValidateObject(env, s, j, e, n);
      }
    case ArrayCheck(_, _, _, _, _, _, _) =>
      if j.Array? {
        ValidateArray(env, s, j, e, n);
      }
    case Not(sub) =>
      var esub := new FirstErrorHandler();
      Validate(env, sub, j, esub, n);
      if !esub.failed {
        e.Error();
      }
    case Combined(_, _) => ValidateCombined(env, s, j, e, n);
    case Reference(id, _) =>
      if id in env.schemas {
        Validate(env, env.schemas[id], j, e, env.rank[id]);
      } else {
        e.Error();
      }
    case Dangling(_) => e.Error();
  }

  /** Whether the loop over the alternatives can stop after one more outcome. */
  method IsValidateComplete(kind: Combination, e: FirstErrorHandler, failed: bool, count: nat)
    returns (complete: bool)
    modifies e
    ensures complete == match kind case AllOf => failed case AnyOf => count == 1 case OneOf => count > 1
    ensures e.failed == (old(e.failed) || (complete && kind != AnyOf))
  {
    match kind
    case AllOf =>
      if failed {
        e.Error();
      }
      complete := failed;
    case AnyOf =>
      complete := count == 1;
    case OneOf =>
      if count > 1 {
        e.Error();
      }
      complete := count > 1;
  }

  method ValidateCombined(env: Env<Schema>, s: Schema, j: Json, e: FirstErrorHandler, ghost n: nat)
    requires s.Combined? && WellFounded(env) && Guarded(env, s, n)
    modifies e
    ensures e.failed == (old(e.failed) || !AcceptsCombined(env, s, j, n))
    decreases Compound(j), j, n, s, 1
  {
    hide Accepts, WellFounded;
    var count := 0;
    ghost var winner := 0;
    ghost var r := Outcomes(env, s.subs, j, n);
    var i := 0;
    while i < |s.subs|
      invariant 0 <= i <= |s.subs|
      invariant e.failed == old(e.failed)
      invariant count == 0 ==> forall k :: 0 <= k < i ==> !r[k]
      invariant s.kind == AllOf ==> count == i && forall k :: 0 <= k < i ==> r[k]
      invariant s.kind == AnyOf ==> count == 0
      invariant s.kind == OneOf ==> count <= 1
      invariant s.kind == OneOf && count == 1 ==>
                  0 <= winner < i && r[winner] && forall k :: 0 <= k < i && k != winner ==> !r[k]
    {
      var esub := new FirstErrorHandler();
      Validate(env, s.subs[i], j, esub, n);
      if !esub.failed {
        count := count + 1;
        if count == 1 {
          winner := i;
        }
      }
      var complete := IsValidateComplete(s.kind, e, esub.failed, count);
      if complete {
        return;
      }
      i := i + 1;
    }
    if count == 0 {
      e.Error();
    }
  }

  /** The first m of the schemas in the list accept the instance. */
  ghost predicate AllAccept(env: Env<Schema>, list: seq<Schema>, j: Json, n: nat, m: nat)
    requires m <= |list| && WellFounded(env) && forall i :: 0 <= i < |list| ==> Guarded(env, list[i], n)
  {
    forall i :: 0 <= i < m ==> Accepts(env, list[i], j, n)
  }

  method ValidateAll(env: Env<Schema>, s: Schema, j: Json, e: FirstErrorHandler, ghost n: nat)
    requires s.Typed? && WellFounded(env) && Guarded(env, s, n)
    modifies e
    ensures e.failed == (old(e.failed) || !AllAccept(env, s.logic, j, n, |s.logic|))
    decreases Compound(j), j, n, s, 0
  {
    hide Accepts, WellFounded;
    var i := 0;
    while i < |s.logic|
      invariant 0 <= i <= |s.logic|
      invariant e.failed == (old(e.failed) || !AllAccept(env, s.logic, j, n, i))
    {
      Validate(env, s.logic[i], j, e, n);
      assert AllAccept(env, s.logic, j, n, i + 1) <==>
             AllAccept(env, s.logic, j, n, i) && Accepts(env, s.logic[i], j, n);
      i := i + 1;
    }
  }

  method ValidateCondition(env: Env<Schema>, s: Schema, j: Json, e: FirstErrorHandler, ghost n: nat)
    requires s.Typed? && WellFounded(env) && Guarded(env, s, n)
    modifies e
    ensures e.failed == (old(e.failed) || !AcceptsCondition(env, s, j, n))
    decreases Compound(j), j, n, s, 0
  {
    hide Accepts, WellFounded;
    if s.condition.Some? {
      var err := new FirstErrorHandler();
      Validate(env, s.condition.value, j, err, n);
      if !err.failed {
        if s.consequent.Some? {
          Validate(env, s.consequent.value, j, e, n);
        }
      } else {
        if s.alternative.Some? {
          Validate(env, s.alternative.value, j, e, n);
        }
      }
    }
  }

  method ValidateTyped(env: Env<Schema>, s: Schema, j: Json, e: FirstErrorHandler, ghost n: nat)
    requires s.Typed? && WellFounded(env) && Guarded(env, s, n)
    modifies e
    ensures e.failed == (old(e.failed) || !AcceptsTyped(env, s, j, n))
    decreases Compound(j), j, n, s, 1
  {
    hide Accepts, AcceptsCondition, WellFounded;
    if TypeOf(j) in s.table {
      Validate(env, s.table[TypeOf(j)], j, e, n);
    } else {
      e.Error();
    }
    if s.enumeration.Some? {
      var seen := Find(s.enumeration.value, j);
      if !seen {
        e.Error();
      }
    }
    if s.constant.Some? {
      SameIsEqualValue(s.constant.value, j);
      if !Same(s.constant.value, j) {
        e.Error();
      }
    }
    ValidateAll(env, s, j, e, n);
    ValidateCondition(env, s, j, e, n);
  }

  method ValidateProperty(env: Env<Schema>, s: Schema, j: Json, k: string, e: FirstErrorHandler, ghost n: nat)
    requires s.ObjectCheck? && j.Object? && k in j.fields && WellFounded(env) && Guarded(env, s, n)
    modifies e
    ensures e.failed == (old(e.failed) || !AcceptsProperty(env, s, j, k, n))
    decreases Compound(j), j, n, s, 0, 0
  {
    hide Accepts, WellFounded;
    if s.propertyNames.Some? {
      Validate(env, s.propertyNames.value, Text(k), e, env.top);
    }
    var matched := false;
    if k in s.properties {
      matched := true;
      Validate(env, s.properties[k], j.fields[k], e, env.top);
    }
    ghost var before := e.failed;
    var i := 0;
    while i < |s.patterns|
      invariant 0 <= i <= |s.patterns|
      invariant matched <==> k in s.properties || PatternFound(env, s.patterns, k, i)
      invariant e.failed == (before || exists m :: 0 <= m < i && env.matches(k, s.patterns[m].0)
                                                   && !Accepts(env, s.patterns[m].1, j.fields[k], env.top))
    {
      if env.matches(k, s.patterns[i].0) {
        matched := true;
        Validate(env, s.patterns[i].1, j.fields[k], e, env.top);
      }
      i := i + 1;
    }
    if !matched && s.additional.Some? {
      var additional := new FirstErrorHandler();
      Validate(env, s.additional.value, j.fields[k], additional, env.top);
      if additional.failed {
        e.Error();
      }
    }
  }

  ghost predicate PropertiesAccepted(env: Env<Schema>, s: Schema, j: Json, n: nat, names: set<string>)
    requires s.ObjectCheck? && j.Object? && WellFounded(env) && Guarded(env, s, n)
  {
    forall k :: k in names && k in j.fields ==> AcceptsProperty(env, s, j, k, n)
  }

  method ValidateProperties(env: Env<Schema>, s: Schema, j: Json, e: FirstErrorHandler, ghost n: nat)
    requires s.ObjectCheck? && j.Object? && WellFounded(env) && Guarded(env, s, n)
    modifies e
    ensures e.failed == (old(e.failed) || !PropertiesAccepted(env, s, j, n, j.fields.Keys))
    decreases Compound(j), j, n, s, 0, 1
  {
    hide AcceptsProperty, Guarded, WellFounded;
    var names := j.fields.Keys;
    ghost var done: set<string> := {};
    while names != {}
      invariant names + done == j.fields.Keys
      invariant e.failed == (old(e.failed) || !PropertiesAccepted(env, s, j, n, done))
      decreases |names|
    {
      var k :| k in names;
      ValidateProperty(env, s, j, k, e, n);
      assert PropertiesAccepted(env, s, j, n, done + {k}) <==>
             PropertiesAccepted(env, s, j, n, done) && AcceptsProperty(env, s, j, k, n);
      done := done + {k};
      names := names - {k};
    }
    assert done == j.fields.Keys;
  }

  ghost predicate DefaultsReachable(env: Env<Schema>, s: Schema, j: Json, n: nat, names: set<string>)
    requires s.ObjectCheck? && j.Object? && WellFounded(env) && Guarded(env, s, n)
  {
    forall k :: k in names && k in s.properties && k !in j.fields ==> DefaultReachable(env, s.properties[k], env.top)
  }

  /** The reverse search: defaults of the properties that the instance lacks. */
  method FindDefaults(env: Env<Schema>, s: Schema, j: Json, e: FirstErrorHandler, ghost n: nat)
    requires s.ObjectCheck? && j.Object? && WellFounded(env) && Guarded(env, s, n)
    modifies e
    ensures e.failed == (old(e.failed) || !DefaultsReachable(env, s, j, n, s.properties.Keys))
  {
    hide DefaultReachable, WellFounded;
    var names := s.properties.Keys;
    ghost var done: set<string> := {};
    while names != {}
      invariant names + done == s.properties.Keys
      invariant e.failed == (old(e.failed) || !DefaultsReachable(env, s, j, n, done))
      decreases |names|
    {
      var k :| k in names;
      if k !in j.fields {
        FindDefault(env, s.properties[k], e, env.top);
      }
      assert DefaultsReachable(env, s, j, n, done + {k}) <==>
             DefaultsReachable(env, s, j, n, done) &&
             (k !in j.fields ==> DefaultReachable(env, s.properties[k], env.top));
      done := done + {k};
      names := names - {k};
    }
    assert done == s.properties.Keys;
  }

  ghost predicate DependenciesAccepted(env: Env<Schema>, s: Schema, j: Json, n: nat, names: set<string>)
    requires s.ObjectCheck? && j.Object? && WellFounded(env) && Guarded(env, s, n)
  {
    forall k :: k in names && k in s.dependencies && k in j.fields ==> Accepts(env, s.dependencies[k], j, n)
  }

  method ValidateDependencies(env: Env<Schema>, s: Schema, j: Json, e: FirstErrorHandler, ghost n: nat)
    requires s.ObjectCheck? && j.Object? && WellFounded(env) && Guarded(env, s, n)
    modifies e
    ensures e.failed == (old(e.failed) || !DependenciesAccepted(env, s, j, n, s.dependencies.Keys))
    decreases Compound(j), j, n, s, 0, 1
  {
    hide Accepts, WellFounded;
    var names := s.dependencies.Keys;
    ghost var done: set<string> := {};
    while names != {}
      invariant names + done == s.dependencies.Keys
      invariant e.failed == (old(e.failed) || !DependenciesAccepted(env, s, j, n, done))
      decreases |names|
    {
      var k :| k in names;
      if k in j.fields {
        Validate(env, s.dependencies[k], j, e, n);
      }
      assert DependenciesAccepted(env, s, j, n, done + {k}) <==>
             DependenciesAccepted(env, s, j, n, done) &&
             (k in j.fields ==> Accepts(env, s.dependencies[k], j, n));
      done := done + {k};
      names := names - {k};
    }
    assert done == s.dependencies.Keys;
  }

  method ValidateObject(env: Env<Schema>, s: Schema, j: Json, e: FirstErrorHandler, ghost n: nat)
    requires s.ObjectCheck? && j.Object? && WellFounded(env) && Guarded(env, s, n)
    modifies e
    ensures e.failed == (old(e.failed) || !AcceptsObject(env, s, j, n))
    decreases Compound(j), j, n, s, 1
  {
    hide Accepts, AcceptsProperty, DefaultReachable, WellFounded;
    CheckSize(|j.fields|, s.maxProperties, s.minProperties, e);
    CheckRequired(s.required, j.fields, e);
    ValidateProperties(env, s, j, e, n);
    FindDefaults(env, s, j, e, n);
    ValidateDependencies(env, s, j, e, n);
  }

  ghost predicate ItemsAccepted(env: Env<Schema>, s: Schema, j: Json, n: nat, m: nat)
    requires s.ArrayCheck? && j.Array? && m <= |j.items| && WellFounded(env) && Guarded(env, s, n)
  {
    forall i :: 0 <= i < m ==> AcceptsItem(env, s, j, i, n)
  }

  method ValidateItems(env: Env<Schema>, s: Schema, j: Json, e: FirstErrorHandler, ghost n: nat)
    requires s.ArrayCheck? && j.Array? && WellFounded(env) && Guarded(env, s, n)
    modifies e
    ensures e.failed == (old(e.failed) || !ItemsAccepted(env, s, j, n, |j.items|))
    decreases Compound(j), j, n, s, 0
  {
    hide Accepts, WellFounded;
    var i := 0;
    if s.everyItem.Some? {
      while i < |j.items|
        invariant 0 <= i <= |j.items|
        invariant e.failed == (old(e.failed) || !ItemsAccepted(env, s, j, n, i))
      {
        Validate(env, s.everyItem.value, j.items[i], e, env.top);
        assert ItemsAccepted(env, s, j, n, i + 1) <==>
               ItemsAccepted(env, s, j, n, i) && AcceptsItem(env, s, j, i, n);
        i := i + 1;
      }
    } else {
      while i < |j.items|
        invariant 0 <= i <= |j.items|
        invariant e.failed == (old(e.failed) || !ItemsAccepted(env, s, j, n, i))
      {
        var validator: Option<Schema>;
        if i >= |s.firstItems| {
          validator := s.additionalItems;
        } else {
          validator := Some(s.firstItems[i]);
        }
        if validator.None? {
          assert forall k :: i <= k < |j.items| ==> AcceptsItem(env, s, j, k, n);
          break;
        }
        Validate(env, validator.value, j.items[i], e, env.top);
        assert ItemsAccepted(env, s, j, n, i + 1) <==>
               ItemsAccepted(env, s, j, n, i) && AcceptsItem(env, s, j, i, n);
        i := i + 1;
      }
    }
  }

  method ValidateContains(env: Env<Schema>, s: Schema, j: Json, e: FirstErrorHandler, ghost n: nat)
    requires s.ArrayCheck? && j.Array? && WellFounded(env) && Guarded(env, s, n) && s.contains.Some?
    modifies e
    ensures e.failed == (old(e.failed) ||
                         forall i :: 0 <= i < |j.items| ==> !Accepts(env, s.contains.value, j.items[i], env.top))
    decreases Compound(j), j, n, s, 0
  {
    hide Accepts, WellFounded;
    var contained := false;
    var i := 0;
    while i < |j.items|
      invariant 0 <= i <= |j.items|
      invariant !contained && e.failed == old(e.failed)
      invariant forall k :: 0 <= k < i ==> !Accepts(env, s.contains.value, j.items[k], env.top)
    {
      var local := new FirstErrorHandler();
      Validate(env, s.contains.value, j.items[i], local, env.top);
      if !local.failed {
        contained := true;
        break;
      }
      i := i + 1;
    }
    if !contained {
      e.Error();
    }
  }

  method ValidateArray(env: Env<Schema>, s: Schema, j: Json, e: FirstErrorHandler, ghost n: nat)
    requires s.ArrayCheck? && j.Array? && WellFounded(env) && Guarded(env, s, n)
    modifies e
    ensures e.failed == (old(e.failed) || !AcceptsArray(env, s, j, n))
    decreases Compound(j), j, n, s, 1
  {
    hide Accepts, AcceptsItem, WellFounded, Distinct;
    CheckSize(|j.items|, s.maxItems, s.minItems, e);
    if s.uniqueItems {
      CheckUnique(j.items, e);
    }
    ValidateItems(env, s, j, e, n);
    if s.contains.Some? {
      ValidateContains(env, s, j, e, n);
    }
  }
}

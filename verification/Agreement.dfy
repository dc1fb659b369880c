/** The validator objects built from a document accept exactly the instances of
    which the document holds; and exactly where the constructors part from the
    specification. */
module Agreement {
  import opened JsonValues
  import opened RealArithmetic
  import opened Schemas
  import opened Draft07
  import opened Validation

  // -------------------------------------------------- equality of values

  /** The library's equality is the equality of instances. */
  lemma {:induction false} SameIsEquality(a: Json, b: Json)
    ensures Same(a, b) <==> EqualValues(a, b)
    decreases a
  {
    match (a, b)
    case (Array(x), Array(y)) =>
      if |x| == |y| {
        forall i | 0 <= i < |x|
          ensures Same(x[i], y[i]) <==> EqualValues(x[i], y[i])
        {
          SameIsEquality(x[i], y[i]);
        }
      }
    case (Object(x), Object(y)) =>
      if x.Keys == y.Keys {
        forall k | k in x
          ensures Same(x[k], y[k]) <==> EqualValues(x[k], y[k])
        {
          SameIsEquality(x[k], y[k]);
        }
      }
    case _ =>
  }

  lemma EqualIsNormal(a: Json, b: Json)
    ensures EqualValues(a, b) <==> Normal(a) == Normal(b)
  {
    SameIsEquality(a, b);
    SameIsEqualValue(a, b);
  }

  lemma ListedIsEnum(values: seq<Json>, j: Json)
    ensures Listed(values, j) <==> EnumHolds(values, j)
  {
    hide EqualValues, Normal;
    forall i | 0 <= i < |values|
      ensures EqualValues(values[i], j) <==> Normal(values[i]) == Normal(j)
    {
      EqualIsNormal(values[i], j);
    }
  }

  lemma DistinctIsUnique(items: seq<Json>)
    ensures Distinct(items) <==> ItemsUnique(items)
  {
    hide EqualValues, Normal;
    forall a, b | 0 <= a < b < |items|
      ensures EqualValues(items[a], items[b]) <==> Normal(items[a]) == Normal(items[b])
    {
      EqualIsNormal(items[a], items[b]);
    }
  }

  // ----------------------------------------- where the keywords part ways

  ghost predicate UpperAgrees(b: Bounds, toInteger: bool, v: real) {
    WithinMaximum(MakeNumber(b, toInteger), v) <==>
    (b.maximum.Some? ==> v <= b.maximum.value) && (b.exclusiveMaximum.Some? ==> v < b.exclusiveMaximum.value)
  }

  ghost predicate LowerAgrees(b: Bounds, toInteger: bool, v: real) {
    WithinMinimum(MakeNumber(b, toInteger), v) <==>
    (b.minimum.Some? ==> v >= b.minimum.value) && (b.exclusiveMinimum.Some? ==> v > b.exclusiveMinimum.value)
  }

  ghost predicate IntegerUpper(b: Bounds, v: int) { UpperAgrees(b, true, v as real) }

  ghost predicate IntegerLower(b: Bounds, v: int) { LowerAgrees(b, true, v as real) }

  /** A plain bound beside an exclusive one is forgotten; for numbers that is
      harmless exactly when the plain bound was not the tighter of the two. */
  predicate NothingForgotten(b: Bounds) {
    && (b.maximum.Some? && b.exclusiveMaximum.Some? ==> b.exclusiveMaximum.value <= b.maximum.value)
    && (b.minimum.Some? && b.exclusiveMinimum.Some? ==> b.exclusiveMinimum.value >= b.minimum.value)
  }

  lemma NumberBoundsAgree(b: Bounds)
    ensures (forall v: real :: UpperAgrees(b, false, v) && LowerAgrees(b, false, v)) <==> NothingForgotten(b)
  {
    if b.maximum.Some? && b.exclusiveMaximum.Some? && b.exclusiveMaximum.value > b.maximum.value {
      assert !UpperAgrees(b, false, (b.exclusiveMaximum.value + b.maximum.value) / 2.0);
    }
    if b.minimum.Some? && b.exclusiveMinimum.Some? && b.exclusiveMinimum.value < b.minimum.value {
      assert !LowerAgrees(b, false, (b.exclusiveMinimum.value + b.minimum.value) / 2.0);
    }
  }

  function Ceiling(r: real): int { -((-r).Floor) }

  /** The greatest integer that the integer validator accepts: bounds are read as
      integers, which drops a fraction towards zero, and a plain bound beside an
      exclusive one is forgotten. */
  function UpperRead(b: Bounds): Option<int> {
    if b.exclusiveMaximum.Some? then Some(Truncated(b.exclusiveMaximum.value) - 1)
    else if b.maximum.Some? then Some(Truncated(b.maximum.value))
    else None
  }

  /** The greatest integer that the keywords allow. */
  function UpperMeant(b: Bounds): Option<int> {
    if b.maximum.None? && b.exclusiveMaximum.None? then None
    else if b.exclusiveMaximum.None? then Some(b.maximum.value.Floor)
    else
      var x := Ceiling(b.exclusiveMaximum.value) - 1;
      if b.maximum.Some? && b.maximum.value.Floor < x then Some(b.maximum.value.Floor) else Some(x)
  }

  function LowerRead(b: Bounds): Option<int> {
    if b.exclusiveMinimum.Some? then Some(Truncated(b.exclusiveMinimum.value) + 1)
    else if b.minimum.Some? then Some(Truncated(b.minimum.value))
    else None
  }

  function LowerMeant(b: Bounds): Option<int> {
    if b.minimum.None? && b.exclusiveMinimum.None? then None
    else if b.exclusiveMinimum.None? then Some(Ceiling(b.minimum.value))
    else
      var x := b.exclusiveMinimum.value.Floor + 1;
      if b.minimum.Some? && Ceiling(b.minimum.value) > x then Some(Ceiling(b.minimum.value)) else Some(x)
  }

  lemma FloorLimit(v: int, m: real)
    ensures v as real <= m <==> v <= m.Floor
  {
    assert m.Floor as real <= m < m.Floor as real + 1.0;
    if v > m.Floor {
      assert v as real >= m.Floor as real + 1.0;
    }
  }

  lemma CeilingLimit(v: int, m: real)
    ensures v as real >= m <==> v >= Ceiling(m)
  {
    FloorLimit(-v, -m);
    assert (-v) as real == -(v as real);
  }

  lemma UpperLimits(b: Bounds, v: int)
    ensures WithinMaximum(MakeNumber(b, true), v as real) <==> (UpperRead(b).Some? ==> v <= UpperRead(b).value)
    ensures (b.maximum.Some? ==> v as real <= b.maximum.value)
            && (b.exclusiveMaximum.Some? ==> (v as real) < b.exclusiveMaximum.value)
            <==> (UpperMeant(b).Some? ==> v <= UpperMeant(b).value)
  {
    hide Truncated, Ceiling;
    if b.maximum.Some? {
      FloorLimit(v, b.maximum.value);
    }
    if b.exclusiveMaximum.Some? {
      CeilingLimit(v, b.exclusiveMaximum.value);
    }
  }

  lemma LowerLimits(b: Bounds, v: int)
    ensures WithinMinimum(MakeNumber(b, true), v as real) <==> (LowerRead(b).Some? ==> v >= LowerRead(b).value)
    ensures (b.minimum.Some? ==> v as real >= b.minimum.value)
            && (b.exclusiveMinimum.Some? ==> v as real > b.exclusiveMinimum.value)
            <==> (LowerMeant(b).Some? ==> v >= LowerMeant(b).value)
  {
    hide Truncated, Ceiling;
    if b.minimum.Some? {
      CeilingLimit(v, b.minimum.value);
    }
    if b.exclusiveMinimum.Some? {
      FloorLimit(v, b.exclusiveMinimum.value);
    }
  }

  /** For integers the upper bounds kept agree with the keywords if and only if
      both come to the same greatest integer. */
  lemma IntegerUpperAgrees(b: Bounds)
    ensures (forall v: int :: IntegerUpper(b, v)) <==> UpperRead(b) == UpperMeant(b)
  {
    hide Truncated, Ceiling;
    forall v: int
      ensures IntegerUpper(b, v) <==>
              ((UpperRead(b).Some? ==> v <= UpperRead(b).value) <==> (UpperMeant(b).Some? ==> v <= UpperMeant(b).value))
    {
      UpperLimits(b, v);
    }
    if UpperRead(b) != UpperMeant(b) {
      var r, m := UpperRead(b).value, UpperMeant(b).value;
      assert !IntegerUpper(b, if r < m then m else r);
    }
  }

  lemma IntegerLowerAgrees(b: Bounds)
    ensures (forall v: int :: IntegerLower(b, v)) <==> LowerRead(b) == LowerMeant(b)
  {
    hide Truncated, Ceiling;
    forall v: int
      ensures IntegerLower(b, v) <==>
              ((LowerRead(b).Some? ==> v >= LowerRead(b).value) <==> (LowerMeant(b).Some? ==> v >= LowerMeant(b).value))
    {
      LowerLimits(b, v);
    }
    if LowerRead(b) != LowerMeant(b) {
      var r, m := LowerRead(b).value, LowerMeant(b).value;
      assert !IntegerLower(b, if r < m then r else m);
    }
  }

  predicate IntegerBoundsKept(b: Bounds) { UpperRead(b) == UpperMeant(b) && LowerRead(b) == LowerMeant(b) }

  /** A lone upper bound is kept unless it is negative with a fraction, a lone
      lower bound unless it is positive with one; for exclusive bounds it is the
      other way round. */
  lemma LoneBoundKept(m: real)
    ensures UpperRead(Bounds(Some(m), None, None, None)) == UpperMeant(Bounds(Some(m), None, None, None))
            <==> m >= 0.0 || Whole(m)
    ensures LowerRead(Bounds(None, Some(m), None, None)) == LowerMeant(Bounds(None, Some(m), None, None))
            <==> m <= 0.0 || Whole(m)
    ensures UpperRead(Bounds(None, None, Some(m), None)) == UpperMeant(Bounds(None, None, Some(m), None))
            <==> m <= 0.0 || Whole(m)
    ensures LowerRead(Bounds(None, None, None, Some(m))) == LowerMeant(Bounds(None, None, None, Some(m)))
            <==> m >= 0.0 || Whole(m)
  {
    FloorIsCeilingIff(m);
  }

  lemma FloorIsCeilingIff(m: real)
    ensures m.Floor == Ceiling(m) <==> Whole(m)
  {
    if Whole(m) {
      assert -m == (-(m.Floor)) as real;
    } else {
      CeilingLimit(m.Floor, m);
    }
  }

  /** The dispatch table agrees with the type keyword except on a float without
      fraction where integer is listed and number is not. */
  lemma TypeAgrees(d: Document, j: Json)
    requires d.Keywords?
    ensures (TypeOf(j) in MakeTable(d) <==> TypeHolds(d.types, j)) <==>
            !(j.Float? && j.number.Floor as real == j.number && d.types.Some?
              && IntegerType in d.types.value && NumberType !in d.types.value)
  {
    if d.types.Some? {
      var ts := d.types.value;
      if t :| t in ts && IsOfType(t, j) {
        var i :| 0 <= i < |ts| && ts[i] == t;
        assert IsOfType(ts[i], j);
      }
    }
  }

  ghost predicate ListGuarded(env: Env<Schema>, list: seq<Schema>, n: nat)
    requires env.Ranked()
  {
    forall i :: 0 <= i < |list| ==> Guarded(env, list[i], n)
  }

  /** Counting the outcomes agrees with what the keyword asks of them, all, at least
      one or just one, except that an empty allOf is rejected. */
  lemma CombinationAgreesIff(env: Env<Schema>, kind: Combination, subs: seq<Schema>, j: Json, n: nat)
    requires WellFounded(env) && ListGuarded(env, subs, n)
    ensures Guarded(env, Combined(kind, subs), n)
    ensures kind == AllOf && subs == [] ==> !Accepts(env, Combined(kind, subs), j, n)
    ensures (Accepts(env, Combined(kind, subs), j, n) <==>
             match kind
             case AllOf => forall i :: 0 <= i < |subs| ==> Accepts(env, subs[i], j, n)
             case AnyOf => exists i :: 0 <= i < |subs| && Accepts(env, subs[i], j, n)
             case OneOf => exists i :: 0 <= i < |subs| && Accepts(env, subs[i], j, n) &&
                                       forall k :: 0 <= k < |subs| && Accepts(env, subs[k], j, n) ==> k == i)
            <==> (kind == AllOf ==> subs != [])
  {
    hide WellFounded, Outcomes;
    var r := Outcomes(env, subs, j, n);
    assert Accepts(env, Combined(kind, subs), j, n) <==> (kind == AllOf ==> |subs| > 0) && Chosen(kind, r);
    assert forall i :: 0 <= i < |subs| ==> r[i] == Accepts(env, subs[i], j, n);
    if kind == AllOf && subs == [] {
      assert Chosen(AllOf, r);
    }
  }

  /** A type counts as repeated if it stands at two places of the list. */
  lemma RepeatedIff(types: seq<JsonType>, t: JsonType)
    ensures Repeated(Some(types), t) <==> exists a, b :: 0 <= a < b < |types| && types[a] == t && types[b] == t
  {
    if a, b :| 0 <= a < b < |types| && types[a] == t && types[b] == t {
      CountAround(types, a, t);
      assert types[a + 1..][b - a - 1] == t;
    }
    if Repeated(Some(types), t) {
      var a :| 0 <= a < |types| && types[a] == t;
      CountAround(types, a, t);
      if multiset(types[..a])[t] > 0 {
        var k :| 0 <= k < a && types[..a][k] == t;
        assert types[k] == t;
      } else {
        var rest := types[a + 1..];
        var k :| 0 <= k < |rest| && rest[k] == t;
        var b := a + 1 + k;
        assert types[b] == rest[k];
      }
    }
  }

  lemma CountAround(types: seq<JsonType>, a: int, t: JsonType)
    requires 0 <= a < |types| && types[a] == t
    ensures multiset(types)[t] == multiset(types[..a])[t] + 1 + multiset(types[a + 1..])[t]
  {
    assert types == types[..a] + [types[a]] + types[a + 1..];
  }

  /** A type written twice loses its keywords: its validator accepts every string,
      array or object, so it agrees with them at an instance if and only if they
      hold of it. */
  lemma RepeatedTypeAgreesIff(env: Env<Document>, d: Document, a: nat, b: nat, j: Json, n: nat)
    requires ClosedEnv(env) && d.Keywords? && Closed(env, d, n)
    requires d.types.Some? && a < b < |d.types.value| && d.types.value[a] == d.types.value[b]
    requires match d.types.value[a] case TextType => j.Text? case ArrayType => j.Array? case ObjectType => j.Object?
                                    case _ => false
    ensures WellFounded(MakeEnv(env)) && TypeOf(j) in MakeTable(d)
    ensures Guarded(MakeEnv(env), MakeTable(d)[TypeOf(j)], n)
    ensures Accepts(MakeEnv(env), MakeTable(d)[TypeOf(j)], j, n)
    ensures (Accepts(MakeEnv(env), MakeTable(d)[TypeOf(j)], j, n) <==> TypedKeywordsHold(env, d, j, n))
            <==> TypedKeywordsHold(env, d, j, n)
  {
    hide ClosedObject, ClosedArray, ClosedEnv, WellFounded, Repeated;
    RepeatedIff(d.types.value, TypeOf(j));
    assert Repeated(d.types, TypeOf(j));
    MadeEnvWellFounded(env);
    EmptyAccepts(MakeEnv(env), j, n);
  }

  lemma EmptyAccepts(env: Env<Schema>, j: Json, n: nat)
    requires WellFounded(env)
    ensures Accepts(env, EMPTY_TEXT, j, n) && Accepts(env, EMPTY_ARRAY, j, n) && Accepts(env, EMPTY_OBJECT, j, n)
  {
  }

  ghost predicate TypedKeywordsHold(env: Env<Document>, d: Document, j: Json, n: nat)
    requires ClosedEnv(env) && d.Keywords? && Closed(env, d, n)
  {
    && TextHolds(env, d.forText, j)
    && (j.Object? ==> ObjectHolds(env, d.forObjects, j, n))
    && (j.Array? ==> ArrayHolds(env, d.forArrays, j, n))
  }

  /** A copy of a reference made before the reference was resolved accepts no
      instance. So a reference with a default of its own agrees with its document
      at an instance if and only if it is not such a copy, or the document it refers
      to does not hold of the instance. */
  lemma OverrideAgreesIff(env: Env<Document>, id: string, own: OwnDefault, j: Json, n: nat)
    requires ClosedEnv(env) && Closed(env, Ref(id, own), n)
    requires WellFounded(MakeEnv(env)) && Guarded(MakeEnv(env), Make(env.schemas[id]), env.rank[id])
    requires Accepts(MakeEnv(env), Make(env.schemas[id]), j, env.rank[id])
             <==> Holds(env, env.schemas[id], j, env.rank[id])
    ensures Guarded(MakeEnv(env), Make(Ref(id, own)), n)
    ensures own.Unresolved() ==> !Accepts(MakeEnv(env), Make(Ref(id, own)), j, n)
    ensures (Accepts(MakeEnv(env), Make(Ref(id, own)), j, n) <==> Holds(env, Ref(id, own), j, n))
            <==> (!own.Unresolved() || !Holds(env, env.schemas[id], j, env.rank[id]))
  {
    hide ClosedEnv, WellFounded;
    GuardedMake(env, Ref(id, own), n);
  }

  /** Where the search for a default ends well: at a default beside the reference
      that is not null, or else where the reference leads. */
  lemma OwnDefaultFirst(env: Env<Schema>, id: string, own: OwnDefault, n: nat)
    requires WellFounded(env) && Guarded(env, Make(Ref(id, own)), n)
    ensures DefaultReachable(env, Make(Ref(id, own)), n) <==>
            || (own.Overrides? && !own.isNull)
            || ((own.Overrides? ==> own.resolved)
                && id in env.schemas && DefaultReachable(env, env.schemas[id], env.rank[id]))
  {
    hide WellFounded;
  }

  function Negated(s: Schema, k: nat): Schema { if k == 0 then s else Not(Negated(s, k - 1)) }

  /** The search goes through any number of negations. */
  lemma {:induction false} DefaultThroughNegations(env: Env<Schema>, s: Schema, k: nat, n: nat)
    requires WellFounded(env) && Guarded(env, s, n)
    ensures Guarded(env, Negated(s, k), n)
    ensures DefaultReachable(env, Negated(s, k), n) <==> DefaultReachable(env, s, n)
    decreases k
  {
    hide WellFounded;
    if k > 0 {
      DefaultThroughNegations(env, s, k - 1, n);
    }
  }

  /** An object that has a property for which the document gives such a copy is
      rejected. */
  lemma DanglingPropertyRejects(env: Env<Document>, d: Document, k: string, j: Json, n: nat)
    requires ClosedEnv(env) && d.Keywords? && Closed(env, d, n) && !Repeated(d.types, ObjectType)
    requires k in d.forObjects.properties && d.forObjects.properties[k].Ref?
    requires d.forObjects.properties[k].own.Unresolved()
    requires j.Object? && k in j.fields
    ensures WellFounded(MakeEnv(env)) && Guarded(MakeEnv(env), Make(d), n)
    ensures !Accepts(MakeEnv(env), Make(d), j, n)
  {
    hide ClosedEnv, Closed, WellFounded, MakeLogic, MakeEnv, MakeObject, AcceptsCondition, AcceptsObject;
    MadeEnvWellFounded(env);
    GuardedMake(env, d, n);
    assert Accepts(MakeEnv(env), Make(d), j, n) == AcceptsTyped(MakeEnv(env), Make(d), j, n);
    if Offered(d.types, ObjectType) {
      assert Make(d).table[ObjectType] == MakeObject(d.forObjects);
      DanglingPropertyMade(d, k);
      DanglingObjectRejects(MakeEnv(env), MakeObject(d.forObjects), k, j, n);
    }
  }

  lemma DanglingObjectRejects(env: Env<Schema>, s: Schema, k: string, j: Json, n: nat)
    requires WellFounded(env) && s.ObjectCheck? && Guarded(env, s, n)
    requires k in s.properties && s.properties[k].Dangling? && j.Object? && k in j.fields
    ensures !AcceptsObject(env, s, j, n)
  {
    hide WellFounded;
    assert !AcceptsProperty(env, s, j, k, n);
  }

  lemma DanglingPropertyMade(d: Document, k: string)
    requires d.Keywords? && k in d.forObjects.properties && d.forObjects.properties[k].Ref?
    requires d.forObjects.properties[k].own.Unresolved()
    ensures MakeObject(d.forObjects).ObjectCheck?
    ensures k in MakeObject(d.forObjects).properties && MakeObject(d.forObjects).properties[k].Dangling?
  {
  }

  // ------------------------------------------------- well-formed documents

  /** Either the document never lists integer without number (strict), or the
      instance writes every number without fraction as an integer. */
  predicate Suited(j: Json, strict: bool) { strict || Normal(j) == j }

  /** No string, array or object type twice in a type list, an allOf has members,
      the bounds kept for the number types that are offered are those meant, and
      no reference was copied for its default before it was resolved. If strict,
      integer is listed only beside number. */
  predicate WellFormed(d: Document, strict: bool)
    decreases d
  {
    match d
    case Keywords(types, _, _, bounds, _, forObjects, forArrays, negated, allOf, anyOf, oneOf,
                  condition, consequent, alternative) =>
      && (strict && types.Some? && IntegerType in types.value ==> NumberType in types.value)
      && !Repeated(types, TextType) && !Repeated(types, ArrayType) && !Repeated(types, ObjectType)
      && (Offered(types, IntegerType) ==> IntegerBoundsKept(bounds))
      && (Offered(types, NumberType) ==> NothingForgotten(bounds))
      && WellFormedObject(forObjects, strict)
      && WellFormedArray(forArrays, strict)
      && (negated.Some? ==> WellFormed(negated.value, strict))
      && (allOf.List? ==> |allOf.documents| > 0)
      && (allOf.List? ==> forall i :: 0 <= i < |allOf.documents| ==> WellFormed(allOf.documents[i], strict))
      && (anyOf.List? ==> forall i :: 0 <= i < |anyOf.documents| ==> WellFormed(anyOf.documents[i], strict))
      && (oneOf.List? ==> forall i :: 0 <= i < |oneOf.documents| ==> WellFormed(oneOf.documents[i], strict))
      && (condition.Some? ==> WellFormed(condition.value, strict))
      && (consequent.Some? ==> WellFormed(consequent.value, strict))
      && (alternative.Some? ==> WellFormed(alternative.value, strict))
    case Ref(_, own) => !own.Unresolved()
    case Truth(_) => true
  }

  predicate WellFormedObject(o: ObjectKeywords, strict: bool)
    decreases o
  {
    && (forall k :: k in o.properties ==> WellFormed(o.properties[k], strict))
    && (forall i :: 0 <= i < |o.patterns| ==> WellFormed(o.patterns[i].1, strict))
    && (o.additional.Some? ==> WellFormed(o.additional.value, strict))
    && (forall k :: k in o.dependencies && o.dependencies[k].Applies? ==>
          WellFormed(o.dependencies[k].document, strict))
    && (o.propertyNames.Some? ==> WellFormed(o.propertyNames.value, strict))
  }

  predicate WellFormedArray(a: ArrayKeywords, strict: bool)
    decreases a
  {
    && (a.items.Every? ==> WellFormed(a.items.document, strict))
    && (a.items.Tuple? ==> forall i :: 0 <= i < |a.items.documents| ==> WellFormed(a.items.documents[i], strict))
    && (a.additionalItems.Some? ==> WellFormed(a.additionalItems.value, strict))
    && (a.contains.Some? ==> WellFormed(a.contains.value, strict))
  }

  ghost predicate GoodEnv(env: Env<Document>, strict: bool) {
    && ClosedEnv(env)
    && forall id :: id in env.schemas ==> WellFormed(env.schemas[id], strict)
  }

  // ------------------------------------- references survive construction

  lemma {:induction false} GuardedAll(env: Env<Document>, ds: seq<Document>, n: nat)
    requires ClosedEnv(env) && forall i :: 0 <= i < |ds| ==> Closed(env, ds[i], n)
    ensures forall i :: 0 <= i < |ds| ==> Guarded(MakeEnv(env), Make(ds[i]), n)
    decreases ds, 0
  {
    forall i | 0 <= i < |ds|
      ensures Guarded(MakeEnv(env), Make(ds[i]), n)
    {
      GuardedMake(env, ds[i], n);
    }
  }

  lemma {:induction false} GuardedOption(env: Env<Document>, o: Option<Document>, n: nat)
    requires ClosedEnv(env) && (o.Some? ==> Closed(env, o.value, n))
    ensures o.Some? ==> Guarded(MakeEnv(env), Make(o.value), n)
    decreases o
  {
    if o.Some? {
      GuardedMake(env, o.value, n);
    }
  }

  lemma {:induction false} GuardedObject(env: Env<Document>, o: ObjectKeywords, n: nat)
    requires ClosedEnv(env) && ClosedObject(env, o, n)
    ensures Guarded(MakeEnv(env), MakeObject(o), n)
    decreases o
  {
    hide Make, Closed;
    forall k | k in o.properties
      ensures Guarded(MakeEnv(env), Make(o.properties[k]), env.top)
    {
      GuardedMake(env, o.properties[k], env.top);
    }
    forall i | 0 <= i < |o.patterns|
      ensures Guarded(MakeEnv(env), Make(o.patterns[i].1), env.top)
    {
      GuardedMake(env, o.patterns[i].1, env.top);
    }
    forall k | k in o.dependencies && o.dependencies[k].Applies?
      ensures Guarded(MakeEnv(env), Make(o.dependencies[k].document), n)
    {
      GuardedMake(env, o.dependencies[k].document, n);
    }
    GuardedOption(env, o.additional, env.top);
    GuardedOption(env, o.propertyNames, env.top);
  }

  lemma {:induction false} GuardedArray(env: Env<Document>, a: ArrayKeywords, n: nat)
    requires ClosedEnv(env) && ClosedArray(env, a)
    ensures Guarded(MakeEnv(env), MakeArray(a), n)
    decreases a
  {
    hide Make, Closed;
    if a.items.Every? {
      GuardedMake(env, a.items.document, env.top);
    } else if a.items.Tuple? {
      GuardedAll(env, a.items.documents, env.top);
    }
    GuardedOption(env, a.additionalItems, env.top);
    GuardedOption(env, a.contains, env.top);
  }

  lemma ListGuardedConcat(env: Env<Schema>, a: seq<Schema>, b: seq<Schema>, n: nat)
    requires env.Ranked() && ListGuarded(env, a, n) && ListGuarded(env, b, n)
    ensures ListGuarded(env, a + b, n)
  {
    hide Guarded;
  }

  lemma {:induction false} GuardedCombined(env: Env<Document>, kind: Combination, k: ListKeyword, n: nat)
    requires ClosedEnv(env)
    requires k.List? ==> forall i :: 0 <= i < |k.documents| ==> Closed(env, k.documents[i], n)
    ensures ListGuarded(MakeEnv(env), MakeCombined(kind, k), n)
    decreases k
  {
    if k.List? {
      GuardedAll(env, k.documents, n);
    }
  }

  lemma {:induction false} GuardedLogic(env: Env<Document>, d: Document, n: nat)
    requires ClosedEnv(env) && d.Keywords? && Closed(env, d, n)
    ensures ListGuarded(MakeEnv(env), MakeLogic(d), n)
    decreases d, 0
  {
    hide ListGuarded, MakeCombined;
    GuardedNegated(env, d.negated, n);
    GuardedCombined(env, AllOf, d.allOf, n);
    GuardedCombined(env, AnyOf, d.anyOf, n);
    GuardedCombined(env, OneOf, d.oneOf, n);
    var all, any, one := MakeCombined(AllOf, d.allOf), MakeCombined(AnyOf, d.anyOf), MakeCombined(OneOf, d.oneOf);
    ListGuardedConcat(MakeEnv(env), any, one, n);
    ListGuardedConcat(MakeEnv(env), all, any + one, n);
    ListGuardedConcat(MakeEnv(env), MakeNegated(d.negated), all + (any + one), n);
  }

  lemma {:induction false} GuardedNegated(env: Env<Document>, o: Option<Document>, n: nat)
    requires ClosedEnv(env) && (o.Some? ==> Closed(env, o.value, n))
    ensures ListGuarded(MakeEnv(env), MakeNegated(o), n)
    decreases o
  {
    if o.Some? {
      GuardedMake(env, o.value, n);
    }
  }

  lemma {:induction false} GuardedTable(env: Env<Document>, d: Document, n: nat)
    requires ClosedEnv(env) && d.Keywords? && Closed(env, d, n)
    ensures forall t :: t in MakeTable(d) ==> Guarded(MakeEnv(env), MakeTable(d)[t], n)
    decreases d, 0
  {
    hide MakeObject, MakeArray;
    assert ClosedObject(env, d.forObjects, n) && ClosedArray(env, d.forArrays);
    GuardedObject(env, d.forObjects, n);
    GuardedArray(env, d.forArrays, n);
  }

  lemma {:induction false} GuardedMake(env: Env<Document>, d: Document, n: nat)
    requires ClosedEnv(env) && Closed(env, d, n)
    ensures Guarded(MakeEnv(env), Make(d), n)
    decreases d
  {
    hide MakeLogic, MakeTable, ClosedObject, ClosedArray, ClosedEnv;
    if d.Keywords? {
      GuardedTable(env, d, n);
      GuardedLogic(env, d, n);
      GuardedOption(env, d.condition, n);
      GuardedOption(env, d.consequent, n);
      GuardedOption(env, d.alternative, n);
    }
  }

  lemma MadeEnvWellFounded(env: Env<Document>)
    requires ClosedEnv(env)
    ensures WellFounded(MakeEnv(env))
  {
    hide Make, Closed, Guarded;
    forall id | id in env.schemas
      ensures Guarded(MakeEnv(env), Make(env.schemas[id]), env.rank[id])
    {
      GuardedMake(env, env.schemas[id], env.rank[id]);
    }
  }

  // ------------------------------------------------------------- agreement

  lemma {:induction false} DefaultFound(env: Env<Document>, d: Document, n: nat, strict: bool)
    requires GoodEnv(env, strict) && Closed(env, d, n) && WellFormed(d, strict)
    requires WellFounded(MakeEnv(env)) && Guarded(MakeEnv(env), Make(d), n)
    ensures DefaultReachable(MakeEnv(env), Make(d), n)
    decreases n
  {
    if d.Ref? {
      DefaultFound(env, env.schemas[d.target], env.rank[d.target], strict);
    }
  }

  ghost predicate Agrees(env: Env<Document>, d: Document, j: Json, n: nat, strict: bool)
    requires GoodEnv(env, strict) && Closed(env, d, n)
  {
    && WellFounded(MakeEnv(env))
    && Guarded(MakeEnv(env), Make(d), n)
    && (Accepts(MakeEnv(env), Make(d), j, n) <==> Holds(env, d, j, n))
  }

  lemma {:induction false} ObjectAgrees(env: Env<Document>, o: ObjectKeywords, j: Json, n: nat, strict: bool)
    requires GoodEnv(env, strict) && ClosedObject(env, o, n) && WellFormedObject(o, strict)
    requires j.Object? && Suited(j, strict)
    ensures WellFounded(MakeEnv(env)) && Guarded(MakeEnv(env), MakeObject(o), n)
    ensures AcceptsObject(MakeEnv(env), MakeObject(o), j, n) <==> ObjectHolds(env, o, j, n)
    decreases Compound(j), j, n, o, 1
  {
    MadeEnvWellFounded(env);
    GuardedObject(env, o, n);
    forall k | k in j.fields
      ensures AcceptsProperty(MakeEnv(env), MakeObject(o), j, k, n) <==> PropertyHolds(env, o, j, k, n)
    {
      PropertyAgrees(env, o, j, k, n, strict);
    }
    DefaultsAgree(env, o, n, strict);
    DependenciesAgree(env, o, j, n, strict);
    ObjectParts(env, o, j, n, strict);
  }

  lemma DefaultsAgree(env: Env<Document>, o: ObjectKeywords, n: nat, strict: bool)
    requires GoodEnv(env, strict) && ClosedObject(env, o, n) && WellFormedObject(o, strict)
    requires WellFounded(MakeEnv(env)) && Guarded(MakeEnv(env), MakeObject(o), n)
    ensures forall k :: k in MakeObject(o).properties ==>
              DefaultReachable(MakeEnv(env), MakeObject(o).properties[k], env.top)
  {
    forall k | k in MakeObject(o).properties
      ensures DefaultReachable(MakeEnv(env), MakeObject(o).properties[k], env.top)
    {
      DefaultFound(env, o.properties[k], env.top, strict);
    }
  }

  ghost predicate DependencyHolds(env: Env<Document>, o: ObjectKeywords, j: Json, k: string, n: nat, strict: bool)
    requires j.Object? && GoodEnv(env, strict) && ClosedObject(env, o, n) && k in o.dependencies
  {
    match o.dependencies[k]
    case Names(names) => forall i :: 0 <= i < |names| ==> names[i] in j.fields
    case Applies(d) => Holds(env, d, j, n)
  }

  lemma {:induction false} DependenciesAgree(env: Env<Document>, o: ObjectKeywords, j: Json, n: nat, strict: bool)
    requires GoodEnv(env, strict) && ClosedObject(env, o, n) && WellFormedObject(o, strict)
    requires j.Object? && Suited(j, strict)
    requires WellFounded(MakeEnv(env)) && Guarded(MakeEnv(env), MakeObject(o), n)
    ensures forall k :: k in o.dependencies ==>
              (Accepts(MakeEnv(env), MakeObject(o).dependencies[k], j, n) <==>
               DependencyHolds(env, o, j, k, n, strict))
    decreases Compound(j), j, n, o, 0
  {
    forall k | k in o.dependencies
      ensures Accepts(MakeEnv(env), MakeObject(o).dependencies[k], j, n) <==> DependencyHolds(env, o, j, k, n, strict)
    {
      match o.dependencies[k]
      case Names(names) =>
      case Applies(d) => AcceptsIffHolds(env, d, j, n, strict);
    }
  }

  lemma ObjectParts(env: Env<Document>, o: ObjectKeywords, j: Json, n: nat, strict: bool)
    requires GoodEnv(env, strict) && ClosedObject(env, o, n) && j.Object?
    requires WellFounded(MakeEnv(env)) && Guarded(MakeEnv(env), MakeObject(o), n)
    requires forall k :: k in j.fields ==>
               (AcceptsProperty(MakeEnv(env), MakeObject(o), j, k, n) <==> PropertyHolds(env, o, j, k, n))
    requires forall k :: k in MakeObject(o).properties ==>
               DefaultReachable(MakeEnv(env), MakeObject(o).properties[k], env.top)
    requires forall k :: k in o.dependencies ==>
               (Accepts(MakeEnv(env), MakeObject(o).dependencies[k], j, n) <==>
               DependencyHolds(env, o, j, k, n, strict))
    ensures AcceptsObject(MakeEnv(env), MakeObject(o), j, n) <==> ObjectHolds(env, o, j, n)
  {
    hide Accepts, AcceptsProperty, PropertyHolds, Holds, Make, DefaultReachable, Guarded, WellFounded, GoodEnv;
    assert MakeObject(o).dependencies.Keys == o.dependencies.Keys;
  }

  lemma {:induction false} PropertyAgrees(env: Env<Document>, o: ObjectKeywords, j: Json, k: string, n: nat,
                                          strict: bool)
    requires GoodEnv(env, strict) && ClosedObject(env, o, n) && WellFormedObject(o, strict)
    requires j.Object? && Suited(j, strict)
    requires WellFounded(MakeEnv(env)) && Guarded(MakeEnv(env), MakeObject(o), n)
    requires k in j.fields
    ensures AcceptsProperty(MakeEnv(env), MakeObject(o), j, k, n) <==> PropertyHolds(env, o, j, k, n)
    decreases Compound(j), j, n, o, 0
  {
    var value := j.fields[k];
    assert Suited(value, strict) by {
      assert Normal(j).fields[k] == Normal(value);
    }
    if o.propertyNames.Some? {
      AcceptsIffHolds(env, o.propertyNames.value, Text(k), env.top, strict);
    }
    if k in o.properties {
      AcceptsIffHolds(env, o.properties[k], value, env.top, strict);
    }
    forall i | 0 <= i < |o.patterns|
      ensures Agrees(env, o.patterns[i].1, value, env.top, strict)
    {
      AcceptsIffHolds(env, o.patterns[i].1, value, env.top, strict);
    }
    if o.additional.Some? {
      AcceptsIffHolds(env, o.additional.value, value, env.top, strict);
    }
    PropertyParts(env, o, j, k, n, strict);
  }

  lemma PropertyParts(env: Env<Document>, o: ObjectKeywords, j: Json, k: string, n: nat, strict: bool)
    requires GoodEnv(env, strict) && ClosedObject(env, o, n) && j.Object? && k in j.fields
    requires WellFounded(MakeEnv(env)) && Guarded(MakeEnv(env), MakeObject(o), n)
    requires o.propertyNames.Some? ==> Agrees(env, o.propertyNames.value, Text(k), env.top, strict)
    requires k in o.properties ==> Agrees(env, o.properties[k], j.fields[k], env.top, strict)
    requires forall i :: 0 <= i < |o.patterns| ==> Agrees(env, o.patterns[i].1, j.fields[k], env.top, strict)
    requires o.additional.Some? ==> Agrees(env, o.additional.value, j.fields[k], env.top, strict)
    ensures AcceptsProperty(MakeEnv(env), MakeObject(o), j, k, n) <==> PropertyHolds(env, o, j, k, n)
  {
    hide Accepts, Holds, Make, Guarded, WellFounded, GoodEnv;
    var s := MakeObject(o);
    assert |s.patterns| == |o.patterns|;
    assert forall i :: 0 <= i < |o.patterns| ==>
        s.patterns[i].0 == o.patterns[i].0 && s.patterns[i].1 == Make(o.patterns[i].1);
    assert PatternFound(MakeEnv(env), s.patterns, k, |s.patterns|) <==> SomePattern(env, o, k);
  }

  lemma {:induction false} ArrayAgrees(env: Env<Document>, a: ArrayKeywords, j: Json, n: nat, strict: bool)
    requires GoodEnv(env, strict) && ClosedArray(env, a) && WellFormedArray(a, strict) && j.Array? && Suited(j, strict)
    ensures WellFounded(MakeEnv(env)) && Guarded(MakeEnv(env), MakeArray(a), n)
    ensures AcceptsArray(MakeEnv(env), MakeArray(a), j, n) <==> ArrayHolds(env, a, j, n)
    decreases Compound(j), j, n, a, 1
  {
    MadeEnvWellFounded(env);
    GuardedArray(env, a, n);
    forall i | 0 <= i < |j.items|
      ensures AcceptsItem(MakeEnv(env), MakeArray(a), j, i, n) <==> ItemHolds(env, a, j, i, n)
      ensures a.contains.Some? ==> Agrees(env, a.contains.value, j.items[i], env.top, strict)
    {
      ItemAgrees(env, a, j, i, n, strict);
    }
    ArrayParts(env, a, j, n, strict);
  }

  lemma ArrayParts(env: Env<Document>, a: ArrayKeywords, j: Json, n: nat, strict: bool)
    requires GoodEnv(env, strict) && ClosedArray(env, a) && j.Array?
    requires WellFounded(MakeEnv(env)) && Guarded(MakeEnv(env), MakeArray(a), n)
    requires forall i :: 0 <= i < |j.items| ==>
               (AcceptsItem(MakeEnv(env), MakeArray(a), j, i, n) <==> ItemHolds(env, a, j, i, n))
    requires forall i :: 0 <= i < |j.items| && a.contains.Some? ==>
               Agrees(env, a.contains.value, j.items[i], env.top, strict)
    ensures AcceptsArray(MakeEnv(env), MakeArray(a), j, n) <==> ArrayHolds(env, a, j, n)
  {
    hide Accepts, AcceptsItem, ItemHolds, Holds, Make, Guarded, WellFounded, GoodEnv, Distinct, ItemsUnique;
    DistinctIsUnique(j.items);
  }

  lemma {:induction false} ItemAgrees(env: Env<Document>, a: ArrayKeywords, j: Json, i: nat, n: nat, strict: bool)
    requires GoodEnv(env, strict) && ClosedArray(env, a) && WellFormedArray(a, strict) && j.Array? && Suited(j, strict)
    requires WellFounded(MakeEnv(env)) && Guarded(MakeEnv(env), MakeArray(a), n)
    requires i < |j.items|
    ensures AcceptsItem(MakeEnv(env), MakeArray(a), j, i, n) <==> ItemHolds(env, a, j, i, n)
    ensures a.contains.Some? ==> Agrees(env, a.contains.value, j.items[i], env.top, strict)
    decreases Compound(j), j, n, a, 0
  {
    var item := j.items[i];
    assert Suited(item, strict) by {
      assert Normal(j).items[i] == Normal(item);
    }
    if a.contains.Some? {
      AcceptsIffHolds(env, a.contains.value, item, env.top, strict);
    }
    match a.items
    case NoItems =>
    case Every(d) => AcceptsIffHolds(env, d, item, env.top, strict);
    case Tuple(ds) =>
      if i < |ds| {
        AcceptsIffHolds(env, ds[i], item, env.top, strict);
      } else if a.additionalItems.Some? {
        AcceptsIffHolds(env, a.additionalItems.value, item, env.top, strict);
      }
  }

  ghost predicate AllAgree(env: Env<Document>, ds: seq<Document>, j: Json, n: nat, strict: bool)
    requires GoodEnv(env, strict) && forall i :: 0 <= i < |ds| ==> Closed(env, ds[i], n)
  {
    forall i :: 0 <= i < |ds| ==> Agrees(env, ds[i], j, n, strict)
  }

  lemma {:induction false} ListAgrees(env: Env<Document>, ds: seq<Document>, j: Json, n: nat, strict: bool)
    requires GoodEnv(env, strict) && Suited(j, strict)
    requires forall i :: 0 <= i < |ds| ==> Closed(env, ds[i], n) && WellFormed(ds[i], strict)
    ensures AllAgree(env, ds, j, n, strict)
    decreases Compound(j), j, n, ds, 0
  {
    forall i | 0 <= i < |ds|
      ensures Agrees(env, ds[i], j, n, strict)
    {
      AcceptsIffHolds(env, ds[i], j, n, strict);
    }
  }

  ghost predicate Combines(env: Env<Document>, kind: Combination, ds: seq<Document>, j: Json, n: nat, strict: bool)
    requires GoodEnv(env, strict) && forall i :: 0 <= i < |ds| ==> Closed(env, ds[i], n)
  {
    match kind
    case AllOf => AllHold(env, ds, j, n)
    case AnyOf => SomeHolds(env, ds, j, n)
    case OneOf => JustOneHolds(env, ds, j, n)
  }

  lemma CombinedAgrees(env: Env<Document>, kind: Combination, ds: seq<Document>, j: Json, n: nat, strict: bool)
    requires GoodEnv(env, strict) && forall i :: 0 <= i < |ds| ==> Closed(env, ds[i], n)
    requires AllAgree(env, ds, j, n, strict) && (kind == AllOf ==> |ds| > 0)
    requires WellFounded(MakeEnv(env)) && ListGuarded(MakeEnv(env), MakeAll(ds), n)
    ensures Guarded(MakeEnv(env), Combined(kind, MakeAll(ds)), n)
    ensures AcceptsCombined(MakeEnv(env), Combined(kind, MakeAll(ds)), j, n) <==> Combines(env, kind, ds, j, n, strict)
  {
    hide Accepts, Holds, Make, ClosedEnv, Closed, Chosen, MakeEnv, WellFounded;
    var r := Outcomes(MakeEnv(env), MakeAll(ds), j, n);
    forall i | 0 <= i < |ds|
      ensures r[i] == Holds(env, ds[i], j, n)
    {
      assert Agrees(env, ds[i], j, n, strict);
    }
    ChosenIsCombined(env, kind, ds, j, n, r, strict);
  }

  lemma ChosenIsCombined(env: Env<Document>, kind: Combination, ds: seq<Document>, j: Json, n: nat, r: seq<bool>,
                         strict: bool)
    requires GoodEnv(env, strict) && forall i :: 0 <= i < |ds| ==> Closed(env, ds[i], n)
    requires |r| == |ds| && forall i :: 0 <= i < |ds| ==> r[i] == Holds(env, ds[i], j, n)
    ensures Chosen(kind, r) <==> Combines(env, kind, ds, j, n, strict)
  {
    hide Holds, Closed, GoodEnv, ClosedEnv;
  }

  ghost predicate ListAccepted(env: Env<Schema>, list: seq<Schema>, j: Json, n: nat)
    requires WellFounded(env) && ListGuarded(env, list, n)
  {
    forall i :: 0 <= i < |list| ==> Accepts(env, list[i], j, n)
  }

  lemma ListConcat(env: Env<Schema>, a: seq<Schema>, b: seq<Schema>, j: Json, n: nat)
    requires WellFounded(env) && ListGuarded(env, a, n) && ListGuarded(env, b, n)
    ensures ListGuarded(env, a + b, n)
    ensures ListAccepted(env, a + b, j, n) <==> ListAccepted(env, a, j, n) && ListAccepted(env, b, j, n)
  {
    hide Accepts, Guarded, WellFounded;
    var c := a + b;
    assert forall i :: 0 <= i < |a| ==> c[i] == a[i];
    assert forall i :: 0 <= i < |b| ==> c[|a| + i] == b[i];
  }

  lemma {:induction false} NegatedAgrees(env: Env<Document>, o: Option<Document>, j: Json, n: nat, strict: bool)
    requires GoodEnv(env, strict) && Suited(j, strict)
    requires o.Some? ==> Closed(env, o.value, n) && WellFormed(o.value, strict)
    ensures WellFounded(MakeEnv(env)) && ListGuarded(MakeEnv(env), MakeNegated(o), n)
    ensures ListAccepted(MakeEnv(env), MakeNegated(o), j, n) <==> (o.Some? ==> !Holds(env, o.value, j, n))
    decreases Compound(j), j, n, o, 0
  {
    hide Closed, WellFormed, Suited, ClosedEnv, MakeEnv;
    MadeEnvWellFounded(env);
    if o.Some? {
      AcceptsIffHolds(env, o.value, j, n, strict);
      assert Accepts(MakeEnv(env), MakeNegated(o)[0], j, n) == !Accepts(MakeEnv(env), Make(o.value), j, n);
    }
  }

  lemma {:induction false} ListKeywordAgrees(env: Env<Document>, kind: Combination, k: ListKeyword, j: Json,
                                             n: nat, strict: bool)
    requires GoodEnv(env, strict) && Suited(j, strict)
    requires k.List? ==>
               forall i :: 0 <= i < |k.documents| ==>
                 Closed(env, k.documents[i], n) && WellFormed(k.documents[i], strict)
    requires k.List? && kind == AllOf ==> |k.documents| > 0
    ensures WellFounded(MakeEnv(env)) && ListGuarded(MakeEnv(env), MakeCombined(kind, k), n)
    ensures ListAccepted(MakeEnv(env), MakeCombined(kind, k), j, n) <==>
            (k.List? ==> Combines(env, kind, k.documents, j, n, strict))
    decreases Compound(j), j, n, k, 0
  {
    hide Make, Closed, Combines, AcceptsCombined, WellFormed, MakeEnv;
    MadeEnvWellFounded(env);
    if k.List? {
      ListAgrees(env, k.documents, j, n, strict);
      GuardedAll(env, k.documents, n);
      CombinedAgrees(env, kind, k.documents, j, n, strict);
      assert MakeCombined(kind, k)[0] == Combined(kind, MakeAll(k.documents));
    }
  }

  lemma {:induction false} LogicAgrees(env: Env<Document>, d: Document, j: Json, n: nat, strict: bool)
    requires GoodEnv(env, strict) && d.Keywords? && Closed(env, d, n) && WellFormed(d, strict) && Suited(j, strict)
    ensures WellFounded(MakeEnv(env)) && ListGuarded(MakeEnv(env), MakeLogic(d), n)
    ensures ListAccepted(MakeEnv(env), MakeLogic(d), j, n) <==> ListsHold(env, d, j, n, strict)
    decreases Compound(j), j, n, d, 0
  {
    hide MakeNegated, MakeCombined, MakeEnv, Accepts, Holds, Combines, ListAccepted, ListGuarded, WellFounded;
    NegatedAgrees(env, d.negated, j, n, strict);
    ListKeywordAgrees(env, AllOf, d.allOf, j, n, strict);
    ListKeywordAgrees(env, AnyOf, d.anyOf, j, n, strict);
    ListKeywordAgrees(env, OneOf, d.oneOf, j, n, strict);
    var all, any, one := MakeCombined(AllOf, d.allOf), MakeCombined(AnyOf, d.anyOf), MakeCombined(OneOf, d.oneOf);
    ListConcat(MakeEnv(env), any, one, j, n);
    ListConcat(MakeEnv(env), all, any + one, j, n);
    ListConcat(MakeEnv(env), MakeNegated(d.negated), all + (any + one), j, n);
  }

  ghost predicate ListsHold(env: Env<Document>, d: Document, j: Json, n: nat, strict: bool)
    requires d.Keywords? && GoodEnv(env, strict) && Closed(env, d, n)
  {
    && (d.negated.Some? ==> !Holds(env, d.negated.value, j, n))
    && (d.allOf.List? ==> Combines(env, AllOf, d.allOf.documents, j, n, strict))
    && (d.anyOf.List? ==> Combines(env, AnyOf, d.anyOf.documents, j, n, strict))
    && (d.oneOf.List? ==> Combines(env, OneOf, d.oneOf.documents, j, n, strict))
  }

  ghost predicate ConditionHolds(env: Env<Document>, d: Document, j: Json, n: nat, strict: bool)
    requires d.Keywords? && GoodEnv(env, strict) && Closed(env, d, n)
  {
    && (d.condition.Some? && Holds(env, d.condition.value, j, n) && d.consequent.Some? ==>
          Holds(env, d.consequent.value, j, n))
    && (d.condition.Some? && !Holds(env, d.condition.value, j, n) && d.alternative.Some? ==>
          Holds(env, d.alternative.value, j, n))
  }

  lemma {:induction false} ConditionAgrees(env: Env<Document>, d: Document, j: Json, n: nat, strict: bool)
    requires GoodEnv(env, strict) && d.Keywords? && Closed(env, d, n) && WellFormed(d, strict) && Suited(j, strict)
    ensures WellFounded(MakeEnv(env)) && Guarded(MakeEnv(env), Make(d), n)
    ensures AcceptsCondition(MakeEnv(env), Make(d), j, n) <==> ConditionHolds(env, d, j, n, strict)
    decreases Compound(j), j, n, d, 0
  {
    hide MakeTable, MakeLogic, Guarded;
    MadeEnvWellFounded(env);
    GuardedMake(env, d, n);
    if d.condition.Some? {
      AcceptsIffHolds(env, d.condition.value, j, n, strict);
      if d.consequent.Some? {
        AcceptsIffHolds(env, d.consequent.value, j, n, strict);
      }
      if d.alternative.Some? {
        AcceptsIffHolds(env, d.alternative.value, j, n, strict);
      }
    }
  }

  /** What the keywords other than the logical ones say. */
  ghost predicate PlainHolds(env: Env<Document>, d: Document, j: Json, n: nat, strict: bool)
    requires d.Keywords? && GoodEnv(env, strict) && Closed(env, d, n)
  {
    && TypeHolds(d.types, j)
    && BoundsHold(d.bounds, j)
    && TextHolds(env, d.forText, j)
    && (j.Object? ==> ObjectHolds(env, d.forObjects, j, n))
    && (j.Array? ==> ArrayHolds(env, d.forArrays, j, n))
  }

  lemma NumbersAgree(b: Bounds, v: real)
    requires NothingForgotten(b)
    ensures (WithinMaximum(MakeNumber(b, false), v) && WithinMinimum(MakeNumber(b, false), v)) <==>
            && (b.maximum.Some? ==> v <= b.maximum.value)
            && (b.minimum.Some? ==> v >= b.minimum.value)
            && (b.exclusiveMaximum.Some? ==> v < b.exclusiveMaximum.value)
            && (b.exclusiveMinimum.Some? ==> v > b.exclusiveMinimum.value)
  {
  }

  lemma IntegersAgree(b: Bounds, v: int)
    requires IntegerBoundsKept(b)
    ensures (WithinMaximum(MakeNumber(b, true), v as real) && WithinMinimum(MakeNumber(b, true), v as real)) <==>
            && (b.maximum.Some? ==> v as real <= b.maximum.value)
            && (b.minimum.Some? ==> v as real >= b.minimum.value)
            && (b.exclusiveMaximum.Some? ==> (v as real) < b.exclusiveMaximum.value)
            && (b.exclusiveMinimum.Some? ==> v as real > b.exclusiveMinimum.value)
  {
    hide UpperRead, UpperMeant, LowerRead, LowerMeant, Kept;
    UpperLimits(b, v);
    LowerLimits(b, v);
  }

  lemma {:induction false} TableAgrees(env: Env<Document>, d: Document, j: Json, n: nat, strict: bool)
    requires GoodEnv(env, strict) && d.Keywords? && Closed(env, d, n) && WellFormed(d, strict) && Suited(j, strict)
    ensures WellFounded(MakeEnv(env))
    ensures forall t :: t in MakeTable(d) ==> Guarded(MakeEnv(env), MakeTable(d)[t], n)
    ensures (TypeOf(j) in MakeTable(d) && Accepts(MakeEnv(env), MakeTable(d)[TypeOf(j)], j, n))
            <==> PlainHolds(env, d, j, n, strict)
    decreases Compound(j), j, n, d, 0
  {
    MadeEnvWellFounded(env);
    GuardedTable(env, d, n);
    TypeAgrees(d, j);
    if j.Object? {
      ObjectAgrees(env, d.forObjects, j, n, strict);
    } else if j.Array? {
      ArrayAgrees(env, d.forArrays, j, n, strict);
    }
    TableParts(env, d, j, n, strict);
  }

  lemma TableParts(env: Env<Document>, d: Document, j: Json, n: nat, strict: bool)
    requires GoodEnv(env, strict) && d.Keywords? && Closed(env, d, n) && WellFormed(d, strict) && Suited(j, strict)
    requires WellFounded(MakeEnv(env))
    requires forall t :: t in MakeTable(d) ==> Guarded(MakeEnv(env), MakeTable(d)[t], n)
    requires TypeOf(j) in MakeTable(d) <==> TypeHolds(d.types, j)
    requires j.Object? ==>
               && Guarded(MakeEnv(env), MakeObject(d.forObjects), n)
               && (AcceptsObject(MakeEnv(env), MakeObject(d.forObjects), j, n) <==>
                   ObjectHolds(env, d.forObjects, j, n))
    requires j.Array? ==>
               && Guarded(MakeEnv(env), MakeArray(d.forArrays), n)
               && (AcceptsArray(MakeEnv(env), MakeArray(d.forArrays), j, n) <==> ArrayHolds(env, d.forArrays, j, n))
    ensures (TypeOf(j) in MakeTable(d) && Accepts(MakeEnv(env), MakeTable(d)[TypeOf(j)], j, n))
            <==> PlainHolds(env, d, j, n, strict)
  {
    hide TypeHolds, AcceptsObject, ObjectHolds, AcceptsArray, ArrayHolds, Kept, WithinMaximum,
         WithinMinimum, Repeated, IntegerBoundsKept, NothingForgotten, Closed, WellFormed, WellFounded,
         GoodEnv, Guarded;
    WellFormedKeywords(d, strict);
    if j.Integer? && Offered(d.types, IntegerType) {
      IntegersAgree(d.bounds, j.whole);
    } else if j.Integer? && Offered(d.types, NumberType) {
      NumbersAgree(d.bounds, j.whole as real);
    } else if j.Float? && Offered(d.types, NumberType) {
      NumbersAgree(d.bounds, j.number);
    }
  }

  lemma WellFormedKeywords(d: Document, strict: bool)
    requires d.Keywords? && WellFormed(d, strict)
    ensures !Repeated(d.types, TextType) && !Repeated(d.types, ArrayType) && !Repeated(d.types, ObjectType)
    ensures Offered(d.types, IntegerType) ==> IntegerBoundsKept(d.bounds)
    ensures Offered(d.types, NumberType) ==> NothingForgotten(d.bounds)
  {
  }

  lemma TruthAgrees(env: Env<Document>, d: Document, j: Json, n: nat, strict: bool)
    requires GoodEnv(env, strict) && d.Truth?
    ensures Agrees(env, d, j, n, strict)
  {
    MadeEnvWellFounded(env);
  }

  lemma ReferenceAgrees(env: Env<Document>, id: string, own: OwnDefault, j: Json, n: nat, strict: bool)
    requires GoodEnv(env, strict) && Closed(env, Ref(id, own), n) && Closed(env, env.schemas[id], env.rank[id])
    requires !own.Unresolved() && Agrees(env, env.schemas[id], j, env.rank[id], strict)
    ensures Agrees(env, Ref(id, own), j, n, strict)
  {
    hide WellFounded, ClosedEnv;
  }

  /** The validator object built from a document accepts exactly the instances
      of which the document holds. */
  lemma {:induction false} AcceptsIffHolds(env: Env<Document>, d: Document, j: Json, n: nat, strict: bool)
    requires GoodEnv(env, strict) && Closed(env, d, n) && WellFormed(d, strict) && Suited(j, strict)
    ensures Agrees(env, d, j, n, strict)
    decreases Compound(j), j, n, d, 1
  {
    hide MakeLogic, MakeTable, ClosedObject, ClosedArray, WellFormedObject, WellFormedArray, Agrees;
    match d
    case Truth(_) => TruthAgrees(env, d, j, n, strict);
    case Ref(id, own) =>
      AcceptsIffHolds(env, env.schemas[id], j, env.rank[id], strict);
      ReferenceAgrees(env, id, own, j, n, strict);
    case Keywords(_, _, _, _, _, _, _, _, _, _, _, _, _, _) => KeywordsAgree(env, d, j, n, strict);
  }

  lemma {:induction false} KeywordsAgree(env: Env<Document>, d: Document, j: Json, n: nat, strict: bool)
    requires GoodEnv(env, strict) && d.Keywords? && Closed(env, d, n) && WellFormed(d, strict) && Suited(j, strict)
    ensures Agrees(env, d, j, n, strict)
    decreases Compound(j), j, n, d, 1, 0
  {
    hide Make, MakeLogic, MakeTable, PlainHolds, ListsHold, ConditionHolds, ListAccepted, ListGuarded,
         Closed, WellFormed, Agrees, ClosedEnv, WellFounded, MakeEnv;
    GuardedMake(env, d, n);
    TableAgrees(env, d, j, n, strict);
    LogicAgrees(env, d, j, n, strict);
    ConditionAgrees(env, d, j, n, strict);
    PartsAgree(env, d, j, n, strict);
  }

  lemma PartsAgree(env: Env<Document>, d: Document, j: Json, n: nat, strict: bool)
    requires GoodEnv(env, strict) && d.Keywords? && Closed(env, d, n)
    requires WellFounded(MakeEnv(env)) && Guarded(MakeEnv(env), Make(d), n)
    requires forall t :: t in MakeTable(d) ==> Guarded(MakeEnv(env), MakeTable(d)[t], n)
    requires ListGuarded(MakeEnv(env), MakeLogic(d), n)
    requires (TypeOf(j) in MakeTable(d) && Accepts(MakeEnv(env), MakeTable(d)[TypeOf(j)], j, n))
             <==> PlainHolds(env, d, j, n, strict)
    requires ListAccepted(MakeEnv(env), MakeLogic(d), j, n) <==> ListsHold(env, d, j, n, strict)
    requires AcceptsCondition(MakeEnv(env), Make(d), j, n) <==> ConditionHolds(env, d, j, n, strict)
    ensures Agrees(env, d, j, n, strict)
  {
    hide MakeTable, MakeLogic, MakeEnv, WellFounded, ClosedEnv, Guarded, Closed, AcceptsCondition,
         TypeHolds, BoundsHold, TextHolds, ObjectHolds, ArrayHolds, Listed, EnumHolds, Normal, EqualValues;
    if d.enumeration.Some? {
      ListedIsEnum(d.enumeration.value, j);
    }
    if d.constant.Some? {
      EqualIsNormal(d.constant.value, j);
    }
    assert LogicHolds(env, d, j, n) <==> ListsHold(env, d, j, n, strict) && ConditionHolds(env, d, j, n, strict);
    assert Accepts(MakeEnv(env), Make(d), j, n) == AcceptsTyped(MakeEnv(env), Make(d), j, n);
  }

  /** Validation against a document: true exactly when the document holds of the
      instance. */
  method ValidateDocument(env: Env<Document>, d: Document, j: Json, ghost n: nat, strict: bool) returns (valid: bool)
    requires GoodEnv(env, strict) && Closed(env, d, n) && WellFormed(d, strict) && Suited(j, strict)
    ensures valid <==> Holds(env, d, j, n)
  {
    hide Accepts, Holds, Make, Guarded, WellFounded;
    AcceptsIffHolds(env, d, j, n, strict);
    var e := new FirstErrorHandler();
    Validate(MakeEnv(env), Make(d), j, e, n);
    valid := !e.failed;
  }
}

/** Reference resolution while schemas are parsed: the files of a root schema,
    the schemas each has defined and the references that still wait. */
module References {
  type Node = nat

  datatype Uri = Uri(location: string, fragment: string)

  datatype File = File(schemas: map<string, Node>, unresolved: map<string, Node>)

  /** refs: the reference objects, each with the URI it was created for; copies:
      the copies made of them to override a default, each with its original;
      targets: what those objects point to, once set; count: objects made. */
  datatype State = State(files: map<string, File>, refs: map<Node, Uri>, copies: map<Node, Node>,
                         targets: map<Node, Node>, count: nat)

  const EMPTY := State(map[], map[], map[], map[], 0)

  function FileOf(s: State, location: string): File {
    if location in s.files then s.files[location] else File(map[], map[])
  }

  /** What parsing does to the root schema. A reference to an unknown keyword is
      the events of making a schema of it, then the reference. */
  datatype Event =
    | MakeSchema
    | TouchFile(location: string)
    | Insert(uri: Uri, schema: Node)
    | Refer(uri: Uri)
    | OverrideDefault(schema: Node)

  datatype Outcome = Done(state: State, node: Node) | Thrown(state: State)

  function Touched(s: State, location: string): State {
    s.(files := s.files[location := FileOf(s, location)])
  }

  function Inserted(s: State, uri: Uri, schema: Node): Outcome {
    var file := FileOf(s, uri.location);
    if uri.fragment in file.schemas then Thrown(Touched(s, uri.location))
    else
      var defined := file.(schemas := file.schemas[uri.fragment := schema]);
      if uri.fragment in file.unresolved then
        Done(s.(files := s.files[uri.location := defined.(unresolved := file.unresolved - {uri.fragment})],
                targets := s.targets[file.unresolved[uri.fragment] := schema]), schema)
      else
        Done(s.(files := s.files[uri.location := defined]), schema)
  }

  /** A new reference is made and awaits its definition. */
  function WithReference(s: State, uri: Uri): State {
    var file := FileOf(s, uri.location);
    s.(files := s.files[uri.location := file.(unresolved := file.unresolved[uri.fragment := s.count])],
       refs := s.refs[s.count := uri], count := s.count + 1)
  }

  function Referred(s: State, uri: Uri): Outcome {
    var file := FileOf(s, uri.location);
    if uri.fragment in file.schemas then Done(Touched(s, uri.location), file.schemas[uri.fragment])
    else if uri.fragment in file.unresolved then Done(Touched(s, uri.location), file.unresolved[uri.fragment])
    else Done(WithReference(s, uri), s.count)
  }

  /** A copy of a reference points where the original points at that moment. */
  function Overridden(s: State, n: Node): Outcome {
    if n in s.refs || n in s.copies then
      Done(s.(copies := s.copies[s.count := n],
              targets := if n in s.targets then s.targets[s.count := s.targets[n]] else s.targets,
              count := s.count + 1), s.count)
    else
      Done(s.(count := s.count + 1), s.count)
  }

  function Step(s: State, e: Event): Outcome {
    match e
    case MakeSchema => Done(s.(count := s.count + 1), s.count)
    case TouchFile(location) => Done(Touched(s, location), 0)
    case Insert(uri, schema) => Inserted(s, uri, schema)
    case Refer(uri) => Referred(s, uri)
    case OverrideDefault(schema) => Overridden(s, schema)
  }

  /** A run stops where an event throws. */
  function Run(s: State, events: seq<Event>): Outcome
    decreases |events|
  {
    if events == [] then Done(s, 0)
    else
      match Step(s, events[0])
      case Thrown(t) => Thrown(t)
      case Done(t, _) => Run(t, events[1..])
  }

  // ------------------------------------------------------------ invariant

  /** What a file awaits it has not defined, and is a reference to just that
      place, not yet resolved. */
  ghost predicate AwaitedAt(s: State, l: string, f: string) {
    l in s.files && f in s.files[l].unresolved ==>
      var r := s.files[l].unresolved[f];
      && f !in s.files[l].schemas
      && r in s.refs && s.refs[r] == Uri(l, f) && r !in s.targets
  }

  /** The reference waits at its place, or points to the schema defined there. */
  ghost predicate Accounted(s: State, r: Node)
    requires r in s.refs
  {
    var uri, file := s.refs[r], FileOf(s, s.refs[r].location);
    || (uri.fragment in file.unresolved && file.unresolved[uri.fragment] == r && r !in s.targets)
    || (uri.fragment in file.schemas && r in s.targets && s.targets[r] == file.schemas[uri.fragment])
  }

  ghost predicate Old(s: State) {
    && (forall r :: r in s.refs ==> r < s.count && r !in s.copies)
    && (forall c :: c in s.copies ==> c < s.count && (s.copies[c] in s.refs || s.copies[c] in s.copies))
    && (forall r :: r in s.targets ==> r in s.refs || r in s.copies)
  }

  ghost predicate Valid(s: State) {
    && (forall l, f :: AwaitedAt(s, l, f))
    && (forall r :: r in s.refs ==> Accounted(s, r))
    && Old(s)
  }

  lemma TouchKeepsPlaces(s: State, location: string, l: string, f: string)
    requires AwaitedAt(s, l, f) && Old(s)
    ensures AwaitedAt(Touched(s, location), l, f)
  {
  }

  lemma TouchKeepsAccounts(s: State, location: string, r: Node)
    requires Valid(s) && r in Touched(s, location).refs
    ensures Accounted(Touched(s, location), r)
  {
    hide AwaitedAt;
    assert r in s.refs ==> Accounted(s, r);
  }

  lemma TouchKeepsValid(s: State, location: string)
    requires Valid(s)
    ensures Valid(Touched(s, location))
  {
    hide AwaitedAt, Accounted;
    forall l, f
      ensures AwaitedAt(Touched(s, location), l, f)
    {
      TouchKeepsPlaces(s, location, l, f);
    }
    forall r | r in Touched(s, location).refs
      ensures Accounted(Touched(s, location), r)
    {
      TouchKeepsAccounts(s, location, r);
    }
  }

  lemma InsertKeepsPlaces(s: State, uri: Uri, schema: Node, l: string, f: string)
    requires AwaitedAt(s, l, f) && AwaitedAt(s, uri.location, uri.fragment) && Old(s)
    ensures AwaitedAt(Inserted(s, uri, schema).state, l, f)
  {
  }

  lemma InsertKeepsAccounts(s: State, uri: Uri, schema: Node, r: Node)
    requires AwaitedAt(s, uri.location, uri.fragment)
    requires r in s.refs && Accounted(s, r)
    ensures Accounted(Inserted(s, uri, schema).state, r)
  {
  }

  lemma InsertKeepsOld(s: State, uri: Uri, schema: Node)
    requires Old(s) && AwaitedAt(s, uri.location, uri.fragment)
    ensures Old(Inserted(s, uri, schema).state)
  {
  }

  lemma InsertKeepsValid(s: State, uri: Uri, schema: Node)
    requires Valid(s)
    ensures Valid(Inserted(s, uri, schema).state)
  {
    hide AwaitedAt, Accounted, Old;
    var t := Inserted(s, uri, schema).state;
    assert AwaitedAt(s, uri.location, uri.fragment);
    forall l, f
      ensures AwaitedAt(t, l, f)
    {
      assert AwaitedAt(s, l, f);
      InsertKeepsPlaces(s, uri, schema, l, f);
    }
    forall r | r in t.refs
      ensures Accounted(t, r)
    {
      InsertKeepsAccounts(s, uri, schema, r);
    }
    InsertKeepsOld(s, uri, schema);
  }

  predicate Unheard(s: State, uri: Uri) {
    uri.fragment !in FileOf(s, uri.location).schemas && uri.fragment !in FileOf(s, uri.location).unresolved
  }

  lemma NewKeepsPlaces(s: State, uri: Uri, l: string, f: string)
    requires AwaitedAt(s, l, f) && Old(s) && Unheard(s, uri)
    ensures AwaitedAt(WithReference(s, uri), l, f)
  {
  }

  lemma NewKeepsAccounts(s: State, uri: Uri, r: Node)
    requires Unheard(s, uri) && Old(s)
    requires r in WithReference(s, uri).refs && (r in s.refs ==> Accounted(s, r))
    ensures Accounted(WithReference(s, uri), r)
  {
  }

  lemma ReferKeepsValid(s: State, uri: Uri)
    requires Valid(s)
    ensures Valid(Referred(s, uri).state)
  {
    hide AwaitedAt, Accounted;
    TouchKeepsValid(s, uri.location);
    if Unheard(s, uri) {
      var t := WithReference(s, uri);
      forall l, f
        ensures AwaitedAt(t, l, f)
      {
        NewKeepsPlaces(s, uri, l, f);
      }
      forall r | r in t.refs
        ensures Accounted(t, r)
      {
        NewKeepsAccounts(s, uri, r);
      }
    }
  }

  lemma OverrideKeepsPlaces(s: State, n: Node, l: string, f: string)
    requires AwaitedAt(s, l, f) && Old(s)
    ensures AwaitedAt(Overridden(s, n).state, l, f)
  {
  }

  lemma OverrideKeepsAccounts(s: State, n: Node, r: Node)
    requires Valid(s) && r in Overridden(s, n).state.refs
    ensures Accounted(Overridden(s, n).state, r)
  {
    hide AwaitedAt;
    assert r in s.refs ==> Accounted(s, r);
  }

  lemma OverrideKeepsOld(s: State, n: Node)
    requires Old(s)
    ensures Old(Overridden(s, n).state)
  {
  }

  lemma OverrideKeepsValid(s: State, n: Node)
    requires Valid(s)
    ensures Valid(Overridden(s, n).state)
  {
    hide AwaitedAt, Accounted, Old, Overridden;
    OverrideKeepsOld(s, n);
    forall l, f
      ensures AwaitedAt(Overridden(s, n).state, l, f)
    {
      OverrideKeepsPlaces(s, n, l, f);
    }
    forall r | r in Overridden(s, n).state.refs
      ensures Accounted(Overridden(s, n).state, r)
    {
      OverrideKeepsAccounts(s, n, r);
    }
  }

  /** Every event, also one that throws, keeps the invariant. */
  lemma StepKeepsValid(s: State, e: Event)
    requires Valid(s)
    ensures Valid(Step(s, e).state)
  {
    match e
    case MakeSchema =>
      assert forall l, f :: AwaitedAt(s, l, f) ==> AwaitedAt(Step(s, e).state, l, f);
      assert forall r :: r in s.refs && Accounted(s, r) ==> Accounted(Step(s, e).state, r);
    case TouchFile(location) => TouchKeepsValid(s, location);
    case Insert(uri, schema) => InsertKeepsValid(s, uri, schema);
    case Refer(uri) => ReferKeepsValid(s, uri);
    case OverrideDefault(n) => OverrideKeepsValid(s, n);
  }

  // ------------------------------------------------------------ monotonicity

  /** Definitions, resolved references and copies stay as they are, and only new
      objects become references or copies. */
  ghost predicate Extends(s: State, t: State) {
    && (forall l :: l in s.files ==> l in t.files)
    && (forall l, f :: DefinitionKept(s, t, l, f))
    && (forall r :: r in s.refs ==> r in t.refs && t.refs[r] == s.refs[r])
    && (forall r :: r in s.targets ==> r in t.targets && t.targets[r] == s.targets[r])
    && (forall c :: c in s.copies ==> c in t.copies && t.copies[c] == s.copies[c])
    && (forall c :: c in s.copies && c in t.targets ==> c in s.targets)
    && (forall n :: (n in t.refs && n !in s.refs) || (n in t.copies && n !in s.copies) ==> n >= s.count)
    && s.count <= t.count
  }

  ghost predicate DefinitionKept(s: State, t: State, l: string, f: string) {
    l in s.files && f in s.files[l].schemas ==>
      l in t.files && f in t.files[l].schemas && t.files[l].schemas[f] == s.files[l].schemas[f]
  }

  lemma InsertKeepsDefinitions(s: State, uri: Uri, schema: Node, l: string, f: string)
    ensures DefinitionKept(s, Inserted(s, uri, schema).state, l, f)
  {
  }

  lemma InsertExtends(s: State, uri: Uri, schema: Node)
    requires Valid(s)
    ensures Extends(s, Inserted(s, uri, schema).state)
  {
    hide Accounted, DefinitionKept;
    assert AwaitedAt(s, uri.location, uri.fragment);
    forall l, f
      ensures DefinitionKept(s, Inserted(s, uri, schema).state, l, f)
    {
      InsertKeepsDefinitions(s, uri, schema, l, f);
    }
  }

  lemma TouchExtends(s: State, location: string)
    ensures Extends(s, Touched(s, location))
  {
  }

  lemma NewExtends(s: State, uri: Uri)
    requires Old(s) && Unheard(s, uri)
    ensures Extends(s, WithReference(s, uri))
  {
  }

  lemma ReferExtends(s: State, uri: Uri)
    requires Old(s)
    ensures Extends(s, Referred(s, uri).state)
  {
    hide Extends, WithReference, Touched, Old;
    if Unheard(s, uri) {
      NewExtends(s, uri);
    } else {
      TouchExtends(s, uri.location);
    }
  }

  lemma OverrideExtends(s: State, n: Node)
    requires Old(s)
    ensures Extends(s, Overridden(s, n).state)
  {
    assert s.count !in s.targets && s.count !in s.copies;
  }

  lemma StepExtends(s: State, e: Event)
    requires Valid(s)
    ensures Extends(s, Step(s, e).state)
  {
    hide AwaitedAt, Accounted, Old, Inserted, Referred, Overridden;
    match e
    case MakeSchema =>
    case TouchFile(location) => TouchExtends(s, location);
    case Insert(uri, schema) => InsertExtends(s, uri, schema);
    case Refer(uri) => ReferExtends(s, uri);
    case OverrideDefault(n) => OverrideExtends(s, n);
  }

  lemma ExtendsTransitive(s: State, t: State, u: State)
    requires Extends(s, t) && Extends(t, u)
    ensures Extends(s, u)
  {
    forall l, f
      ensures DefinitionKept(s, u, l, f)
    {
      assert DefinitionKept(s, t, l, f) && DefinitionKept(t, u, l, f);
    }
  }

  /** Over every run, also one that throws. */
  lemma {:induction false} RunKeepsValid(s: State, events: seq<Event>)
    requires Valid(s)
    ensures Valid(Run(s, events).state) && Extends(s, Run(s, events).state)
    decreases |events|
  {
    if events != [] {
      hide Step, Valid, Extends;
      StepKeepsValid(s, events[0]);
      StepExtends(s, events[0]);
      if Step(s, events[0]).Done? {
        var t := Step(s, events[0]).state;
        RunKeepsValid(t, events[1..]);
        ExtendsTransitive(s, t, Run(t, events[1..]).state);
      }
    }
  }

  // ------------------------------------------------- what single events do

  /** Inserting throws exactly where something is defined; else the schema is defined
      there, nobody waits for it any more, and no other place is touched. */
  lemma InsertDefines(s: State, uri: Uri, schema: Node, l: string, f: string)
    ensures var r := Inserted(s, uri, schema);
            if uri.location in s.files && uri.fragment in s.files[uri.location].schemas then r.Thrown?
            else && r.Done? && uri.location in r.state.files
                 && var file := r.state.files[uri.location];
                    && uri.fragment in file.schemas && file.schemas[uri.fragment] == schema
                    && uri.fragment !in file.unresolved
    ensures Uri(l, f) != uri && l in s.files ==>
              && l in Inserted(s, uri, schema).state.files
              && var was, now := s.files[l], Inserted(s, uri, schema).state.files[l];
                 && (f in now.schemas <==> f in was.schemas) && (f in now.unresolved <==> f in was.unresolved)
                 && (f in was.schemas ==> now.schemas[f] == was.schemas[f])
                 && (f in was.unresolved ==> now.unresolved[f] == was.unresolved[f])
  {
  }

  /** Referring to a place, or touching its file, makes the file known, so that it is
      loaded; only a reference to a place neither defined nor awaited makes an object,
      which then waits there. */
  lemma ReferMakesKnown(s: State, uri: Uri)
    ensures uri.location in Referred(s, uri).state.files && uri.location in Touched(s, uri.location).files
    ensures uri.location in s.files ==> Touched(s, uri.location) == s
    ensures var r, file := Referred(s, uri), FileOf(s, uri.location);
            if uri.fragment in file.schemas then r.node == file.schemas[uri.fragment] && r.state.count == s.count
            else if uri.fragment in file.unresolved
                 then r.node == file.unresolved[uri.fragment] && r.state.count == s.count
            else && r.node == s.count && r.state.count == s.count + 1
                 && uri.fragment in r.state.files[uri.location].unresolved
                 && r.state.files[uri.location].unresolved[uri.fragment] == r.node
  {
    assert uri.location in s.files ==> s.files[uri.location := s.files[uri.location]] == s.files;
  }

  /** A run is cut short by the first event that throws, and by nothing else. */
  lemma {:induction false} RunConcat(s: State, a: seq<Event>, b: seq<Event>)
    ensures Run(s, a + b) == if Run(s, a).Thrown? || b == [] then Run(s, a) else Run(Run(s, a).state, b)
    decreases |a|
  {
    hide Step;
    if a == [] {
      assert a + b == b;
    } else {
      assert (a + b)[0] == a[0] && (a + b)[1..] == a[1..] + b;
      if Step(s, a[0]).Done? {
        RunConcat(Step(s, a[0]).state, a[1..], b);
      }
    }
  }

  // ------------------------------------------------------------ resolution

  ghost predicate NothingAwaited(s: State) {
    forall l :: l in s.files ==> s.files[l].unresolved == map[]
  }

  /** The reference points to the schema defined at its URI. */
  ghost predicate ResolvedAtHome(s: State, r: Node)
    requires r in s.refs
  {
    && s.refs[r].location in s.files
    && s.refs[r].fragment in s.files[s.refs[r].location].schemas
    && r in s.targets
    && s.targets[r] == s.files[s.refs[r].location].schemas[s.refs[r].fragment]
  }

  lemma DefinedAndAwaitedDisjoint(s: State, l: string)
    requires Valid(s) && l in s.files
    ensures s.files[l].schemas.Keys !! s.files[l].unresolved.Keys
  {
    forall f | f in s.files[l].unresolved
      ensures f !in s.files[l].schemas
    {
      assert AwaitedAt(s, l, f);
    }
  }

  /** The final scan of the root schema is exact: nothing is awaited if and only
      if every reference handed out points to the schema at its URI. */
  lemma NothingAwaitedIffResolved(s: State)
    requires Valid(s)
    ensures NothingAwaited(s) <==> forall r :: r in s.refs ==> ResolvedAtHome(s, r)
  {
    if NothingAwaited(s) {
      forall r | r in s.refs
        ensures ResolvedAtHome(s, r)
      {
        assert Accounted(s, r);
      }
    } else {
      var l :| l in s.files && s.files[l].unresolved != map[];
      var f :| f in s.files[l].unresolved;
      assert AwaitedAt(s, l, f);
      assert !ResolvedAtHome(s, s.files[l].unresolved[f]);
    }
  }

  /** Once a URI is defined, whoever refers to it gets the schema itself. */
  lemma ReferAfterInsert(s: State, uri: Uri, schema: Node, events: seq<Event>)
    requires Valid(s) && Inserted(s, uri, schema).Done?
    requires Run(Inserted(s, uri, schema).state, events).Done?
    ensures Referred(Run(Inserted(s, uri, schema).state, events).state, uri).node == schema
  {
    var t := Inserted(s, uri, schema).state;
    InsertKeepsValid(s, uri, schema);
    RunKeepsValid(t, events);
    assert DefinitionKept(t, Run(t, events).state, uri.location, uri.fragment);
  }

  /** Whoever refers to a URI before it is defined gets a reference that the
      definition, whenever it comes, resolves to the schema. */
  lemma ReferBeforeInsert(s: State, uri: Uri, between: seq<Event>, schema: Node, after: seq<Event>)
    requires Valid(s) && uri.fragment !in FileOf(s, uri.location).schemas
    requires Run(Referred(s, uri).state, between).Done?
    requires Inserted(Run(Referred(s, uri).state, between).state, uri, schema).Done?
    ensures var r := Referred(s, uri).node;
            var t := Inserted(Run(Referred(s, uri).state, between).state, uri, schema).state;
            && r in Run(t, after).state.targets
            && Run(t, after).state.targets[r] == schema
  {
    var r, s1 := Referred(s, uri).node, Referred(s, uri).state;
    assert AwaitedAt(s, uri.location, uri.fragment);
    ReferKeepsValid(s, uri);
    RunKeepsValid(s1, between);
    var s2 := Run(s1, between).state;
    assert Accounted(s2, r);
    InsertKeepsValid(s2, uri, schema);
    RunKeepsValid(Inserted(s2, uri, schema).state, after);
  }

  /** Until a URI is defined, all who refer to it share one reference. */
  lemma ReferTwice(s: State, uri: Uri, between: seq<Event>)
    requires Valid(s) && uri.fragment !in FileOf(s, uri.location).schemas
    requires Run(Referred(s, uri).state, between).Done?
    requires uri.fragment !in FileOf(Run(Referred(s, uri).state, between).state, uri.location).schemas
    ensures Referred(Run(Referred(s, uri).state, between).state, uri).node == Referred(s, uri).node
  {
    assert AwaitedAt(s, uri.location, uri.fragment);
    ReferKeepsValid(s, uri);
    RunKeepsValid(Referred(s, uri).state, between);
    assert Accounted(Run(Referred(s, uri).state, between).state, Referred(s, uri).node);
  }

  /** A reference copied for its default is ever resolved if and only if the
      original was resolved when it was copied, and then to the same schema. */
  lemma CopyResolvedIffOriginalWas(s: State, n: Node, after: seq<Event>)
    requires Valid(s) && (n in s.refs || n in s.copies)
    ensures var c, t := Overridden(s, n).node, Run(Overridden(s, n).state, after).state;
            && (c in t.targets <==> n in s.targets)
            && (n in s.targets ==> t.targets[c] == s.targets[n])
  {
    OverrideKeepsValid(s, n);
    RunKeepsValid(Overridden(s, n).state, after);
    assert s.count !in s.targets;
  }

  /** A document that overrides the default of a reference to something defined
      after it passes the final scan with a copy that points nowhere. */
  lemma UnresolvedCopyPasses()
    ensures var u := Uri("", "/definitions/a");
            var s := Run(EMPTY, [Refer(u), OverrideDefault(0), MakeSchema, Insert(u, 2), Insert(Uri("", ""), 1)]);
            s.Done? && NothingAwaited(s.state) && 1 in s.state.copies && 1 !in s.state.targets
  {
    var u, root := Uri("", "/definitions/a"), Uri("", "");
    var s1 := Referred(EMPTY, u).state;
    var s2 := Overridden(s1, 0).state;
    var s3 := s2.(count := 3);
    var s4 := Inserted(s3, u, 2).state;
    var s5 := Inserted(s4, root, 1).state;
    var es := [Refer(u), OverrideDefault(0), MakeSchema, Insert(u, 2), Insert(root, 1)];
    RunFrom(EMPTY, es, 0, s1);
    RunFrom(s1, es, 1, s2);
    RunFrom(s2, es, 2, s3);
    RunFrom(s3, es, 3, s4);
    RunFrom(s4, es, 4, s5);
    assert es[0..] == es;
    assert es[5..] == [];
  }

  lemma RunFrom(s: State, events: seq<Event>, i: nat, t: State)
    requires i < |events| && Step(s, events[i]).Done? && Step(s, events[i]).state == t
    ensures Run(s, events[i..]) == Run(t, events[i + 1..])
  {
    assert events[i..][1..] == events[i + 1..];
  }

  /** A root that only refers to itself is resolved, to itself: the final scan
      does not exclude circular references. */
  lemma SelfReferencePasses()
    ensures var s := Run(EMPTY, [Refer(Uri("", "")), Insert(Uri("", ""), 0)]);
            s.Done? && NothingAwaited(s.state) && 0 in s.state.targets && s.state.targets[0] == 0
  {
    var u := Uri("", "");
    var s1 := Referred(EMPTY, u).state;
    var s2 := Inserted(s1, u, 0).state;
    var es := [Refer(u), Insert(u, 0)];
    RunFrom(EMPTY, es, 0, s1);
    RunFrom(s1, es, 1, s2);
    assert es[0..] == es;
    assert es[2..] == [];
  }
}

/** The root schema as an object: its maps are updated in place by what parsing
    does, and loading goes on until nothing is left to load. */
module RootSchemas {
  import opened Cardinality
  import opened References

  class RootSchema {
    var files: map<string, File>
    var refs: map<Node, Uri>
    var copies: map<Node, Node>
    var targets: map<Node, Node>
    var count: nat

    function Value(): State
      reads this
    {
      State(files, refs, copies, targets, count)
    }

    constructor ()
      ensures Value() == EMPTY
    {
      files, refs, copies, targets, count := map[], map[], map[], map[], 0;
    }

    method GetOrCreateFile(location: string)
      modifies `files
      ensures Value() == Touched(old(Value()), location)
    {
      if location !in files {
        files := files[location := File(map[], map[])];
      } else {
        assert files[location := files[location]] == files;
      }
    }

    /** Throws when the URI is already defined; otherwise resolves who awaits it. */
    method Insert(uri: Uri, schema: Node) returns (thrown: bool)
      modifies `files, `targets
      ensures Value() == Inserted(old(Value()), uri, schema).state
      ensures thrown <==> Inserted(old(Value()), uri, schema).Thrown?
    {
      GetOrCreateFile(uri.location);
      var file := files[uri.location];
      if uri.fragment in file.schemas {
        return true;
      }
      files := files[uri.location := file.(schemas := file.schemas[uri.fragment := schema])];
      if uri.fragment in file.unresolved {
        targets := targets[file.unresolved[uri.fragment] := schema];
        files := files[uri.location := files[uri.location].(unresolved := file.unresolved - {uri.fragment})];
      }
      thrown := false;
    }

    method GetOrCreateRef(uri: Uri) returns (node: Node)
      modifies `files, `refs, `count
      ensures Value() == Referred(old(Value()), uri).state
      ensures node == Referred(old(Value()), uri).node
    {
      GetOrCreateFile(uri.location);
      var file := files[uri.location];
      if uri.fragment in file.schemas {
        return file.schemas[uri.fragment];
      }
      if uri.fragment in file.unresolved {
        return file.unresolved[uri.fragment];
      }
      node := count;
      count := count + 1;
      refs := refs[node := uri];
      files := files[uri.location := file.(unresolved := file.unresolved[uri.fragment := node])];
    }

    /** Copies a schema to give the copy a default of its own. */
    method CopyForDefault(n: Node) returns (copy: Node)
      modifies `copies, `targets, `count
      ensures Value() == Overridden(old(Value()), n).state
      ensures copy == Overridden(old(Value()), n).node
    {
      copy := count;
      count := count + 1;
      if n in refs || n in copies {
        if n in targets {
          targets := targets[copy := targets[n]];
        }
        copies := copies[copy := n];
      }
    }

    /** What making the schema of one document does. */
    method Execute(events: seq<Event>) returns (thrown: bool)
      modifies this
      ensures Value() == Run(old(Value()), events).state
      ensures thrown <==> Run(old(Value()), events).Thrown?
    {
      hide Inserted, WithReference, Touched;
      ghost var start := Value();
      var i := 0;
      assert events[0..] == events;
      while i < |events|
        invariant 0 <= i <= |events|
        invariant Run(start, events) == Run(Value(), events[i..])
      {
        ghost var before := Value();
        StepRun(before, events, i);
        match events[i] {
          case MakeSchema =>
            count := count + 1;
          case TouchFile(location) =>
            GetOrCreateFile(location);
          case Insert(uri, schema) =>
            var failed := Insert(uri, schema);
            if failed {
              return true;
            }
          case Refer(uri) =>
            var node := GetOrCreateRef(uri);
          case OverrideDefault(schema) =>
            var copy := CopyForDefault(schema);
        }
        assert Value() == Step(before, events[i]).state;
        i := i + 1;
      }
      thrown := false;
    }

    /** Makes the schema of a document: its events, ending with its insertion at
        the location it was loaded from. */
    method MakeSchemaAt(location: string, document: Document) returns (thrown: bool)
      requires Valid(Value())
      modifies this
      ensures Value() == Made(old(Value()), location, document).state
      ensures thrown <==> Made(old(Value()), location, document).Thrown?
      ensures Valid(Value()) && Extends(old(Value()), Value())
      ensures !thrown ==> location in files && "" in files[location].schemas
    {
      hide Valid, Extends, Run;
      ghost var start := Value();
      thrown := Execute(document.events);
      RunKeepsValid(start, document.events);
      if thrown {
        return;
      }
      ghost var middle := Value();
      thrown := Insert(Uri(location, ""), document.schema);
      InsertKeepsValid(middle, Uri(location, ""), document.schema);
      InsertExtends(middle, Uri(location, ""), document.schema);
      ExtendsTransitive(start, middle, Value());
    }

    /** Loads the document of a file for which nothing has been loaded. */
    method LoadOne(l: string, documents: map<string, Document>, ghost loaded: set<string>,
                   ghost start: State, ghost order: seq<string>)
      returns (failed: bool)
      requires Valid(Value()) && Loaded(Value(), documents, loaded) && Loading(Value(), start, documents, order)
      requires l in files && files[l].schemas == map[]
      modifies this
      ensures Valid(Value()) && Extends(old(Value()), Value())
      ensures Loaded(Value(), documents, loaded) && old(files.Keys) <= files.Keys
      ensures !failed ==> l !in loaded && Loaded(Value(), documents, loaded + {l})
      ensures if failed then LoadFails(Value(), start, documents, order + [l])
              else Loading(Value(), start, documents, order + [l])
    {
      hide Valid, Extends, Made, Loading, LoadFails;
      ghost var before := Value();
      ExtendsReflexive(before);
      LoadNext(before, start, documents, order, l);
      if l !in documents {
        return true;
      }
      failed := MakeSchemaAt(l, documents[l]);
      LoadedExtends(before, Value(), documents, loaded);
      KeepsFiles(before, Value());
    }

    /** One pass over the files known when it starts: loads those for which
        nothing has been loaded. */
    method LoadMissing(documents: map<string, Document>, ghost loaded: set<string>,
                       ghost start: State, ghost order: seq<string>)
      returns (failed: bool, progress: bool, ghost loaded': set<string>, ghost order': seq<string>)
      requires Valid(Value()) && Loaded(Value(), documents, loaded) && Loading(Value(), start, documents, order)
      modifies this
      ensures Valid(Value())
      ensures Loaded(Value(), documents, loaded') && loaded <= loaded'
      ensures !failed && progress ==> loaded < loaded'
      ensures !failed && !progress ==>
                loaded' == loaded && Value() == old(Value()) && forall l :: l in files ==> files[l].schemas != map[]
      ensures if failed then LoadFails(Value(), start, documents, order')
              else Loading(Value(), start, documents, order')
    {
      hide Valid, Loaded, Loading, LoadFails;
      loaded', order' := loaded, order;
      failed, progress := false, false;
      var locations := files.Keys;
      while locations != {}
        invariant Valid(Value()) && Loaded(Value(), documents, loaded') && Loading(Value(), start, documents, order')
        invariant locations <= files.Keys
        invariant if progress then loaded < loaded'
                  else && loaded' == loaded && Value() == old(Value())
                       && forall l :: l in files && l !in locations ==> files[l].schemas != map[]
        decreases |locations|
      {
        var l :| l in locations;
        locations := locations - {l};
        if |files[l].schemas| == 0 {
          failed := LoadOne(l, documents, loaded', start, order');
          order' := order' + [l];
          if failed {
            return;
          }
          loaded' := loaded' + {l};
          progress := true;
        }
      }
    }

    /** Passes until one loads nothing. */
    method LoadAll(documents: map<string, Document>) returns (failed: bool, ghost order: seq<string>)
      requires Valid(Value())
      modifies this
      ensures Valid(Value())
      ensures !failed ==> forall l :: l in files ==> files[l].schemas != map[]
      ensures if failed then LoadFails(Value(), old(Value()), documents, order)
              else Loading(Value(), old(Value()), documents, order)
    {
      hide Valid, Extends, Loading, LoadFails;
      ghost var start := Value();
      ghost var loaded: set<string> := {};
      order := [];
      LoadNothing(start, documents);
      var progress := true;
      failed := false;
      while progress
        invariant Valid(Value()) && Loaded(Value(), documents, loaded) && Loading(Value(), start, documents, order)
        invariant !progress ==> forall l :: l in files ==> files[l].schemas != map[]
        decreases |documents.Keys - loaded|, progress
      {
        ghost var loaded';
        failed, progress, loaded', order := LoadMissing(documents, loaded, start, order);
        if failed {
          return;
        }
        if progress {
          FewerLeft(documents.Keys, loaded, loaded');
        }
        loaded := loaded';
      }
    }

    method NothingLeftAwaited() returns (ok: bool)
      ensures ok <==> NothingAwaited(Value())
    {
      var locations := files.Keys;
      while locations != {}
        invariant locations <= files.Keys
        invariant forall l :: l in files && l !in locations ==> files[l].unresolved == map[]
        decreases |locations|
      {
        var l :| l in locations;
        if |files[l].unresolved| != 0 {
          return false;
        }
        locations := locations - {l};
      }
      ok := true;
    }

    /** Parses the root document, loads what it needs, and fails when a reference
        is left undefined. It succeeds if and only if making the root succeeds, so
        does making the schema of every file that turns out to be needed, in the order
        in which they are loaded, and nothing is awaited in the end. Then every
        reference handed out points to the schema at its URI. */
    method SetRootSchema(root: Document, documents: map<string, Document>) returns (ok: bool, ghost order: seq<string>)
      modifies this
      ensures Valid(Value())
      ensures ok ==> forall r :: r in refs ==> ResolvedAtHome(Value(), r)
      ensures ok ==> forall l :: l in files ==> files[l].schemas != map[]
      ensures var start := Made(EMPTY, "", root);
              if start.Thrown? then !ok && Value() == start.state
              else if LoadFails(Value(), start.state, documents, order) then !ok
              else && Loading(Value(), start.state, documents, order)
                   && (forall l :: l in files ==> files[l].schemas != map[])
                   && (ok <==> forall l :: l in files ==> files[l].unresolved == map[])
    {
      hide Valid, Extends, ResolvedAtHome, Made, Loading, LoadFails;
      files, refs, copies, targets, count := map[], map[], map[], map[], 0;
      order := [];
      EmptyIsValid();
      var thrown := MakeSchemaAt("", root);
      if thrown {
        return false, order;
      }
      ghost var start := Value();
      var failed;
      failed, order := LoadAll(documents);
      if failed {
        return false, order;
      }
      NotBoth(Value(), start, documents, order);
      ok := NothingLeftAwaited();
      NothingAwaitedIffResolved(Value());
    }
  }

  /** What parsing a document does, and the schema that comes of it. */
  datatype Document = Document(events: seq<Event>, schema: Node)

  /** Parsing the document, then inserting its schema where it was loaded from. */
  function Made(s: State, location: string, document: Document): Outcome {
    match Run(s, document.events)
    case Thrown(t) => Thrown(t)
    case Done(t, _) => Inserted(t, Uri(location, ""), document.schema)
  }

  /** Making the schemas of several files, one after the other. It fails at one
      for which there is no document. */
  function AllMade(s: State, documents: map<string, Document>, order: seq<string>): Outcome {
    if order == [] then Done(s, 0)
    else
      var l := order[|order| - 1];
      match AllMade(s, documents, order[..|order| - 1])
      case Thrown(t) => Thrown(t)
      case Done(t, _) => if l in documents then Made(t, l, documents[l]) else Thrown(t)
  }

  /** Each file in the order was known, and nothing loaded for it, when its turn came. */
  ghost predicate Needed(start: State, documents: map<string, Document>, order: seq<string>) {
    forall k :: 0 <= k < |order| ==> Missing(AllMade(start, documents, order[..k]).state, order[k])
  }

  predicate Missing(s: State, l: string) { l in s.files && s.files[l].schemas == map[] }

  /** The files in the order have been loaded. */
  ghost predicate Loading(s: State, start: State, documents: map<string, Document>, order: seq<string>) {
    && AllMade(start, documents, order).Done? && AllMade(start, documents, order).state == s
    && Needed(start, documents, order)
  }

  /** Loading them has failed at the last one. */
  ghost predicate LoadFails(s: State, start: State, documents: map<string, Document>, order: seq<string>) {
    && AllMade(start, documents, order).Thrown? && AllMade(start, documents, order).state == s
    && Needed(start, documents, order)
  }

  lemma LoadNothing(start: State, documents: map<string, Document>)
    ensures Loading(start, start, documents, [])
  {
  }

  lemma LoadNext(s: State, start: State, documents: map<string, Document>, order: seq<string>, l: string)
    requires Loading(s, start, documents, order) && Missing(s, l)
    ensures l !in documents ==> LoadFails(s, start, documents, order + [l])
    ensures l in documents ==>
              var t := Made(s, l, documents[l]);
              if t.Thrown? then LoadFails(t.state, start, documents, order + [l])
              else Loading(t.state, start, documents, order + [l])
  {
    hide Made;
    var next := order + [l];
    assert next[..|order|] == order;
    forall k | 0 <= k < |next|
      ensures Missing(AllMade(start, documents, next[..k]).state, next[k])
    {
      assert next[..k] == order[..k];
      if k == |order| {
        assert order[..k] == order;
      }
    }
  }

  lemma NotBoth(s: State, start: State, documents: map<string, Document>, order: seq<string>)
    requires Loading(s, start, documents, order)
    ensures !LoadFails(s, start, documents, order)
  {
  }

  ghost predicate Loaded(s: State, documents: map<string, Document>, loaded: set<string>) {
    loaded <= documents.Keys && forall l :: l in loaded ==> l in s.files && s.files[l].schemas != map[]
  }

  lemma StepRun(s: State, events: seq<Event>, i: nat)
    requires i < |events|
    ensures Step(s, events[i]).Done? ==> Run(s, events[i..]) == Run(Step(s, events[i]).state, events[i + 1..])
    ensures Step(s, events[i]).Thrown? ==> Run(s, events[i..]) == Step(s, events[i])
  {
    hide Step;
    assert events[i..][1..] == events[i + 1..];
  }

  lemma EmptyIsValid()
    ensures Valid(EMPTY)
  {
  }

  lemma ExtendsReflexive(s: State)
    ensures Extends(s, s)
  {
  }

  lemma LoadedExtends(s: State, t: State, documents: map<string, Document>, loaded: set<string>)
    requires Extends(s, t) && Loaded(s, documents, loaded)
    ensures Loaded(t, documents, loaded)
  {
    forall l | l in loaded
      ensures t.files[l].schemas != map[]
    {
      var f :| f in s.files[l].schemas;
      assert DefinitionKept(s, t, l, f);
    }
  }

  lemma KeepsFiles(s: State, t: State)
    requires Extends(s, t)
    ensures s.files.Keys <= t.files.Keys
  {
  }

  lemma FewerLeft(all: set<string>, a: set<string>, b: set<string>)
    requires a < b <= all
    ensures |all - b| < |all - a|
  {
    var x :| x in b && x !in a;
    assert all - b <= all - a - {x};
    SubsetSize(all - b, all - a - {x});
  }
}

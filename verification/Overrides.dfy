/** What a default beside a reference does: the copy made while a document is
    parsed, and the validator object that stands for it afterwards. */
module Overrides {
  import opened JsonValues
  import opened References
  import Schemas
  import opened Draft07
  import opened Agreement

  /** Parsing a reference with a default: the reference is asked for, then copied. */
  function CopyMade(s: State, uri: Uri): Outcome {
    var r := Referred(s, uri);
    Overridden(r.state, r.node)
  }

  /** The object is a schema, or a reference or copy that points to one. */
  predicate Leads(s: State, n: Node) { (n !in s.refs && n !in s.copies) || n in s.targets }

  /** What a document records of it. */
  function Recorded(s: State, uri: Uri, isNull: bool): OwnDefault {
    var r := Referred(s, uri);
    OwnDefault.Overrides(Leads(r.state, r.node), isNull)
  }

  /** The record is made when the copy is made and holds ever after: whatever is
      parsed later, the copy leads to a schema if and only if it did then. */
  lemma RecordedForGood(s: State, uri: Uri, isNull: bool, after: seq<Event>)
    requires Valid(s)
    ensures Leads(Run(CopyMade(s, uri).state, after).state, CopyMade(s, uri).node)
            <==> Recorded(s, uri, isNull).resolved
  {
    var r := Referred(s, uri);
    ReferKeepsValid(s, uri);
    OverrideKeepsValid(r.state, r.node);
    var t := Overridden(r.state, r.node).state;
    RunKeepsValid(t, after);
    if r.node in r.state.refs || r.node in r.state.copies {
      CopyResolvedIffOriginalWas(r.state, r.node, after);
    }
  }

  /** So the validator object built for the reference is one that accepts nothing
      exactly when the copy never leads anywhere. */
  lemma DanglingIffNeverLeads(s: State, uri: Uri, isNull: bool, id: string, after: seq<Event>)
    requires Valid(s)
    ensures Make(Ref(id, Recorded(s, uri, isNull))).Dangling? <==>
            !Leads(Run(CopyMade(s, uri).state, after).state, CopyMade(s, uri).node)
  {
    RecordedForGood(s, uri, isNull, after);
  }

  /** A reference to a place that is not yet defined is not resolved when it is
      copied; one to a place where a schema proper is defined is. */
  lemma RecordedByPlace(s: State, uri: Uri, isNull: bool)
    requires Valid(s)
    ensures var file := FileOf(s, uri.location);
            if uri.fragment !in file.schemas then !Recorded(s, uri, isNull).resolved
            else Recorded(s, uri, isNull).resolved <==>
                 var n := file.schemas[uri.fragment]; (n !in s.refs && n !in s.copies) || n in s.targets
  {
    hide Accounted;
    assert AwaitedAt(s, uri.location, uri.fragment);
  }

  const ROOT := Uri("", "")
  const CHILD := Uri("", "/properties/child")

  /** Parsing a root whose property child refers to the root with a default of its
      own: the root itself is inserted last. */
  const CHILD_EVENTS := [Refer(ROOT), OverrideDefault(0), Insert(CHILD, 1), MakeSchema, Insert(ROOT, 2)]

  function ChildDocument(): Document {
    Keywords(None, None, None, Bounds(None, None, None, None), TextKeywords(None, None, None),
             ObjectKeywords(None, None, [], map["child" := Ref("#", Recorded(EMPTY, ROOT, false))], [], None, map[],
                            None),
             ArrayKeywords(None, None, false, NoItems, None, None),
             None, NoList, NoList, NoList, None, None, None)
  }

  /** The root passes the final scan, but its child is the copy that points nowhere. */
  lemma ChildPassesScan()
    ensures var s := Run(EMPTY, CHILD_EVENTS);
            s.Done? && NothingAwaited(s.state) && Make(Ref("#", Recorded(EMPTY, ROOT, false))).Dangling?
  {
    hide Step, Valid;
    var s1 := Referred(EMPTY, ROOT).state;
    var s2 := Overridden(s1, 0).state;
    var s3 := Inserted(s2, CHILD, 1).state;
    var s4 := s3.(count := s3.count + 1);
    var s5 := Inserted(s4, ROOT, 2).state;
    ChildSteps(s1, s2, s3, s4, s5);
    assert CHILD_EVENTS[0..] == CHILD_EVENTS;
    assert CHILD_EVENTS[5..] == [];
  }

  lemma ChildSteps(s1: State, s2: State, s3: State, s4: State, s5: State)
    requires s1 == Referred(EMPTY, ROOT).state && s2 == Overridden(s1, 0).state
    requires s3 == Inserted(s2, CHILD, 1).state && s4 == s3.(count := s3.count + 1)
    requires s5 == Inserted(s4, ROOT, 2).state
    ensures Run(EMPTY, CHILD_EVENTS[0..]) == Run(s5, CHILD_EVENTS[5..])
    ensures NothingAwaited(s5)
  {
    RunFrom(EMPTY, CHILD_EVENTS, 0, s1);
    RunFrom(s1, CHILD_EVENTS, 1, s2);
    RunFrom(s2, CHILD_EVENTS, 2, s3);
    RunFrom(s3, CHILD_EVENTS, 3, s4);
    RunFrom(s4, CHILD_EVENTS, 4, s5);
  }

  function ChildEnv(): Schemas.Env<Document> {
    Schemas.Env(map["#" := ChildDocument()], map["#" := 0], 1, (text, pattern) => false)
  }

  const CHILD_INSTANCE := Object(map["child" := Object(map[])])

  lemma ChildClosed()
    ensures ClosedEnv(ChildEnv()) && Closed(ChildEnv(), ChildDocument(), 0) && Closed(ChildEnv(), ChildDocument(), 1)
    ensures ChildDocument().forObjects.properties["child"].own.Unresolved()
  {
    RecordedByPlace(EMPTY, ROOT, false);
  }

  lemma ChildHoldsOfEmpty()
    ensures ClosedEnv(ChildEnv()) && Closed(ChildEnv(), ChildDocument(), 0)
    ensures Holds(ChildEnv(), ChildDocument(), Object(map[]), 0)
  {
    hide Recorded, ClosedEnv, Closed;
    ChildClosed();
  }

  /** So the document holds of an object whose child is an empty object, and its
      validator rejects that object. */
  lemma ChildHoldsButIsRejected()
    ensures ClosedEnv(ChildEnv()) && Closed(ChildEnv(), ChildDocument(), 1)
    ensures Schemas.WellFounded(MakeEnv(ChildEnv())) && Schemas.Guarded(MakeEnv(ChildEnv()), Make(ChildDocument()), 1)
    ensures Holds(ChildEnv(), ChildDocument(), CHILD_INSTANCE, 1)
    ensures !Schemas.Accepts(MakeEnv(ChildEnv()), Make(ChildDocument()), CHILD_INSTANCE, 1)
  {
    hide Recorded, ClosedEnv, Closed, MakeEnv, Make, Schemas.Accepts, Schemas.WellFounded, Schemas.Guarded;
    var env, d, o := ChildEnv(), ChildDocument(), ChildDocument().forObjects;
    ChildClosed();
    ChildHoldsOfEmpty();
    DanglingPropertyRejects(env, d, "child", CHILD_INSTANCE, 1);
    ChildObjectHolds();
  }

  lemma ChildObjectHolds()
    ensures ClosedEnv(ChildEnv()) && Closed(ChildEnv(), ChildDocument(), 1)
    ensures Holds(ChildEnv(), ChildDocument(), CHILD_INSTANCE, 1)
  {
    hide Recorded, ClosedEnv, Closed;
    ChildClosed();
    ChildHoldsOfEmpty();
    assert PropertyHolds(ChildEnv(), ChildDocument().forObjects, CHILD_INSTANCE, "child", 1);
  }
}

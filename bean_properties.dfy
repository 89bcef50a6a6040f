/**
 * The bean differ's rules, one lemma per behaviour its tests pin down, and
 * the children an introspected bean gets, stated against each property
 * compared on its own.
 */
module BeanProperties {
  import opened Values
  import opened Results
  import opened Nodes
  import opened Config
  import opened InstancePair
  import opened Differ
  import opened ChildLists
  import opened BeanDiffer
  import TraversalProperties

  // ---- properties compared one by one -----------------------------------

  /**
   * Each property of `names` compared on its own, in order: an ignored one
   * is an IGNORED leaf of unknown type, any other is compared through the
   * delegator. The first failure, if any.
   */
  function PropertyOutcomes(d: Delegator, path: Path, inst: Instances, names: seq<string>): (r: Result<seq<Outcome>>)
    ensures r.Ok? ==> |r.value| == |names|
  {
    if names == [] then Ok([])
    else
      var segment := PropertySegment(names[0]);
      var o :- if d.configuration.isIgnored(path + [segment]) then Ok(Outcome(Node(segment, None, Ignored, []), []))
               else Compare(d, path, AccessProperty(inst, names[0]));
      var rest :- PropertyOutcomes(d, path, inst, names[1..]);
      Ok([o] + rest)
  }

  /** One step of the property loop and of its reference, side by side. */
  lemma ComparePropertiesStep(d: Delegator, path: Path, inst: Instances, acc: Outcome, names: seq<string>)
    requires IsPresent(inst.working) || IsPresent(inst.base)
    requires names != []
    ensures var segment := PropertySegment(names[0]);
            var ignored := d.configuration.isIgnored(path + [segment]);
            var child := if ignored then Ok(Outcome(Node(segment, None, Ignored, []), []))
                         else Compare(d, path, AccessProperty(inst, names[0]));
            var e := PropertyOutcomes(d, path, inst, names[1..]);
            && (child.Err? ==> CompareProperties(d, path, inst, acc, names) == Err(child.error))
            && (child.Err? ==> PropertyOutcomes(d, path, inst, names) == Err(child.error))
            && (child.Ok? ==>
                  && CompareProperties(d, path, inst, acc, names)
                     == CompareProperties(d, path, inst,
                                          Outcome(AttachIfReturnable(d.configuration, acc.node, child.value.node),
                                                  if ignored then acc.accesses
                                                  else acc.accesses + [GetterRead(path + [segment])] + child.value.accesses),
                                          names[1..])
                  && (e.Err? ==> PropertyOutcomes(d, path, inst, names) == Err(e.error))
                  && (e.Ok? ==> PropertyOutcomes(d, path, inst, names) == Ok([child.value] + e.value)))
  {
  }

  /** The property loop fails exactly when comparing some property fails, with the first such error. */
  lemma {:induction false} ComparePropertiesFailure(d: Delegator, path: Path, inst: Instances,
                                                    acc: Outcome, names: seq<string>)
    requires IsPresent(inst.working) || IsPresent(inst.base)
    ensures var r := CompareProperties(d, path, inst, acc, names);
            var e := PropertyOutcomes(d, path, inst, names);
            && (r.Ok? <==> e.Ok?)
            && (r.Err? ==> r.error == e.error)
    decreases |names|
  {
    if names != [] {
      var segment := PropertySegment(names[0]);
      var ignored := d.configuration.isIgnored(path + [segment]);
      var child := if ignored then Ok(Outcome(Node(segment, None, Ignored, []), []))
                   else Compare(d, path, AccessProperty(inst, names[0]));
      ComparePropertiesStep(d, path, inst, acc, names);
      if child.Ok? {
        var accesses := if ignored then acc.accesses
                        else acc.accesses + [GetterRead(path + [segment])] + child.value.accesses;
        ComparePropertiesFailure(d, path, inst,
                                 Outcome(AttachIfReturnable(d.configuration, acc.node, child.value.node), accesses),
                                 names[1..]);
      }
    }
  }

  /**
   * On success the node gains the returnable property nodes, in property
   * order (an ignored property included, as its IGNORED leaf), and its state
   * is aggregated from them.
   */
  lemma {:induction false} ComparePropertiesNode(d: Delegator, path: Path, inst: Instances,
                                                 acc: Outcome, names: seq<string>)
    requires IsPresent(inst.working) || IsPresent(inst.base)
    ensures var r := CompareProperties(d, path, inst, acc, names);
            var e := PropertyOutcomes(d, path, inst, names);
            r.Ok? && e.Ok? ==> r.value.node == WithChildren(d.configuration, acc.node, NodesOf(e.value))
    decreases |names|
  {
    if names == [] {
      assert acc.node.children + [] == acc.node.children;
    } else {
      var segment := PropertySegment(names[0]);
      var ignored := d.configuration.isIgnored(path + [segment]);
      var child := if ignored then Ok(Outcome(Node(segment, None, Ignored, []), []))
                   else Compare(d, path, AccessProperty(inst, names[0]));
      ComparePropertiesStep(d, path, inst, acc, names);
      if child.Ok? {
        var c := child.value;
        var accesses := if ignored then acc.accesses
                        else acc.accesses + [GetterRead(path + [segment])] + c.accesses;
        ComparePropertiesNode(d, path, inst,
                              Outcome(AttachIfReturnable(d.configuration, acc.node, c.node), accesses), names[1..]);
        var e := PropertyOutcomes(d, path, inst, names[1..]);
        if e.Ok? {
          assert ([c] + e.value)[1..] == e.value;
          assert NodesOf([c] + e.value) == [c.node] + NodesOf(e.value);
          OfferOne(d.configuration, acc.node, c.node, NodesOf(e.value));
        }
      }
    }
  }

  // ---- the cascade of compare, as the tests exercise it -----------------

  /** The instances at the root position. */
  function Root(working: Value, base: Value): Instances
  {
    Instances(RootSegment, working, base)
  }

  /** Two different strings compared with equals: a CHANGED leaf, with changes and no children. */
  lemma EqualsOnlyUnequalIsChangedLeaf(bd: BeanDiffer, working: Value, base: Value)
    requires IsPresent(working) && IsPresent(base) && TypeOf(working) == TypeOf(base)
    requires !bd.delegate.configuration.isIgnored([RootSegment])
    requires !bd.delegate.host.same(working, base) && !bd.delegate.host.equal(working, base)
    requires bd.delegate.configuration.isEqualsOnly([RootSegment], TypeOf(working))
    ensures var r := bd.CompareValues(working, base);
            && r == Ok(Outcome(Node(RootSegment, TypeOf(working), Changed, []), []))
            && HasChanges(r.value.node) && !HasChildren(r.value.node)
  {
    assert [] + [RootSegment] == [RootSegment];
  }

  /** Two nulls at the root: UNTOUCHED, and nothing is read. */
  lemma NullsAreUntouched(bd: BeanDiffer)
    requires !bd.delegate.configuration.isIgnored([RootSegment])
    ensures bd.Compare([], Root(Null, Null)) == Ok(Outcome(Node(RootSegment, None, Untouched, []), []))
  {
    assert [] + [RootSegment] == [RootSegment];
  }

  /** An ignored root is IGNORED whatever its two values of one runtime type are, and nothing is read. */
  lemma IgnoredRootIsIgnored(bd: BeanDiffer, working: Value, base: Value)
    requires IsPresent(working) && (IsPresent(base) ==> TypeOf(working) == TypeOf(base))
    requires bd.delegate.configuration.isIgnored([RootSegment])
    ensures bd.CompareValues(working, base) == Ok(Outcome(Node(RootSegment, TypeOf(working), Ignored, []), []))
  {
    assert [] + [RootSegment] == [RootSegment];
  }

  /** A value against null is ADDED; without expansion it is a leaf and nothing is read. */
  lemma AddedRoot(bd: BeanDiffer, working: Value)
    requires IsPresent(working) && !bd.delegate.configuration.isIgnored([RootSegment])
    ensures var r := bd.Compare([], Root(working, Null));
            && r.Ok? && r.value.node.state == Added
            && (!bd.delegate.configuration.childrenOfAddedNodes
                ==> r.value == Outcome(Node(RootSegment, TypeOf(working), Added, []), []))
  {
    assert [] + [RootSegment] == [RootSegment];
    var path := [RootSegment];
    if bd.delegate.configuration.childrenOfAddedNodes {
      var initial := Outcome(Node(RootSegment, TypeOf(working), Added, []), []);
      var names := Properties(bd.delegate.host, TypeOf(working));
      ExpandedNodeKeepsState(bd.delegate, path, Root(working, Null), initial, names);
      TraversalProperties.OneSidedPropertiesSucceed(bd.delegate, path, Root(working, Null), initial, names);
    }
  }

  /** Null against a value is REMOVED; without expansion it is a leaf and nothing is read. */
  lemma RemovedRoot(bd: BeanDiffer, base: Value)
    requires IsPresent(base) && !bd.delegate.configuration.isIgnored([RootSegment])
    ensures var r := bd.Compare([], Root(Null, base));
            && r.Ok? && r.value.node.state == Removed
            && (!bd.delegate.configuration.childrenOfRemovedNodes
                ==> r.value == Outcome(Node(RootSegment, TypeOf(base), Removed, []), []))
  {
    assert [] + [RootSegment] == [RootSegment];
    var path := [RootSegment];
    if bd.delegate.configuration.childrenOfRemovedNodes {
      var initial := Outcome(Node(RootSegment, TypeOf(base), Removed, []), []);
      var names := Properties(bd.delegate.host, TypeOf(base));
      ExpandedNodeKeepsState(bd.delegate, path, Root(Null, base), initial, names);
      TraversalProperties.OneSidedPropertiesSucceed(bd.delegate, path, Root(Null, base), initial, names);
    }
  }

  /** Comparing the properties of an ADDED or REMOVED node never changes its state. */
  lemma {:induction false} ExpandedNodeKeepsState(d: Delegator, path: Path, inst: Instances,
                                                  acc: Outcome, names: seq<string>)
    requires IsPresent(inst.working) || IsPresent(inst.base)
    requires acc.node.state == Added || acc.node.state == Removed
    ensures var r := CompareProperties(d, path, inst, acc, names);
            r.Ok? ==> r.value.node.state == acc.node.state
    decreases |names|
  {
    if names != [] {
      var segment := PropertySegment(names[0]);
      var ignored := d.configuration.isIgnored(path + [segment]);
      var child := if ignored then Ok(Outcome(Node(segment, None, Ignored, []), []))
                   else Compare(d, path, AccessProperty(inst, names[0]));
      ComparePropertiesStep(d, path, inst, acc, names);
      if child.Ok? {
        var accesses := if ignored then acc.accesses
                        else acc.accesses + [GetterRead(path + [segment])] + child.value.accesses;
        ExpandedNodeKeepsState(d, path, inst,
                               Outcome(AttachIfReturnable(d.configuration, acc.node, child.value.node), accesses),
                               names[1..]);
      }
    }
  }

  /** The same instance on both sides: UNTOUCHED, and nothing is read. */
  lemma SameIsUntouched(bd: BeanDiffer, working: Value, base: Value)
    requires IsPresent(working) && IsPresent(base) && TypeOf(working) == TypeOf(base)
    requires !bd.delegate.configuration.isIgnored([RootSegment]) && bd.delegate.host.same(working, base)
    ensures bd.Compare([], Root(working, base)) == Ok(Outcome(Node(RootSegment, TypeOf(working), Untouched, []), []))
  {
    assert [] + [RootSegment] == [RootSegment];
  }

  /** An equals-only root is a leaf and reads nothing: UNTOUCHED exactly when equal, CHANGED exactly when not. */
  lemma EqualsOnlyRoot(bd: BeanDiffer, working: Value, base: Value)
    requires IsPresent(working) && IsPresent(base) && TypeOf(working) == TypeOf(base)
    requires !bd.delegate.configuration.isIgnored([RootSegment]) && !bd.delegate.host.same(working, base)
    requires bd.delegate.configuration.isEqualsOnly([RootSegment], TypeOf(working))
    ensures var r := bd.Compare([], Root(working, base));
            && r.Ok? && r.value.accesses == [] && r.value.node.children == []
            && (r.value.node.state == Untouched <==> bd.delegate.host.equal(working, base))
            && (r.value.node.state == Changed <==> !bd.delegate.host.equal(working, base))
  {
    assert [] + [RootSegment] == [RootSegment];
  }

  /**
   * An introspectible bean: the comparison fails exactly when comparing some
   * property fails; otherwise the returnable property nodes are its children
   * in property order, and it is CHANGED exactly when one of them has
   * changes, UNTOUCHED otherwise.
   */
  lemma IntrospectedBean(d: Delegator, parent: Path, inst: Instances)
    requires IsPresent(inst.working) && IsPresent(inst.base) && TypeOf(inst.working) == TypeOf(inst.base)
    requires !d.configuration.isIgnored(parent + [inst.segment]) && !AreSame(d.host, inst)
    requires !d.configuration.isEqualsOnly(parent + [inst.segment], TypeOf(inst.working))
    requires d.configuration.isIntrospectible(parent + [inst.segment], TypeOf(inst.working))
    ensures var r := CompareBean(d, parent, inst);
            var e := PropertyOutcomes(d, parent + [inst.segment], inst, Properties(d.host, TypeOf(inst.working)));
            && (r.Ok? <==> e.Ok?)
            && (r.Err? ==> r.error == e.error)
            && (r.Ok? ==> r.value.node.segment == inst.segment && r.value.node.valueType == TypeOf(inst.working))
            && (r.Ok? ==> r.value.node.children == Returnable(d.configuration, NodesOf(e.value)))
            && (r.Ok? ==> (r.value.node.state == Changed <==> AnyChanges(Returnable(d.configuration, NodesOf(e.value)))))
            && (r.Ok? ==> (r.value.node.state == Untouched <==> !AnyChanges(Returnable(d.configuration, NodesOf(e.value)))))
  {
    var path := parent + [inst.segment];
    var names := Properties(d.host, TypeOf(inst.working));
    var start := Outcome(Node(inst.segment, TypeOf(inst.working), Untouched, []), []);
    ComparePropertiesFailure(d, path, inst, start, names);
    ComparePropertiesNode(d, path, inst, start, names);
  }

  /**
   * With expansion of added nodes switched on, an added bean stays ADDED and
   * gets its returnable property nodes as children, each compared against
   * null.
   */
  lemma ExpandedAddedBean(d: Delegator, parent: Path, inst: Instances)
    requires HasBeenAdded(inst) && !d.configuration.isIgnored(parent + [inst.segment])
    requires d.configuration.childrenOfAddedNodes
    ensures var r := CompareBean(d, parent, inst);
            var e := PropertyOutcomes(d, parent + [inst.segment], inst, Properties(d.host, TypeOf(inst.working)));
            && (r.Ok? <==> e.Ok?)
            && (r.Ok? ==> r.value.node == Node(inst.segment, TypeOf(inst.working), Added,
                                               Returnable(d.configuration, NodesOf(e.value))))
  {
    var path := parent + [inst.segment];
    var names := Properties(d.host, TypeOf(inst.working));
    var start := Outcome(Node(inst.segment, TypeOf(inst.working), Added, []), []);
    ComparePropertiesFailure(d, path, inst, start, names);
    ComparePropertiesNode(d, path, inst, start, names);
    ExpandedNodeKeepsState(d, path, inst, start, names);
  }

  /** compare(working, base) never invokes the getter of an ignored property, nor reads beneath one. */
  lemma IgnoredPropertiesAreNeverAccessed(bd: BeanDiffer, working: Value, base: Value)
    ensures var r := bd.CompareValues(working, base);
            r.Ok? ==> forall a <- r.value.accesses, j | 0 < j <= |a.path| && bd.delegate.configuration.isIgnored(a.path[..j])
                        :: a.EntryRead? && j == |a.path|
    ensures var r := bd.CompareValues(working, base);
            r.Ok? ==> forall a <- r.value.accesses | a.GetterRead? :: !bd.delegate.configuration.isIgnored(a.path)
  {
    var r := bd.CompareValues(working, base);
    TraversalProperties.CompareBeanSafe(bd.delegate, [], Root(working, base));
    assert [] + [RootSegment] == [RootSegment];
    if r.Ok? {
      forall a <- r.value.accesses | a.GetterRead? ensures !bd.delegate.configuration.isIgnored(a.path) {
        assert TraversalProperties.Under([RootSegment], a);
        assert a.path[..|a.path|] == a.path;
      }
    }
  }
}

/**
 * The expansion scenario: an object whose nested object is new, compared
 * with expansion of added nodes switched on.
 */
module BeanScenario {
  import opened Values
  import opened Results
  import opened Nodes
  import opened Config
  import opened InstancePair
  import opened Differ
  import opened ChildLists
  import opened BeanDiffer
  import opened BeanProperties

  const Nested := "ObjectWithNestedObject"
  const NestedType := Some(Type(BeanShape, Nested))
  const StringType := Some(Type(ScalarShape, "String"))

  function Str(s: string): Value
  {
    Scalar("String", s)
  }

  /** An ObjectWithNestedObject: an id and a nested object of the same class. */
  function Obj(id: string, nested: Value): Value
  {
    Bean(Nested, map["id" := Str(id), "object" := nested])
  }

  /** Identity and equals are structural; the nested class has the properties id and object. */
  function NestedHost(): Host
  {
    Host((a: Value, b: Value) => a == b, (a: Value, b: Value) => a == b,
         (t: Tag) => if t == Nested then ["id", "object"] else [])
  }

  function Expanding(): Delegator
  {
    Delegator(Default().WithChildrenOfAddedNodes(), NestedHost())
  }

  /** Comparing the two properties of a bean one by one. */
  lemma TwoProperties(d: Delegator, path: Path, inst: Instances, a: string, b: string, oa: Outcome, ob: Outcome)
    requires !d.configuration.isIgnored(path + [PropertySegment(a)])
    requires !d.configuration.isIgnored(path + [PropertySegment(b)])
    requires Compare(d, path, AccessProperty(inst, a)) == Ok(oa)
    requires Compare(d, path, AccessProperty(inst, b)) == Ok(ob)
    ensures PropertyOutcomes(d, path, inst, [a, b]) == Ok([oa, ob])
    ensures NodesOf([oa, ob]) == [oa.node, ob.node]
  {
    assert [a, b][1..] == [b];
    assert [b][1..] == [];
    assert [ob] + [] == [ob];
    assert PropertyOutcomes(d, path, inst, []) == Ok([]);
    assert PropertyOutcomes(d, path, inst, [b]) == Ok([ob]);
    assert [oa] + [ob] == [oa, ob];
  }

  lemma ReturnableTwo(cfg: Configuration, x: Node, y: Node)
    ensures Returnable(cfg, [x, y])
         == (if cfg.isReturnable(x) then [x] else []) + (if cfg.isReturnable(y) then [y] else [])
  {
    assert [x, y][1..] == [y];
    assert [y][1..] == [];
    assert [y] + [] == [y];
    assert Returnable(cfg, [y]) == (if cfg.isReturnable(y) then [y] else []);
  }

  /** A string against null, with expansion on: an ADDED leaf (strings have no properties). */
  lemma AddedString(path: Path, name: string, s: string)
    ensures var r := Compare(Expanding(), path, Instances(PropertySegment(name), Str(s), Null));
            r.Ok? && r.value.node == Node(PropertySegment(name), StringType, Added, [])
  {
    var d := Expanding();
    var inst := Instances(PropertySegment(name), Str(s), Null);
    ExpandedAddedBean(d, path, inst);
    assert Properties(d.host, TypeOf(inst.working)) == [];
    TraversalProperties.OneSidedSucceeds(d, path, inst);
  }

  /** Null against null: an UNTOUCHED leaf of no type. */
  lemma NullProperty(path: Path, name: string)
    ensures var r := Compare(Expanding(), path, Instances(PropertySegment(name), Null, Null));
            r.Ok? && r.value.node == Node(PropertySegment(name), None, Untouched, [])
  {
  }

  /**
   * Obj(id, nested) against null, with expansion on: ADDED, with its id
   * ADDED and, unless it is UNTOUCHED, the node of `nested` against null.
   */
  lemma AddedObj(path: Path, id: string, nested: Value, nestedNode: Node)
    requires var r := Compare(Expanding(), path + [PropertySegment("object")], Instances(PropertySegment("object"), nested, Null));
             r.Ok? && r.value.node == nestedNode
    ensures var r := Compare(Expanding(), path, Instances(PropertySegment("object"), Obj(id, nested), Null));
            r.Ok? && r.value.node == Node(PropertySegment("object"), NestedType, Added,
                                          [Node(PropertySegment("id"), StringType, Added, [])]
                                          + (if nestedNode.state != Untouched then [nestedNode] else []))
  {
    var d := Expanding();
    var inst := Instances(PropertySegment("object"), Obj(id, nested), Null);
    var here := path + [inst.segment];
    AddedString(here, "id", id);
    var oa := Compare(d, here, AccessProperty(inst, "id")).value;
    var ob := Compare(d, here, AccessProperty(inst, "object")).value;
    assert Properties(d.host, TypeOf(inst.working)) == ["id", "object"];
    TwoProperties(d, here, inst, "id", "object", oa, ob);
    ExpandedAddedBean(d, path, inst);
    TraversalProperties.OneSidedSucceeds(d, path, inst);
    ReturnableTwo(d.configuration, oa.node, ob.node);
  }

  /** Obj("foo", null) against null: ADDED, with its id ADDED; the null object is UNTOUCHED and not returned. */
  lemma InnermostAdded(path: Path)
    ensures var r := Compare(Expanding(), path, Instances(PropertySegment("object"), Obj("foo", Null), Null));
            r.Ok? && r.value.node == Node(PropertySegment("object"), NestedType, Added,
                                          [Node(PropertySegment("id"), StringType, Added, [])])
  {
    NullProperty(path + [PropertySegment("object")], "object");
    AddedObj(path, "foo", Null, Node(PropertySegment("object"), None, Untouched, []));
    assert [Node(PropertySegment("id"), StringType, Added, [])] + [] == [Node(PropertySegment("id"), StringType, Added, [])];
  }

  /** Obj("2", Obj("foo", null)) against null: ADDED, its id ADDED, its nested object ADDED as well. */
  lemma MiddleAdded(path: Path)
    ensures var r := Compare(Expanding(), path, Instances(PropertySegment("object"), Obj("2", Obj("foo", Null)), Null));
            r.Ok? && r.value.node
                     == Node(PropertySegment("object"), NestedType, Added,
                             [Node(PropertySegment("id"), StringType, Added, []),
                              Node(PropertySegment("object"), NestedType, Added,
                                   [Node(PropertySegment("id"), StringType, Added, [])])])
  {
    var inner := Node(PropertySegment("object"), NestedType, Added, [Node(PropertySegment("id"), StringType, Added, [])]);
    InnermostAdded(path + [PropertySegment("object")]);
    AddedObj(path, "2", Obj("foo", Null), inner);
    assert [Node(PropertySegment("id"), StringType, Added, [])] + [inner]
        == [Node(PropertySegment("id"), StringType, Added, []), inner];
  }

  /**
   * Obj("1", Obj("2", Obj("foo", null))) against Obj("1", null): the root
   * is CHANGED, its object ADDED, and that object's object ADDED too,
   * although it lies beneath an ADDED node.
   */
  lemma AddedGraphIsReturned()
    ensures var r := BeanDiffer(Expanding()).CompareValues(Obj("1", Obj("2", Obj("foo", Null))), Obj("1", Null));
            r.Ok? && r.value.node
                     == Node(RootSegment, NestedType, Changed,
                             [Node(PropertySegment("object"), NestedType, Added,
                                   [Node(PropertySegment("id"), StringType, Added, []),
                                    Node(PropertySegment("object"), NestedType, Added,
                                         [Node(PropertySegment("id"), StringType, Added, [])])])])
  {
    MiddleAdded([RootSegment]);
    RootGainsObject(Obj("2", Obj("foo", Null)),
                    Node(PropertySegment("object"), NestedType, Added,
                         [Node(PropertySegment("id"), StringType, Added, []),
                          Node(PropertySegment("object"), NestedType, Added,
                               [Node(PropertySegment("id"), StringType, Added, [])])]));
  }

  /** The root instances of the scenario, around an arbitrary nested object. */
  function RootPair(nested: Value): Instances
  {
    Root(Obj("1", nested), Obj("1", Null))
  }

  /** The same id on both sides is UNTOUCHED. */
  lemma RootIdUntouched(nested: Value)
    ensures Compare(Expanding(), [RootSegment], AccessProperty(RootPair(nested), "id"))
         == Ok(Outcome(Node(PropertySegment("id"), StringType, Untouched, []), []))
  {
    assert AccessProperty(RootPair(nested), "id") == Instances(PropertySegment("id"), Str("1"), Str("1"));
  }

  /** The root's two properties, compared one by one. */
  lemma RootProperties(nested: Value, nestedNode: Node) returns (os: seq<Outcome>)
    requires var r := Compare(Expanding(), [RootSegment], Instances(PropertySegment("object"), nested, Null));
             r.Ok? && r.value.node == nestedNode
    ensures PropertyOutcomes(Expanding(), [RootSegment], RootPair(nested), ["id", "object"]) == Ok(os)
    ensures NodesOf(os) == [Node(PropertySegment("id"), StringType, Untouched, []), nestedNode]
  {
    var d := Expanding();
    var inst := RootPair(nested);
    RootIdUntouched(nested);
    var oa := Compare(d, [RootSegment], AccessProperty(inst, "id")).value;
    assert AccessProperty(inst, "object") == Instances(PropertySegment("object"), nested, Null);
    var ob := Compare(d, [RootSegment], AccessProperty(inst, "object")).value;
    TwoProperties(d, [RootSegment], inst, "id", "object", oa, ob);
    os := [oa, ob];
  }

  /** The two root objects differ, are beans, and are introspected. */
  lemma RootIsIntrospected(nested: Value)
    requires IsPresent(nested)
    ensures var d := Expanding();
            var inst := RootPair(nested);
            && TypeOf(inst.working) == TypeOf(inst.base) == NestedType
            && !AreSame(d.host, inst)
            && !d.configuration.isIgnored([RootSegment])
            && !d.configuration.isEqualsOnly([RootSegment], NestedType)
            && d.configuration.isIntrospectible([RootSegment], NestedType)
            && Properties(d.host, NestedType) == ["id", "object"]
  {
    var inst := RootPair(nested);
    assert inst.working.fields["object"] != inst.base.fields["object"];
  }

  /**
   * Obj("1", nested) against Obj("1", null): the ids are the same, so the
   * root's one child is the node of `nested` against null, and the root is
   * CHANGED when that node has changes.
   */
  lemma RootGainsObject(nested: Value, nestedNode: Node)
    requires IsPresent(nested) && HasChanges(nestedNode)
    requires var r := Compare(Expanding(), [RootSegment], Instances(PropertySegment("object"), nested, Null));
             r.Ok? && r.value.node == nestedNode
    ensures var r := BeanDiffer(Expanding()).CompareValues(Obj("1", nested), Obj("1", Null));
            r.Ok? && r.value.node == Node(RootSegment, NestedType, Changed, [nestedNode])
  {
    var d := Expanding();
    var inst := RootPair(nested);
    assert [] + [RootSegment] == [RootSegment];
    RootIsIntrospected(nested);
    var os := RootProperties(nested, nestedNode);
    IntrospectedBean(d, [], inst);
    var idNode := Node(PropertySegment("id"), StringType, Untouched, []);
    ReturnableTwo(d.configuration, idNode, nestedNode);
    assert nestedNode in [nestedNode];
  }
}

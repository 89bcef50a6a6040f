# java-object-diff: the map differ and the bean differ's state rules

java-object-diff compares two versions of an object graph, "working" and
"base". The result is a change tree: one node per compared position. Each
node has a state, which is UNTOUCHED, IGNORED, CHANGED, ADDED or REMOVED,
and it has the child nodes the configuration chose to return.

This project models the recursive comparison engine in Dafny.

- **Values** (`values.dfy`): null, scalars, maps with string keys, and
  beans with named fields. Each value has a runtime type: its shape and a
  class tag.
- **Host runtime** (`instances.dfy`): reference identity, `equals` and
  the introspector are function parameters (`Host`). `Instances` holds the
  two values at one position. `TypeOfInstances` is `getType`, which fails
  on two present values of different runtime types.
- **Configuration** (`configuration.dfy`): the ignore, equals-only,
  introspectible and returnable rules, and the two flags that expand the
  children of ADDED and REMOVED nodes.
- **Change tree** (`nodes.dfy`): `Node`, `Attach` (addChild) and the
  read log `Access`. The log records every key-set read, map-entry read
  and getter call, with the position where it happened. The class
  `MapNode` is the node the map differ updates in place.
- **Functional rules** (`differ.dfy`):
  - `Compare` dispatches by runtime type, as the delegator does.
  - `CompareMap` is MapDiffer's cascade; `HandleEntries` is its loop over
    the keys.
  - `CompareBean` and `CompareProperties` are the bean differ's cascade
    and its loop over an introspected type's properties.
  - A type mismatch anywhere aborts a comparison with an error.
- **MapDiffer** (`map_differ.dfy`): the Java class's form.
  - `Compare` allocates a `MapNode` and sets its state.
  - `HandleEntries` loops over the keys and calls `AddChild` on each
    returnable child.
  - `FindKnownKeys` copies the working key set and then removes keys from
    the copy.
  - Each method is proved equal to its counterpart in module Differ.
- **BeanDiffer** (`bean_differ.dfy`): the bean differ's checked
  constructor and its two entry points.
- **Proved properties**:
  - `child_lists.dfy`: which children are returned and how the parent's
    state follows from them.
  - `map_properties.dfy`: every branch of the map cascade, the key
    partition, and a three-key scenario.
  - `traversal_properties.dfy`: nothing beneath an ignored position is
    read, no getter of an ignored property is called, and an ignored map
    entry is touched only by the map's own lookup of its value (the map
    differ reads an entry before the entry's differ checks whether it is
    ignored); and a comparison against null never fails.
  - `bean_properties.dfy`: the bean differ's behaviour as its tests pin
    it down, including the expansion of an added object graph.

The two maps are immutable values. So `findKnownKeys`' removals from its
copy cannot reach the input maps, and the model needs no separate
statement that the inputs stay unchanged.

## Model

| member | source | states |
|---|---|---|
| MapDiffer.MapDiffer.Compare | src/main/java/de/danielbechler/diff/MapDiffer.java:50-94 | building the node in place (setState, addChild) gives exactly the outcome of the functional cascade `CompareMap`, including its errors, and the node's segment is the position's own |
| MapDiffer.MapDiffer.CompareMaps | src/main/java/de/danielbechler/diff/MapDiffer.java:44-47 | comparing two maps (or nulls) directly is the cascade at the root position, and the result's node is the root |
| MapDiffer.MapDiffer.HandleEntries | src/main/java/de/danielbechler/diff/MapDiffer.java:118-133 | the key loop fails exactly when the functional fold fails, with the same error; otherwise the node it leaves and the reads it logs are the fold's |
| MapDiffer.MapDiffer.CompareEntry | src/main/java/de/danielbechler/diff/MapDiffer.java:135-138 | the entry of key k in both maps is compared through the delegator; its node sits at k's segment, it never fails beneath a map only one side has, and everything it reads lies at or beneath the entry and beneath no ignored position other than the entry itself |
| MapDiffer.MapDiffer.FindKnownKeys | src/main/java/de/danielbechler/diff/MapDiffer.java:154-161 | the copied working keys, minus the added and the removed keys, are exactly the keys both maps have |
| MapDiffer.Create | src/main/java/de/danielbechler/diff/MapDiffer.java:36-42 | construction succeeds exactly when the delegator and the configuration are both given; otherwise the null delegator is reported first, then the null configuration |
| InstancePair.TypeOfInstances | src/main/java/de/danielbechler/diff/MapDiffer.java:96-99 | fails exactly when both values are present with different runtime types; otherwise the type is that of a present side, or none for two nulls |
| KeyOrder.Enumerate | src/main/java/de/danielbechler/diff/MapDiffer.java:120-123 | the iteration of a key set visits every key of the set, and no other, exactly once |
| Config.Configuration.WithChildrenOfAddedNodes | src/test/java/de/danielbechler/diff/BeanDifferTest.java:204 | switches on expansion of added nodes and leaves every other rule as it was |
| Nodes.MapNode.constructor | src/main/java/de/danielbechler/diff/MapDiffer.java:96-99 | a new node has the position's segment and type, is UNTOUCHED and has no children |
| Nodes.MapNode.SetState | src/main/java/de/danielbechler/diff/MapDiffer.java:54-86 | replaces the state and nothing else |
| Nodes.MapNode.AddChild | src/main/java/de/danielbechler/diff/MapDiffer.java:131 | appends the child, and an UNTOUCHED node with a changed child becomes CHANGED |
| ChildLists.Returnable | src/main/java/de/danielbechler/diff/MapDiffer.java:129-132 | every returned child is a returnable compared node, every returnable compared node is returned, and the returned children are a subsequence of the compared nodes (counts: see ReturnableCounts) |
| ChildLists.ReturnableCounts | src/main/java/de/danielbechler/diff/MapDiffer.java:129-132 | each returnable compared node is returned exactly as often as it was compared, and no other node is returned |
| ChildLists.AttachAggregates | src/main/java/de/danielbechler/diff/MapDiffer.java:131 | attaching one child and then the rest gives the state that aggregating all of them gives |
| ChildLists.OfferOne | src/main/java/de/danielbechler/diff/MapDiffer.java:126-133 | offering one child to a node and then the rest is the same as offering them all at once |
| ChildLists.ReturnableKeepsChanges | src/main/java/de/danielbechler/diff/MapDiffer.java:129-132 | when every changed node is returned, the returned children have changes exactly when the compared ones do |
| MapProperties.HandleEntriesCharacterized | src/main/java/de/danielbechler/diff/MapDiffer.java:118-138 | the loop fails exactly when comparing some key fails, with the first error; otherwise the node gains the returnable entry nodes in key order, takes its state from them, and the log gains each entry read followed by that entry's own reads |
| MapProperties.HandleEntriesFailure | src/main/java/de/danielbechler/diff/MapDiffer.java:118-138 | the failure part of HandleEntriesCharacterized |
| MapProperties.HandleEntriesNode | src/main/java/de/danielbechler/diff/MapDiffer.java:118-133 | the node part of HandleEntriesCharacterized |
| MapProperties.HandleEntriesLog | src/main/java/de/danielbechler/diff/MapDiffer.java:135-138 | the log part of HandleEntriesCharacterized |
| MapProperties.HandleEntriesAppend | src/main/java/de/danielbechler/diff/MapDiffer.java:89-91 | handling one key group and then another is handling their concatenation |
| MapProperties.KeyGroupsPartition | src/main/java/de/danielbechler/diff/MapDiffer.java:140-161 | added = working minus base and removed = base minus working, both as iff statements; known = the intersection; the three groups are pairwise disjoint and together cover every key of either map |
| MapProperties.EntryOrderCoversOnce | src/main/java/de/danielbechler/diff/MapDiffer.java:87-92 | the added, removed and known keys, in that order, name every key of either map exactly once |
| MapProperties.MapTypeMismatch | src/main/java/de/danielbechler/diff/MapDiffer.java:52 | two maps of different runtime types are an invalid argument before anything else happens |
| MapProperties.IgnoredMapIsLeaf | src/main/java/de/danielbechler/diff/MapDiffer.java:54-58 | an ignored position is an IGNORED leaf, and nothing of the maps is read |
| MapProperties.AddedMap | src/main/java/de/danielbechler/diff/MapDiffer.java:62-66 | a map only the working side has is ADDED; every working key is compared, the returnable ones become its children, and it fails exactly when comparing some entry fails |
| MapProperties.RemovedMap | src/main/java/de/danielbechler/diff/MapDiffer.java:67-71 | the mirror image for a map only the base side has: REMOVED, with every base key compared |
| MapProperties.SameMapIsUntouched | src/main/java/de/danielbechler/diff/MapDiffer.java:72-75 | the same instance on both sides is an UNTOUCHED leaf; no entry is compared |
| MapProperties.EqualsOnlyMap | src/main/java/de/danielbechler/diff/MapDiffer.java:76-86 | an equals-only position is a leaf: UNTOUCHED iff the maps are equal, CHANGED iff not; no entry is compared |
| MapProperties.EntryBranchIsOneFold | src/main/java/de/danielbechler/diff/MapDiffer.java:87-92 | the three key-group loops together are one loop over added, then removed, then known keys |
| MapProperties.EntryBranch | src/main/java/de/danielbechler/diff/MapDiffer.java:87-92 | two different maps compared entry by entry: fails exactly when some entry fails; otherwise the children are the returnable entry nodes in group order, the node is CHANGED iff one of them has changes and UNTOUCHED iff none has (MapDiffer sets no state of its own), and every key is read once |
| MapProperties.EntryBranchChangedIffSomeEntryChanged | src/main/java/de/danielbechler/diff/MapDiffer.java:87-92 | when every changed node is returned, the node is CHANGED iff some compared entry has changes, returned or not |
| MapScenario.MapScenarioReturningUnchanged | src/main/java/de/danielbechler/diff/MapDiffer.java:87-92 | working {a:1, b:2} against base {b:2, c:3}, with unchanged nodes returned: the root is CHANGED with children a ADDED, c REMOVED and b UNTOUCHED in that order, and the log reads the key sets and then the entries a, c and b |
| TraversalProperties.CompareMapSafe | src/main/java/de/danielbechler/diff/MapDiffer.java:54-58 | a map comparison reads nothing beneath an ignored position except that position's own entry |
| TraversalProperties.CompareSafe | src/main/java/de/danielbechler/diff/MapDiffer.java:135-138 | the same for any comparison through the delegator |
| TraversalProperties.HandleEntriesSafe | src/main/java/de/danielbechler/diff/MapDiffer.java:118-133 | the same for the key loop |
| TraversalProperties.CompareBeanSafe | src/test/java/de/danielbechler/diff/BeanDifferTest.java:188-196 | the same for a bean comparison |
| TraversalProperties.ComparePropertiesSafe | src/test/java/de/danielbechler/diff/BeanDifferTest.java:188-196 | the same for the property loop |
| TraversalProperties.IgnoredPositionsAreNotRead | src/main/java/de/danielbechler/diff/MapDiffer.java:54-58 | in a whole comparison, any read at or beneath an ignored position is the entry read of exactly that position |
| TraversalProperties.IgnoredPropertyGetterNeverCalled | src/test/java/de/danielbechler/diff/BeanDifferTest.java:188-196 | no getter of an ignored property is ever invoked |
| TraversalProperties.CompareKeepsSegment | src/main/java/de/danielbechler/diff/MapDiffer.java:96-99 | the node of a comparison sits at the segment of the position compared, whatever the children attached to it |
| TraversalProperties.HandleEntriesKeepsSegment | src/main/java/de/danielbechler/diff/MapDiffer.java:118-124 | the key loop keeps its node's segment |
| TraversalProperties.ComparePropertiesKeepsSegment | src/test/java/de/danielbechler/diff/BeanDifferTest.java:154-165 | the property loop keeps its node's segment |
| TraversalProperties.OneSidedSucceeds | src/main/java/de/danielbechler/diff/MapDiffer.java:62-71 | a comparison in which one side is null never fails, however deeply it expands |
| TraversalProperties.OneSidedMapSucceeds | src/main/java/de/danielbechler/diff/MapDiffer.java:62-71 | the same for the map differ |
| TraversalProperties.OneSidedEntriesSucceed | src/main/java/de/danielbechler/diff/MapDiffer.java:118-124 | the same for the key loop |
| TraversalProperties.OneSidedBeanSucceeds | src/test/java/de/danielbechler/diff/BeanDifferTest.java:96-108 | the same for the bean differ |
| TraversalProperties.OneSidedPropertiesSucceed | src/test/java/de/danielbechler/diff/BeanDifferTest.java:198-210 | the same for the property loop |
| BeanDiffer.BeanDiffer.Compare | src/test/java/de/danielbechler/diff/BeanDifferTest.java:69-73 | values of different runtime types are an invalid argument |
| BeanDiffer.BeanDiffer.CompareValues | src/test/java/de/danielbechler/diff/BeanDifferTest.java:69-80 | a null working value is an invalid argument; so are values of different runtime types; otherwise this is the comparison of the root position |
| BeanDiffer.Create | src/test/java/de/danielbechler/diff/BeanDifferTest.java:175-186 | construction fails on a null delegate and succeeds with any other |
| BeanProperties.ComparePropertiesFailure | src/test/java/de/danielbechler/diff/BeanDifferTest.java:154-165 | the property loop fails exactly when comparing some property fails, with the first error |
| BeanProperties.ComparePropertiesNode | src/test/java/de/danielbechler/diff/BeanDifferTest.java:154-165 | the property loop gives the node the returnable property nodes in property order, with the aggregated state |
| BeanProperties.EqualsOnlyUnequalIsChangedLeaf | src/test/java/de/danielbechler/diff/BeanDifferTest.java:59-67 | two unequal equals-only values give a CHANGED node that has changes and no children |
| BeanProperties.NullsAreUntouched | src/test/java/de/danielbechler/diff/BeanDifferTest.java:82-87 | null against null at the root is UNTOUCHED, and nothing is read |
| BeanProperties.IgnoredRootIsIgnored | src/test/java/de/danielbechler/diff/BeanDifferTest.java:89-94 | an ignored root is IGNORED whatever its two values of one runtime type are (a type mismatch is reported first), and nothing is read |
| BeanProperties.AddedRoot | src/test/java/de/danielbechler/diff/BeanDifferTest.java:96-101 | a value against null is ADDED, and never fails; without expansion it is a leaf |
| BeanProperties.RemovedRoot | src/test/java/de/danielbechler/diff/BeanDifferTest.java:103-108 | null against a value is REMOVED, and never fails; without expansion it is a leaf |
| BeanProperties.ExpandedNodeKeepsState | src/test/java/de/danielbechler/diff/BeanDifferTest.java:198-210 | expanding the properties of an ADDED or REMOVED node does not change its state |
| BeanProperties.SameIsUntouched | src/test/java/de/danielbechler/diff/BeanDifferTest.java:110-115 | the same instance on both sides is UNTOUCHED, and nothing is read |
| BeanProperties.EqualsOnlyRoot | src/test/java/de/danielbechler/diff/BeanDifferTest.java:117-139 | an equals-only root is a leaf: UNTOUCHED iff equal, CHANGED iff not |
| BeanProperties.IntrospectedBean | src/test/java/de/danielbechler/diff/BeanDifferTest.java:154-165 | an introspected bean fails exactly when some property fails; otherwise its children are its returnable property nodes, and it is CHANGED iff one of them has changes |
| BeanProperties.ExpandedAddedBean | src/test/java/de/danielbechler/diff/BeanDifferTest.java:198-210 | with expansion on, an added bean stays ADDED and gets its returnable property nodes as children |
| BeanProperties.IgnoredPropertiesAreNeverAccessed | src/test/java/de/danielbechler/diff/BeanDifferTest.java:188-196 | the two-argument compare never invokes the getter of an ignored property, and reads nothing beneath one |
| BeanScenario.AddedObj | src/test/java/de/danielbechler/diff/BeanDifferTest.java:198-210 | an object compared against null with expansion on is ADDED, with an ADDED id and its nested object's node |
| BeanScenario.RootGainsObject | src/test/java/de/danielbechler/diff/BeanDifferTest.java:198-210 | the root with an unchanged id and a new nested object is CHANGED, and the nested object's node is its only child |
| BeanScenario.AddedGraphIsReturned | src/test/java/de/danielbechler/diff/BeanDifferTest.java:198-210 | the test's graph: the root is CHANGED, its child "object" is ADDED, and the "object" beneath that is ADDED too |

## Left out

- `ObjectDiffer`, `DifferDelegator` and `DifferFactory`: their code is not
  part of this model. Dispatch (`Differ.Compare`) sends maps to the map
  differ and everything else to the bean differ, chosen by runtime shape.
- The collection differ and cycle detection: not part of this model.
  Graphs are finite values, so cycles cannot arise.
- `BeanDiffer`: its source is not part of this model. Its rules
  (`Differ.CompareBean`) follow the tests in `BeanDifferTest.java`. The
  cascade is: ignored, added, removed, same, equals-only, introspected,
  otherwise equals.
- Introspection and annotations: the introspector is a function from a
  class tag to an ordered list of property names. Ignore rules and the
  other rules are configuration predicates.
- `Configuration`: its source and its real defaults are not part of this
  model. `Config.Default()` is one sample configuration, under which every
  node that is not UNTOUCHED is returned. Ignore rules look at the path
  only, because a property is ignored before it is read.
- `MapNode.indexKeys` and the node internals: their source is not part of
  this model. `indexAll` appears only as the key-set read in the log.
  Aggregation is modelled in `Attach` (addChild): an UNTOUCHED node
  becomes CHANGED when a child with changes is attached.
- Aggregation over returned children only: an alternative rule would
  aggregate over every compared child, returned or not. MapDiffer sets no
  state in the entry branch and attaches only returnable children, so the
  model aggregates over attached children only.
  `ChildLists.ReturnableKeepsChanges` and
  `MapProperties.EntryBranchChangedIffSomeEntryChanged` show that the two
  agree whenever every changed node is returnable, as under
  `Config.Default()`.
- `MapScenario.MapScenarioReturningUnchanged`: a three-key map scenario
  (one key added, one removed, one kept) whose root lists the UNTOUCHED
  entry "b" among its children. That needs a configuration that returns
  unchanged nodes, so the scenario is proved under such a configuration;
  under `Config.Default()` the UNTOUCHED entry would not be returned.
- Hash-map iteration order: keys are visited in ascending order
  (`KeyOrder.Enumerate`), so that the loop and the functional rules agree
  on one order. The child order inside one key group that
  `MapProperties.AddedMap`, `MapProperties.RemovedMap`,
  `MapProperties.EntryBranch` and `MapProperties.HandleEntriesCharacterized`
  state is this chosen order; Java's is the hash set's. The order of the
  three groups (added, removed, known) is the source's. No proof relies on
  the order inside a group.
- Map keys are strings: Java maps, and the map-key accessor, take keys of
  any type, including null. The model's keys are plain strings, so a null
  key and keys of mixed types are not modelled.
- The REMOVED flag (`childrenOfRemovedNodes`) has no setter in the model;
  a configuration sets the field directly.
- The functional rules (`Differ.CompareMap`) accept instances of any
  shape, but the dispatch sends only maps or nulls to them, and the Java
  methods, whose parameters are typed `Map`, require the same
  (`MapDiffer.IsMapOrNull`).
- The fresh placeholder for an absent side (`instances.getFresh`): a
  missing entry or field reads as null.
- Java `equals`, `hashCode` and reference identity: these are the `Host`
  parameters `equal` and `same`. Runtime classes are type tags.
- Exceptions other than the invalid-argument errors of the constructors
  and of the type check. A failure is a `Result` error, and a failure
  anywhere aborts the whole comparison.
- The parent back-reference of a node, the node visitor
  (`NodeHierarchyVisitor`), and the coverage-only getter test.
- Setters on beans: the model has no operation that writes to a graph,
  and the bean differ calls none.

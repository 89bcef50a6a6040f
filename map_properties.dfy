/**
 * What the map differ's rules amount to: each branch of the cascade, the
 * three key groups, and the children and state the entry branch produces,
 * stated against an independent description in which every entry is
 * compared on its own.
 */
module MapProperties {
  import opened Values
  import opened Results
  import opened Nodes
  import opened Config
  import opened InstancePair
  import opened KeyOrder
  import opened Differ
  import opened ChildLists

  // ---- entries compared one by one --------------------------------------

  /** Each entry of `keys` compared on its own, in order; the first failure, if any. */
  function EntryOutcomes(d: Delegator, path: Path, inst: Instances, keys: seq<Key>): (r: Result<seq<Outcome>>)
    ensures r.Ok? ==> |r.value| == |keys|
  {
    if keys == [] then Ok([])
    else
      var o :- Compare(d, path, AccessKey(inst, keys[0]));
      var rest :- EntryOutcomes(d, path, inst, keys[1..]);
      Ok([o] + rest)
  }

  /** What reading and comparing the entries `keys` logs: each read, then what its comparison read. */
  function EntryLog(path: Path, keys: seq<Key>, os: seq<Outcome>): seq<Access>
    requires |keys| == |os|
  {
    if keys == [] then []
    else [EntryRead(path + [KeySegment(keys[0])])] + os[0].accesses + EntryLog(path, keys[1..], os[1..])
  }

  /**
   * handleEntries: it fails exactly when comparing some entry fails, with
   * the first such error; otherwise the node gains the returnable entry
   * nodes, in key order, its state is aggregated from them, and the log
   * grows by each entry read followed by what that comparison read.
   */
  lemma HandleEntriesCharacterized(cfg: Configuration, d: Delegator, path: Path,
                                   inst: Instances, acc: Outcome, keys: seq<Key>)
    requires IsPresent(inst.working) || IsPresent(inst.base)
    ensures var r := HandleEntries(cfg, d, path, inst, acc, keys);
            var e := EntryOutcomes(d, path, inst, keys);
            && (r.Ok? <==> e.Ok?)
            && (r.Err? ==> r.error == e.error)
            && (r.Ok? ==> r.value.node == WithChildren(cfg, acc.node, NodesOf(e.value)))
            && (r.Ok? ==> r.value.accesses == acc.accesses + EntryLog(path, keys, e.value))
  {
    HandleEntriesFailure(cfg, d, path, inst, acc, keys);
    HandleEntriesNode(cfg, d, path, inst, acc, keys);
    HandleEntriesLog(cfg, d, path, inst, acc, keys);
  }

  lemma {:induction false} HandleEntriesFailure(cfg: Configuration, d: Delegator, path: Path,
                                                inst: Instances, acc: Outcome, keys: seq<Key>)
    requires IsPresent(inst.working) || IsPresent(inst.base)
    ensures var r := HandleEntries(cfg, d, path, inst, acc, keys);
            var e := EntryOutcomes(d, path, inst, keys);
            && (r.Ok? <==> e.Ok?)
            && (r.Err? ==> r.error == e.error)
    decreases |keys|
  {
    if keys != [] {
      var child := Compare(d, path, AccessKey(inst, keys[0]));
      HandleEntriesStep(cfg, d, path, inst, acc, keys);
      if child.Ok? {
        var c := child.value;
        var next := Outcome(AttachIfReturnable(cfg, acc.node, c.node),
                            acc.accesses + [EntryRead(path + [KeySegment(keys[0])])] + c.accesses);
        HandleEntriesFailure(cfg, d, path, inst, next, keys[1..]);
      }
    }
  }

  lemma {:induction false} HandleEntriesNode(cfg: Configuration, d: Delegator, path: Path,
                                             inst: Instances, acc: Outcome, keys: seq<Key>)
    requires IsPresent(inst.working) || IsPresent(inst.base)
    ensures var r := HandleEntries(cfg, d, path, inst, acc, keys);
            var e := EntryOutcomes(d, path, inst, keys);
            r.Ok? && e.Ok? ==> r.value.node == WithChildren(cfg, acc.node, NodesOf(e.value))
    decreases |keys|
  {
    if keys == [] {
      assert acc.node.children + [] == acc.node.children;
    } else {
      var child := Compare(d, path, AccessKey(inst, keys[0]));
      HandleEntriesStep(cfg, d, path, inst, acc, keys);
      if child.Ok? {
        var c := child.value;
        var next := Outcome(AttachIfReturnable(cfg, acc.node, c.node),
                            acc.accesses + [EntryRead(path + [KeySegment(keys[0])])] + c.accesses);
        HandleEntriesNode(cfg, d, path, inst, next, keys[1..]);
        var e := EntryOutcomes(d, path, inst, keys[1..]);
        if e.Ok? {
          ConsOutcome(path, keys, c, e.value);
          OfferOne(cfg, acc.node, c.node, NodesOf(e.value));
        }
      }
    }
  }

  lemma {:induction false} HandleEntriesLog(cfg: Configuration, d: Delegator, path: Path,
                                            inst: Instances, acc: Outcome, keys: seq<Key>)
    requires IsPresent(inst.working) || IsPresent(inst.base)
    ensures var r := HandleEntries(cfg, d, path, inst, acc, keys);
            var e := EntryOutcomes(d, path, inst, keys);
            r.Ok? && e.Ok? ==> r.value.accesses == acc.accesses + EntryLog(path, keys, e.value)
    decreases |keys|
  {
    if keys == [] {
      assert acc.accesses + [] == acc.accesses;
    } else {
      var child := Compare(d, path, AccessKey(inst, keys[0]));
      HandleEntriesStep(cfg, d, path, inst, acc, keys);
      if child.Ok? {
        var c := child.value;
        var read := [EntryRead(path + [KeySegment(keys[0])])];
        var next := Outcome(AttachIfReturnable(cfg, acc.node, c.node), acc.accesses + read + c.accesses);
        HandleEntriesLog(cfg, d, path, inst, next, keys[1..]);
        var e := EntryOutcomes(d, path, inst, keys[1..]);
        if e.Ok? {
          ConsOutcome(path, keys, c, e.value);
          ConcatAssoc(acc.accesses, read + c.accesses, EntryLog(path, keys[1..], e.value));
        }
      }
    }
  }

  /** One step of handleEntries and of its reference, side by side. */
  lemma HandleEntriesStep(cfg: Configuration, d: Delegator, path: Path,
                          inst: Instances, acc: Outcome, keys: seq<Key>)
    requires IsPresent(inst.working) || IsPresent(inst.base)
    requires keys != []
    ensures var child := Compare(d, path, AccessKey(inst, keys[0]));
            && (child.Err? ==> HandleEntries(cfg, d, path, inst, acc, keys) == Err(child.error))
            && (child.Err? ==> EntryOutcomes(d, path, inst, keys) == Err(child.error))
    ensures var child := Compare(d, path, AccessKey(inst, keys[0]));
            var e := EntryOutcomes(d, path, inst, keys[1..]);
            child.Ok? ==>
              && HandleEntries(cfg, d, path, inst, acc, keys)
                 == HandleEntries(cfg, d, path, inst,
                                  Outcome(AttachIfReturnable(cfg, acc.node, child.value.node),
                                          acc.accesses + [EntryRead(path + [KeySegment(keys[0])])] + child.value.accesses),
                                  keys[1..])
              && (e.Err? ==> EntryOutcomes(d, path, inst, keys) == Err(e.error))
              && (e.Ok? ==> EntryOutcomes(d, path, inst, keys) == Ok([child.value] + e.value))
  {
  }

  lemma ConcatAssoc(a: seq<Access>, b: seq<Access>, c: seq<Access>)
    ensures (a + b) + c == a + (b + c)
  {
  }

  lemma ConsOutcome(path: Path, keys: seq<Key>, c: Outcome, os: seq<Outcome>)
    requires keys != [] && |os| == |keys| - 1
    ensures NodesOf([c] + os) == [c.node] + NodesOf(os)
    ensures EntryLog(path, keys, [c] + os)
         == [EntryRead(path + [KeySegment(keys[0])])] + c.accesses + EntryLog(path, keys[1..], os)
  {
    assert ([c] + os)[1..] == os;
  }

  /** Handling two key sequences one after the other is handling their concatenation. */
  lemma {:induction false} HandleEntriesAppend(cfg: Configuration, d: Delegator, path: Path,
                                               inst: Instances, acc: Outcome, k1: seq<Key>, k2: seq<Key>)
    requires IsPresent(inst.working) || IsPresent(inst.base)
    ensures HandleEntries(cfg, d, path, inst, acc, k1 + k2)
         == match HandleEntries(cfg, d, path, inst, acc, k1)
            case Err(e) => Err(e)
            case Ok(o) => HandleEntries(cfg, d, path, inst, o, k2)
    decreases |k1|
  {
    if k1 == [] {
      assert k1 + k2 == k2;
    } else {
      assert (k1 + k2)[0] == k1[0];
      assert (k1 + k2)[1..] == k1[1..] + k2;
      var entry := AccessKey(inst, k1[0]);
      var child := Compare(d, path, entry);
      if child.Ok? {
        var next := Outcome(AttachIfReturnable(cfg, acc.node, child.value.node),
                            acc.accesses + [EntryRead(path + [entry.segment])] + child.value.accesses);
        HandleEntriesAppend(cfg, d, path, inst, next, k1[1..], k2);
      }
    }
  }

  // ---- the key groups ---------------------------------------------------

  /**
   * findAddedKeys, findRemovedKeys, findKnownKeys: every key of either map
   * falls in exactly one group, and the known keys are those both maps have.
   */
  lemma KeyGroupsPartition(inst: Instances)
    ensures FindAddedKeys(inst) + FindRemovedKeys(inst) + KnownKeys(inst) == Keys(inst.working) + Keys(inst.base)
    ensures FindAddedKeys(inst) * FindRemovedKeys(inst) == {}
    ensures FindAddedKeys(inst) * KnownKeys(inst) == {}
    ensures FindRemovedKeys(inst) * KnownKeys(inst) == {}
    ensures KnownKeys(inst) == Keys(inst.working) * Keys(inst.base)
    ensures forall k :: k in FindAddedKeys(inst) <==> k in Keys(inst.working) && k !in Keys(inst.base)
    ensures forall k :: k in FindRemovedKeys(inst) <==> k !in Keys(inst.working) && k in Keys(inst.base)
  {
  }

  /** The order in which the entry branch compares the entries: added, then removed, then known keys. */
  function EntryOrder(inst: Instances): seq<Key>
  {
    Enumerate(FindAddedKeys(inst)) + Enumerate(FindRemovedKeys(inst)) + Enumerate(KnownKeys(inst))
  }

  /** Joining two duplicate-free sequences that share no element gives a duplicate-free sequence. */
  lemma DistinctJoin(a: seq<Key>, b: seq<Key>)
    requires Distinct(a) && Distinct(b)
    requires forall x :: x in a ==> x !in b
    ensures Distinct(a + b)
  {
    forall i, j | 0 <= i < j < |a + b| ensures (a + b)[i] != (a + b)[j] {
      if j < |a| {
        assert (a + b)[i] == a[i] && (a + b)[j] == a[j];
      } else if i >= |a| {
        assert (a + b)[i] == b[i - |a|] && (a + b)[j] == b[j - |a|];
      } else {
        assert (a + b)[i] == a[i] && a[i] in a;
        assert (a + b)[j] == b[j - |a|] && b[j - |a|] in b;
      }
    }
  }

  /** Every key of either map is compared, and exactly once. */
  lemma EntryOrderCoversOnce(inst: Instances)
    ensures Distinct(EntryOrder(inst))
    ensures forall k :: k in EntryOrder(inst) <==> k in Keys(inst.working) + Keys(inst.base)
    ensures |EntryOrder(inst)| == |Keys(inst.working) + Keys(inst.base)|
  {
    var a, rm, kn := Enumerate(FindAddedKeys(inst)), Enumerate(FindRemovedKeys(inst)), Enumerate(KnownKeys(inst));
    KeyGroupsPartition(inst);
    DistinctJoin(a, rm);
    DistinctJoin(a + rm, kn);
    var ar := FindAddedKeys(inst) + FindRemovedKeys(inst);
    assert |ar| == |FindAddedKeys(inst)| + |FindRemovedKeys(inst)|;
    assert ar * KnownKeys(inst) == {};
    assert |ar + KnownKeys(inst)| == |ar| + |KnownKeys(inst)|;
  }

  // ---- the cascade of compare -------------------------------------------

  /** Present maps of different runtime types are an invalid argument. */
  lemma MapTypeMismatch(cfg: Configuration, d: Delegator, parent: Path, inst: Instances)
    requires TypeOfInstances(inst).Err?
    ensures CompareMap(cfg, d, parent, inst) == Err(TypeMismatch)
  {
  }

  /** An ignored position becomes an IGNORED leaf, and nothing of its maps is read. */
  lemma IgnoredMapIsLeaf(cfg: Configuration, d: Delegator, parent: Path, inst: Instances)
    requires TypeOfInstances(inst).Ok? && cfg.isIgnored(parent + [inst.segment])
    ensures CompareMap(cfg, d, parent, inst)
         == Ok(Outcome(Node(inst.segment, TypeOfInstances(inst).value, Ignored, []), []))
  {
  }

  /**
   * A map only the working side has: every entry is compared (all of them
   * are added), the returnable ones become children in key order, and the
   * node is ADDED.
   */
  lemma AddedMap(cfg: Configuration, d: Delegator, parent: Path, inst: Instances)
    requires !cfg.isIgnored(parent + [inst.segment]) && HasBeenAdded(inst)
    ensures var path := parent + [inst.segment];
            var r := CompareMap(cfg, d, parent, inst);
            var e := EntryOutcomes(d, path, inst, Enumerate(Keys(inst.working)));
            && (r.Ok? <==> e.Ok?)
            && (r.Ok? ==> r.value.node == Node(inst.segment, TypeOf(inst.working), Added,
                                               Returnable(cfg, NodesOf(e.value))))
            && (r.Ok? ==> r.value.accesses
                          == [KeysRead(path)] + EntryLog(path, Enumerate(Keys(inst.working)), e.value))
  {
    var path := parent + [inst.segment];
    var start := Outcome(Node(inst.segment, TypeOf(inst.working), Untouched, []), [KeysRead(path)]);
    HandleEntriesCharacterized(cfg, d, path, inst, start, Enumerate(Keys(inst.working)));
  }

  /** A map only the base side has: the mirror image of AddedMap, ending REMOVED. */
  lemma RemovedMap(cfg: Configuration, d: Delegator, parent: Path, inst: Instances)
    requires !cfg.isIgnored(parent + [inst.segment]) && HasBeenRemoved(inst)
    ensures var path := parent + [inst.segment];
            var r := CompareMap(cfg, d, parent, inst);
            var e := EntryOutcomes(d, path, inst, Enumerate(Keys(inst.base)));
            && (r.Ok? <==> e.Ok?)
            && (r.Ok? ==> r.value.node == Node(inst.segment, TypeOf(inst.base), Removed,
                                               Returnable(cfg, NodesOf(e.value))))
            && (r.Ok? ==> r.value.accesses
                          == [KeysRead(path)] + EntryLog(path, Enumerate(Keys(inst.base)), e.value))
  {
    var path := parent + [inst.segment];
    var start := Outcome(Node(inst.segment, TypeOf(inst.base), Untouched, []), [KeysRead(path)]);
    HandleEntriesCharacterized(cfg, d, path, inst, start, Enumerate(Keys(inst.base)));
  }

  /** The same instance on both sides (or two nulls): an UNTOUCHED leaf; only the key sets are read. */
  lemma SameMapIsUntouched(cfg: Configuration, d: Delegator, parent: Path, inst: Instances)
    requires TypeOfInstances(inst).Ok? && !cfg.isIgnored(parent + [inst.segment])
    requires !HasBeenAdded(inst) && !HasBeenRemoved(inst) && AreSame(d.host, inst)
    ensures CompareMap(cfg, d, parent, inst)
         == Ok(Outcome(Node(inst.segment, TypeOfInstances(inst).value, Untouched, []),
                       [KeysRead(parent + [inst.segment])]))
  {
  }

  /** An equals-only position is a leaf: UNTOUCHED exactly when the maps are equal, CHANGED otherwise. */
  lemma EqualsOnlyMap(cfg: Configuration, d: Delegator, parent: Path, inst: Instances)
    requires TypeOfInstances(inst).Ok? && !cfg.isIgnored(parent + [inst.segment])
    requires !HasBeenAdded(inst) && !HasBeenRemoved(inst) && !AreSame(d.host, inst)
    requires cfg.isEqualsOnly(parent + [inst.segment], TypeOfInstances(inst).value)
    ensures var r := CompareMap(cfg, d, parent, inst);
            && r.Ok? && r.value.node.children == []
            && r.value.accesses == [KeysRead(parent + [inst.segment])]
            && (r.value.node.state == Untouched <==> AreEqual(d.host, inst))
            && (r.value.node.state == Changed <==> !AreEqual(d.host, inst))
  {
  }

  /** The three key groups of the entry branch are handled as one run over EntryOrder. */
  lemma EntryBranchIsOneFold(cfg: Configuration, d: Delegator, parent: Path, inst: Instances)
    requires TypeOfInstances(inst).Ok? && !cfg.isIgnored(parent + [inst.segment])
    requires !HasBeenAdded(inst) && !HasBeenRemoved(inst) && !AreSame(d.host, inst)
    requires !cfg.isEqualsOnly(parent + [inst.segment], TypeOfInstances(inst).value)
    ensures IsPresent(inst.working) && IsPresent(inst.base)
    ensures var path := parent + [inst.segment];
            var start := Outcome(Node(inst.segment, TypeOfInstances(inst).value, Untouched, []), [KeysRead(path)]);
            CompareMap(cfg, d, parent, inst) == HandleEntries(cfg, d, path, inst, start, EntryOrder(inst))
  {
    var path := parent + [inst.segment];
    var start := Outcome(Node(inst.segment, TypeOfInstances(inst).value, Untouched, []), [KeysRead(path)]);
    var a, rm, kn := Enumerate(FindAddedKeys(inst)), Enumerate(FindRemovedKeys(inst)), Enumerate(KnownKeys(inst));
    HandleEntriesAppend(cfg, d, path, inst, start, a + rm, kn);
    HandleEntriesAppend(cfg, d, path, inst, start, a, rm);
  }

  /**
   * Two different maps compared by entries: the comparison fails exactly
   * when comparing one of the entries fails; otherwise every key of either
   * map is compared once (added, removed, then known keys), the returnable
   * entry nodes become the children in that order, and the node is CHANGED
   * exactly when one of those children has changes.
   */
  lemma EntryBranch(cfg: Configuration, d: Delegator, parent: Path, inst: Instances)
    requires TypeOfInstances(inst).Ok? && !cfg.isIgnored(parent + [inst.segment])
    requires !HasBeenAdded(inst) && !HasBeenRemoved(inst) && !AreSame(d.host, inst)
    requires !cfg.isEqualsOnly(parent + [inst.segment], TypeOfInstances(inst).value)
    ensures var path := parent + [inst.segment];
            var r := CompareMap(cfg, d, parent, inst);
            var e := EntryOutcomes(d, path, inst, EntryOrder(inst));
            && (r.Ok? <==> e.Ok?)
            && (r.Err? ==> r.error == e.error)
            && (r.Ok? ==> r.value.node.segment == inst.segment)
            && (r.Ok? ==> r.value.node.valueType == TypeOfInstances(inst).value)
            && (r.Ok? ==> r.value.node.children == Returnable(cfg, NodesOf(e.value)))
            && (r.Ok? ==> (r.value.node.state == Changed <==> AnyChanges(Returnable(cfg, NodesOf(e.value)))))
            && (r.Ok? ==> (r.value.node.state == Untouched <==> !AnyChanges(Returnable(cfg, NodesOf(e.value)))))
            && (r.Ok? ==> r.value.accesses == [KeysRead(path)] + EntryLog(path, EntryOrder(inst), e.value))
  {
    var path := parent + [inst.segment];
    var start := Outcome(Node(inst.segment, TypeOfInstances(inst).value, Untouched, []), [KeysRead(path)]);
    EntryBranchIsOneFold(cfg, d, parent, inst);
    HandleEntriesCharacterized(cfg, d, path, inst, start, EntryOrder(inst));
  }

  /**
   * Under default returnability, the node of two different maps is CHANGED
   * exactly when comparing some entry yields a node with changes, whether
   * or not that node is returned.
   */
  lemma EntryBranchChangedIffSomeEntryChanged(d: Delegator, parent: Path, inst: Instances)
    requires TypeOfInstances(inst).Ok? && ReturnsChanges(d.configuration)
    requires !d.configuration.isIgnored(parent + [inst.segment])
    requires !HasBeenAdded(inst) && !HasBeenRemoved(inst) && !AreSame(d.host, inst)
    requires !d.configuration.isEqualsOnly(parent + [inst.segment], TypeOfInstances(inst).value)
    ensures var r := CompareMap(d.configuration, d, parent, inst);
            var e := EntryOutcomes(d, parent + [inst.segment], inst, EntryOrder(inst));
            && (r.Ok? <==> e.Ok?)
            && (r.Ok? ==> (r.value.node.state == Changed <==> AnyChanges(NodesOf(e.value))))
  {
    var r := CompareMap(d.configuration, d, parent, inst);
    var e := EntryOutcomes(d, parent + [inst.segment], inst, EntryOrder(inst));
    EntryBranch(d.configuration, d, parent, inst);
    if r.Ok? {
      var kept := Returnable(d.configuration, NodesOf(e.value));
      assert r.value.node.state == Changed <==> AnyChanges(kept);
      ReturnableKeepsChanges(d.configuration, NodesOf(e.value));
    }
  }
}

/** A three-key map scenario: one key added, one removed, one kept. */
module MapScenario {
  import opened Values
  import opened Results
  import opened Nodes
  import opened Config
  import opened InstancePair
  import opened KeyOrder
  import opened Differ
  import opened MapProperties

  function Int(digits: string): Value
  {
    Scalar("Integer", digits)
  }

  const IntType := Some(Type(ScalarShape, "Integer"))

  /** A runtime whose identity and equals are both structural equality, introspecting nothing. */
  function PlainHost(): Host
  {
    Host((a: Value, b: Value) => a == b, (a: Value, b: Value) => a == b, (t: Tag) => [])
  }

  /** The default rules, except that UNTOUCHED nodes are returned as well. */
  function ReturningUnchanged(): Configuration
  {
    Default().(isReturnable := (n: Node) => true)
  }

  lemma EnumerateSingleton(x: string)
    ensures Enumerate({x}) == [x]
  {
    var r := Enumerate({x});
    assert r[0] in {x};
  }

  function Working(): Value
  {
    MapV("HashMap", map["a" := Int("1"), "b" := Int("2")])
  }

  function Base(): Value
  {
    MapV("HashMap", map["b" := Int("2"), "c" := Int("3")])
  }

  /** Comparing one entry of the scenario on its own. */
  lemma ScenarioEntry(cfg: Configuration, k: Key)
    requires cfg == ReturningUnchanged() && k in {"a", "b", "c"}
    ensures var inst := Instances(RootSegment, Working(), Base());
            var state := if k == "a" then Added else if k == "c" then Removed else Untouched;
            Compare(Delegator(cfg, PlainHost()), [RootSegment], AccessKey(inst, k))
            == Ok(Outcome(Node(KeySegment(k), IntType, state, []), []))
  {
  }

  /** Handling one entry of the scenario, attaching its node. */
  lemma ScenarioStep(cfg: Configuration, acc: Outcome, k: Key)
    requires cfg == ReturningUnchanged() && k in {"a", "b", "c"}
    ensures var inst := Instances(RootSegment, Working(), Base());
            var state := if k == "a" then Added else if k == "c" then Removed else Untouched;
            var child := Node(KeySegment(k), IntType, state, []);
            HandleEntries(cfg, Delegator(cfg, PlainHost()), [RootSegment], inst, acc, [k])
            == Ok(Outcome(Attach(acc.node, child), acc.accesses + [EntryRead([RootSegment, KeySegment(k)])]))
  {
    var inst := Instances(RootSegment, Working(), Base());
    var d := Delegator(cfg, PlainHost());
    var state := if k == "a" then Added else if k == "c" then Removed else Untouched;
    var child := Node(KeySegment(k), IntType, state, []);
    ScenarioEntry(cfg, k);
    HandleEntriesStep(cfg, d, [RootSegment], inst, acc, [k]);
    assert [k][1..] == [];
    var read := [EntryRead([RootSegment] + [KeySegment(k)])];
    assert [RootSegment] + [KeySegment(k)] == [RootSegment, KeySegment(k)];
    assert cfg.isReturnable(child);
    var next := Outcome(Attach(acc.node, child), acc.accesses + read + []);
    assert HandleEntries(cfg, d, [RootSegment], inst, acc, [k]) == HandleEntries(cfg, d, [RootSegment], inst, next, []);
    assert acc.accesses + read + [] == acc.accesses + read;
  }

  function Scenario(): Instances
  {
    Instances(RootSegment, Working(), Base())
  }

  lemma ScenarioKeys()
    ensures Keys(Working()) == {"a", "b"} && Keys(Base()) == {"b", "c"}
  {
    assert Working().entries.Keys == {"a", "b"};
    assert Base().entries.Keys == {"b", "c"};
  }

  lemma ScenarioGroups()
    ensures FindAddedKeys(Scenario()) == {"a"}
    ensures FindRemovedKeys(Scenario()) == {"c"}
    ensures KnownKeys(Scenario()) == {"b"}
  {
    ScenarioKeys();
    assert {"a", "b"} - {"b", "c"} == {"a"};
    assert {"b", "c"} - {"a", "b"} == {"c"};
    assert {"a", "b"} - {"a"} - {"c"} == {"b"};
  }

  /** The entry branch compares "a" (added), then "c" (removed), then "b" (kept). */
  lemma ScenarioEntryOrder()
    ensures EntryOrder(Scenario()) == ["a", "c", "b"]
  {
    ScenarioGroups();
    EnumerateSingleton("a");
    EnumerateSingleton("b");
    EnumerateSingleton("c");
  }

  function ScenarioStart(): Outcome
  {
    Outcome(Node(RootSegment, Some(Type(MapShape, "HashMap")), Untouched, []), [KeysRead([RootSegment])])
  }

  /** The three entries handled in that order. */
  lemma ScenarioFold(cfg: Configuration)
    requires cfg == ReturningUnchanged()
    ensures HandleEntries(cfg, Delegator(cfg, PlainHost()), [RootSegment], Scenario(), ScenarioStart(), ["a", "c", "b"])
         == Ok(Outcome(Node(RootSegment, Some(Type(MapShape, "HashMap")), Changed,
                            [Node(KeySegment("a"), IntType, Added, []),
                             Node(KeySegment("c"), IntType, Removed, []),
                             Node(KeySegment("b"), IntType, Untouched, [])]),
                       [KeysRead([RootSegment]), EntryRead([RootSegment, KeySegment("a")]),
                        EntryRead([RootSegment, KeySegment("c")]), EntryRead([RootSegment, KeySegment("b")])]))
  {
    var d := Delegator(cfg, PlainHost());
    var inst := Scenario();
    var root := [RootSegment];
    var s0 := ScenarioStart();
    var na := Node(KeySegment("a"), IntType, Added, []);
    var nc := Node(KeySegment("c"), IntType, Removed, []);
    var nb := Node(KeySegment("b"), IntType, Untouched, []);
    var s1 := Outcome(Attach(s0.node, na), s0.accesses + [EntryRead([RootSegment, KeySegment("a")])]);
    var s2 := Outcome(Attach(s1.node, nc), s1.accesses + [EntryRead([RootSegment, KeySegment("c")])]);
    var s3 := Outcome(Attach(s2.node, nb), s2.accesses + [EntryRead([RootSegment, KeySegment("b")])]);
    ScenarioStep(cfg, s0, "a");
    ScenarioStep(cfg, s1, "c");
    ScenarioStep(cfg, s2, "b");
    HandleEntriesAppend(cfg, d, root, inst, s0, ["a"], ["c"]);
    HandleEntriesAppend(cfg, d, root, inst, s0, ["a"] + ["c"], ["b"]);
    assert ["a"] + ["c"] + ["b"] == ["a", "c", "b"];
    ThreeAttached(s0.node, na, nc, nb);
    ThreeLogged(KeysRead(root), EntryRead([RootSegment, KeySegment("a")]),
                EntryRead([RootSegment, KeySegment("c")]), EntryRead([RootSegment, KeySegment("b")]));
  }

  /**
   * {"a":1,"b":2} against {"b":2,"c":3}: the root is CHANGED, with "a"
   * ADDED, "c" REMOVED and "b" UNTOUCHED as its children, in that order;
   * every entry is read once.
   */
  lemma MapScenarioReturningUnchanged()
    ensures var cfg := ReturningUnchanged();
            CompareMap(cfg, Delegator(cfg, PlainHost()), [], Scenario())
            == Ok(Outcome(Node(RootSegment, Some(Type(MapShape, "HashMap")), Changed,
                               [Node(KeySegment("a"), IntType, Added, []),
                                Node(KeySegment("c"), IntType, Removed, []),
                                Node(KeySegment("b"), IntType, Untouched, [])]),
                          [KeysRead([RootSegment]), EntryRead([RootSegment, KeySegment("a")]),
                           EntryRead([RootSegment, KeySegment("c")]), EntryRead([RootSegment, KeySegment("b")])]))
  {
    var cfg := ReturningUnchanged();
    ScenarioBranch(cfg);
    ScenarioEntryOrder();
    ScenarioFold(cfg);
  }

  /** The two maps differ, so the entry branch is taken. */
  lemma ScenarioBranch(cfg: Configuration)
    requires cfg == ReturningUnchanged()
    ensures CompareMap(cfg, Delegator(cfg, PlainHost()), [], Scenario())
         == HandleEntries(cfg, Delegator(cfg, PlainHost()), [RootSegment], Scenario(), ScenarioStart(), EntryOrder(Scenario()))
  {
    var d := Delegator(cfg, PlainHost());
    var inst := Scenario();
    assert "a" in inst.working.entries && "a" !in inst.base.entries;
    assert !AreSame(d.host, inst);
    assert TypeOfInstances(inst) == Ok(Some(Type(MapShape, "HashMap")));
    EntryBranchIsOneFold(cfg, d, [], inst);
    assert [] + [RootSegment] == [RootSegment];
  }

  lemma ThreeAttached(root: Node, a: Node, c: Node, b: Node)
    requires root.state == Untouched && root.children == [] && a.state == Added
    ensures Attach(Attach(Attach(root, a), c), b) == root.(state := Changed, children := [a, c, b])
  {
    assert [] + [a] == [a];
    assert [a] + [c] == [a, c];
    assert [a, c] + [b] == [a, c, b];
  }

  lemma ThreeLogged(k: Access, a: Access, c: Access, b: Access)
    ensures [k] + [a] + [c] + [b] == [k, a, c, b]
  {
  }
}

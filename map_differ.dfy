/**
 * MapDiffer as the Java class runs it: the node is allocated and then
 * updated in place (setState, addChild), and the entries of each key group
 * are handled by a loop. Each method is proved to build exactly what the
 * functional rules of module Differ describe.
 */
module MapDiffer {
  import opened Values
  import opened Results
  import opened Nodes
  import opened Config
  import opened InstancePair
  import opened KeyOrder
  import opened Differ
  import opened MapProperties
  import opened TraversalProperties

  /** What a `Map`-typed parameter can hold: a map, or null. */
  predicate IsMapOrNull(v: Value)
  {
    v.Null? || v.MapV?
  }

  /** The differ for map positions: its delegator for the entries and its own configuration. */
  datatype MapDiffer = MapDiffer(delegator: Delegator, configuration: Configuration)
  {
    /** compare(Map, Map): the two maps at the root position. */
    method CompareMaps(working: Value, base: Value) returns (r: Result<Outcome>)
      requires IsMapOrNull(working) && IsMapOrNull(base)
      ensures r == CompareMap(configuration, delegator, [], Instances(RootSegment, working, base))
      ensures r.Ok? ==> r.value.node.segment == RootSegment
    {
      r := Compare([], Instances(RootSegment, working, base));
    }

    /** compare(parentNode, instances): the cascade, building the node by mutation. */
    method Compare(parent: Path, inst: Instances) returns (r: Result<Outcome>)
      requires IsMapOrNull(inst.working) && IsMapOrNull(inst.base)
      ensures r == CompareMap(configuration, delegator, parent, inst)
      ensures r.Ok? ==> r.value.node.segment == inst.segment
    {
      var path := parent + [inst.segment];
      var t := TypeOfInstances(inst);
      if t.Err? {
        return Err(t.error);
      }
      var node := new MapNode(inst.segment, t.value);
      if configuration.isIgnored(path) {
        node.SetState(Ignored);
        return Ok(Outcome(node.Snapshot(), []));
      }
      // indexAll
      var accesses := [KeysRead(path)];
      if HasBeenAdded(inst) {
        var handled := HandleEntries(path, inst, node, accesses, Keys(inst.working));
        if handled.Err? {
          return Err(handled.error);
        }
        node.SetState(Added);
        accesses := handled.value;
      } else if HasBeenRemoved(inst) {
        var handled := HandleEntries(path, inst, node, accesses, Keys(inst.base));
        if handled.Err? {
          return Err(handled.error);
        }
        node.SetState(Removed);
        accesses := handled.value;
      } else if AreSame(delegator.host, inst) {
        node.SetState(Untouched);
      } else if configuration.isEqualsOnly(path, t.value) {
        if AreEqual(delegator.host, inst) {
          node.SetState(Untouched);
        } else {
          node.SetState(Changed);
        }
      } else {
        var handled := HandleEntries(path, inst, node, accesses, FindAddedKeys(inst));
        if handled.Err? {
          return Err(handled.error);
        }
        handled := HandleEntries(path, inst, node, handled.value, FindRemovedKeys(inst));
        if handled.Err? {
          return Err(handled.error);
        }
        var known := FindKnownKeys(inst);
        KeyGroupsPartition(inst);
        handled := HandleEntries(path, inst, node, handled.value, known);
        if handled.Err? {
          return Err(handled.error);
        }
        accesses := handled.value;
      }
      return Ok(Outcome(node.Snapshot(), accesses));
    }

    /**
     * handleEntries(instances, parent, keys): one comparison per key, in the
     * iteration order of the key set; returns the accesses so far.
     */
    method HandleEntries(path: Path, inst: Instances, parent: MapNode,
                         accesses: seq<Access>, keys: set<Key>) returns (r: Result<seq<Access>>)
      requires IsPresent(inst.working) || IsPresent(inst.base)
      modifies parent
      ensures var spec := Differ.HandleEntries(configuration, delegator, path, inst,
                                               Outcome(old(parent.Snapshot()), accesses), Enumerate(keys));
              && (r.Err? <==> spec.Err?)
              && (r.Err? ==> r.error == spec.error)
              && (r.Ok? ==> spec.value == Outcome(parent.Snapshot(), r.value))
    {
      var ordered := Enumerate(keys);
      ghost var spec := Differ.HandleEntries(configuration, delegator, path, inst,
                                             Outcome(parent.Snapshot(), accesses), ordered);
      var log := accesses;
      for i := 0 to |ordered|
        invariant spec == Differ.HandleEntries(configuration, delegator, path, inst,
                                               Outcome(parent.Snapshot(), log), ordered[i..])
      {
        assert ordered[i..][1..] == ordered[i + 1..];
        var entry := AccessKey(inst, ordered[i]);
        var child := CompareEntry(path, inst, ordered[i]);
        if child.Err? {
          return Err(child.error);
        }
        if configuration.isReturnable(child.value.node) {
          parent.AddChild(child.value.node);
        }
        log := log + [EntryRead(path + [entry.segment])] + child.value.accesses;
      }
      return Ok(log);
    }

    /**
     * compareEntry: the instances of entry `k` in both maps go to the
     * delegator. The entry's node sits at the key's segment; beneath a map
     * that only one side has, it never fails; and everything it reads lies
     * at or beneath the entry, never beneath an ignored position.
     */
    method CompareEntry(path: Path, inst: Instances, k: Key) returns (r: Result<Outcome>)
      ensures r == Differ.Compare(delegator, path, AccessKey(inst, k))
      ensures r.Ok? ==> r.value.node.segment == KeySegment(k)
      ensures OneSided(inst) ==> r.Ok?
      ensures r.Ok? ==> Safe(delegator.configuration, path + [KeySegment(k)], r.value.accesses)
    {
      var entry := AccessKey(inst, k);
      CompareKeepsSegment(delegator, path, entry);
      CompareSafe(delegator, path, entry);
      if OneSided(inst) {
        OneSidedSucceeds(delegator, path, entry);
      }
      r := Differ.Compare(delegator, path, entry);
    }

    /**
     * findKnownKeys: copies the working key set and removes the added and the
     * removed keys from the copy; the maps themselves are not touched.
     */
    static method FindKnownKeys(inst: Instances) returns (known: set<Key>)
      ensures known == Keys(inst.working) * Keys(inst.base)
    {
      known := Keys(inst.working);
      known := known - FindAddedKeys(inst);
      known := known - FindRemovedKeys(inst);
    }
  }

  /** The constructor: a null delegator or configuration is an invalid argument, checked in that order. */
  function Create(delegator: Option<Delegator>, configuration: Option<Configuration>): (r: Result<MapDiffer>)
    ensures r.Ok? <==> delegator.Some? && configuration.Some?
    ensures delegator.None? ==> r == Err(NullArgument("delegator"))
    ensures delegator.Some? && configuration.None? ==> r == Err(NullArgument("configuration"))
    ensures r.Ok? ==> r.value.delegator == delegator.value && r.value.configuration == configuration.value
  {
    if delegator.None? then Err(NullArgument("delegator"))
    else if configuration.None? then Err(NullArgument("configuration"))
    else Ok(MapDiffer(delegator.value, configuration.value))
  }
}

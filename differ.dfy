/**
 * The recursive comparison: the dispatch by runtime type (DifferDelegator),
 * the map differ's rules and the bean differ's rules, as functions. Every
 * differ recurses through Compare for each child position, so the whole
 * change tree of two graphs is one call of Compare.
 *
 * A comparison either fails (a type mismatch anywhere aborts the whole
 * call) or yields the node it built together with the log of what it read.
 */
module Differ {
  import opened Values
  import opened Results
  import opened Nodes
  import opened Config
  import opened InstancePair
  import opened KeyOrder

  /** The collaborators one traversal shares: the configuration and the host runtime. */
  datatype Delegator = Delegator(configuration: Configuration, host: Host)

  /** A node is added to its parent's children only when the configuration calls it returnable. */
  function AttachIfReturnable(cfg: Configuration, parent: Node, child: Node): Node
  {
    if cfg.isReturnable(child) then Attach(parent, child) else parent
  }

  /**
   * DifferDelegator.delegate: compares the position that `inst` reaches below
   * `parent`. Maps go to the map differ; everything else (beans, scalars, two
   * nulls) to the bean differ.
   */
  function Compare(d: Delegator, parent: Path, inst: Instances): Result<Outcome>
    decreases Weight(inst), 2
  {
    var t :- TypeOfInstances(inst);
    if t.Some? && t.value.shape == MapShape then CompareMap(d.configuration, d, parent, inst)
    else CompareBean(d, parent, inst)
  }

  // ---- MapDiffer -------------------------------------------------------

  /** findAddedKeys: the working keys the base map lacks. */
  function FindAddedKeys(inst: Instances): set<Key>
  {
    Keys(inst.working) - Keys(inst.base)
  }

  /** findRemovedKeys: the base keys the working map lacks. */
  function FindRemovedKeys(inst: Instances): set<Key>
  {
    Keys(inst.base) - Keys(inst.working)
  }

  /** findKnownKeys: a copy of the working keys without the added and the removed ones. */
  function KnownKeys(inst: Instances): set<Key>
  {
    Keys(inst.working) - FindAddedKeys(inst) - FindRemovedKeys(inst)
  }

  /**
   * MapDiffer.compare(parentNode, instances) with the map differ's own
   * configuration `cfg`; children are compared through the delegator `d`.
   */
  function CompareMap(cfg: Configuration, d: Delegator, parent: Path, inst: Instances): Result<Outcome>
    decreases Weight(inst), 1
  {
    var path := parent + [inst.segment];
    var t :- TypeOfInstances(inst);
    var initial := Node(inst.segment, t, Untouched, []);
    if cfg.isIgnored(path) then
      Ok(Outcome(initial.(state := Ignored), []))
    else
      // indexAll reads the key sets of both maps
      var start := Outcome(initial, [KeysRead(path)]);
      if HasBeenAdded(inst) then
        var o :- HandleEntries(cfg, d, path, inst, start, Enumerate(Keys(inst.working)));
        Ok(o.(node := o.node.(state := Added)))
      else if HasBeenRemoved(inst) then
        var o :- HandleEntries(cfg, d, path, inst, start, Enumerate(Keys(inst.base)));
        Ok(o.(node := o.node.(state := Removed)))
      else if AreSame(d.host, inst) then
        Ok(start)
      else if cfg.isEqualsOnly(path, t) then
        Ok(start.(node := initial.(state := if AreEqual(d.host, inst) then Untouched else Changed)))
      else
        var added :- HandleEntries(cfg, d, path, inst, start, Enumerate(FindAddedKeys(inst)));
        var removed :- HandleEntries(cfg, d, path, inst, added, Enumerate(FindRemovedKeys(inst)));
        HandleEntries(cfg, d, path, inst, removed, Enumerate(KnownKeys(inst)))
  }

  /**
   * handleEntries: for each key in turn, read the entry of both maps, compare
   * it through the delegator and attach the child if it is returnable.
   */
  function HandleEntries(cfg: Configuration, d: Delegator, path: Path, inst: Instances,
                         acc: Outcome, keys: seq<Key>): Result<Outcome>
    requires IsPresent(inst.working) || IsPresent(inst.base)
    decreases Weight(inst), 0, |keys|
  {
    if keys == [] then Ok(acc)
    else
      var entry := AccessKey(inst, keys[0]);
      AccessKeyLighter(inst, keys[0]);
      var child :- Compare(d, path, entry);
      var accesses := acc.accesses + [EntryRead(path + [entry.segment])] + child.accesses;
      HandleEntries(cfg, d, path, inst,
                    Outcome(AttachIfReturnable(cfg, acc.node, child.node), accesses), keys[1..])
  }

  // ---- BeanDiffer ------------------------------------------------------

  /** The properties the introspector lists for the runtime type at a position. */
  function Properties(host: Host, t: Option<Type>): seq<string>
  {
    if t.Some? then host.introspect(t.value.tag) else []
  }

  /** UNTOUCHED when the two values are equal, CHANGED otherwise. */
  function EqualityState(host: Host, inst: Instances): State
  {
    if AreEqual(host, inst) then Untouched else Changed
  }

  /**
   * BeanDiffer.compare(parentNode, instances): the state rules of a bean
   * (or scalar) position, with the configuration of the delegator.
   */
  function CompareBean(d: Delegator, parent: Path, inst: Instances): Result<Outcome>
    decreases Weight(inst), 1
  {
    var cfg := d.configuration;
    var path := parent + [inst.segment];
    var t :- TypeOfInstances(inst);
    var initial := Node(inst.segment, t, Untouched, []);
    if cfg.isIgnored(path) then
      Ok(Outcome(initial.(state := Ignored), []))
    else if HasBeenAdded(inst) then
      var added := Outcome(initial.(state := Added), []);
      if cfg.childrenOfAddedNodes then CompareProperties(d, path, inst, added, Properties(d.host, t))
      else Ok(added)
    else if HasBeenRemoved(inst) then
      var removed := Outcome(initial.(state := Removed), []);
      if cfg.childrenOfRemovedNodes then CompareProperties(d, path, inst, removed, Properties(d.host, t))
      else Ok(removed)
    else if AreSame(d.host, inst) then
      Ok(Outcome(initial, []))
    else if cfg.isEqualsOnly(path, t) then
      Ok(Outcome(initial.(state := EqualityState(d.host, inst)), []))
    else if cfg.isIntrospectible(path, t) then
      CompareProperties(d, path, inst, Outcome(initial, []), Properties(d.host, t))
    else
      Ok(Outcome(initial.(state := EqualityState(d.host, inst)), []))
  }

  /**
   * For each property in turn: an ignored property gets an IGNORED node and
   * its getter is not called; any other is read on both sides and compared
   * through the delegator. The child is attached if it is returnable.
   */
  function CompareProperties(d: Delegator, path: Path, inst: Instances,
                             acc: Outcome, names: seq<string>): Result<Outcome>
    requires IsPresent(inst.working) || IsPresent(inst.base)
    decreases Weight(inst), 0, |names|
  {
    if names == [] then Ok(acc)
    else
      var cfg := d.configuration;
      var segment := PropertySegment(names[0]);
      if cfg.isIgnored(path + [segment]) then
        var child := Node(segment, None, Ignored, []);
        CompareProperties(d, path, inst,
                          Outcome(AttachIfReturnable(cfg, acc.node, child), acc.accesses), names[1..])
      else
        var property := AccessProperty(inst, names[0]);
        AccessPropertyLighter(inst, names[0]);
        var child :- Compare(d, path, property);
        var accesses := acc.accesses + [GetterRead(path + [segment])] + child.accesses;
        CompareProperties(d, path, inst,
                          Outcome(AttachIfReturnable(cfg, acc.node, child.node), accesses), names[1..])
  }
}

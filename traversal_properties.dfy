/**
 * What a comparison reads. An ignored position is never read from: no key
 * set, no getter and nothing beneath it. The one read that can land on an
 * ignored position is the map entry read: the map differ reads an entry's
 * values before the entry's own differ checks whether it is ignored.
 */
module TraversalProperties {
  import opened Values
  import opened Results
  import opened Nodes
  import opened Config
  import opened InstancePair
  import opened KeyOrder
  import opened Differ

  /** `a` reads at `path` or beneath it. */
  predicate Under(path: Path, a: Access)
  {
    |a.path| >= |path| && a.path[..|path|] == path
  }

  /**
   * No position between depth `n` (exclusive) and the position `a` reads
   * is ignored, except that a map entry read may land on an ignored entry.
   */
  predicate Guarded(cfg: Configuration, n: nat, a: Access)
  {
    forall j | n < j <= |a.path| :: (a.EntryRead? && j == |a.path|) || !cfg.isIgnored(a.path[..j])
  }

  /** Everything in `log` reads at or beneath `path`, and is guarded from the depth of `path`'s parent on. */
  predicate Safe(cfg: Configuration, path: Path, log: seq<Access>)
  {
    |path| > 0 && forall a <- log :: Under(path, a) && Guarded(cfg, |path| - 1, a)
  }

  /** A read beneath the child position `path + [s]` of a position not ignored is guarded from `path`'s parent on. */
  lemma Widen(cfg: Configuration, path: Path, s: Segment, a: Access)
    requires |path| > 0 && !cfg.isIgnored(path)
    requires Under(path + [s], a) && Guarded(cfg, |path|, a)
    ensures Under(path, a) && Guarded(cfg, |path| - 1, a)
  {
    assert a.path[..|path|] == (a.path[..|path| + 1])[..|path|];
    assert (path + [s])[..|path|] == path;
  }

  lemma SafeJoin(cfg: Configuration, path: Path, log: seq<Access>, a: Access, child: seq<Access>, s: Segment)
    requires Safe(cfg, path, log) && !cfg.isIgnored(path)
    requires Under(path, a) && Guarded(cfg, |path| - 1, a)
    requires Safe(cfg, path + [s], child)
    ensures Safe(cfg, path, log + [a] + child)
  {
    forall c <- log + [a] + child ensures Under(path, c) && Guarded(cfg, |path| - 1, c) {
      if c in child {
        Widen(cfg, path, s, c);
      }
    }
  }

  /** A read of the position `path` itself, when it is not ignored. */
  lemma OwnRead(cfg: Configuration, path: Path, a: Access)
    requires |path| > 0 && !cfg.isIgnored(path) && a.path == path
    ensures Safe(cfg, path, [a])
  {
    assert a.path[..|path|] == path;
  }

  /** A read of the child position `path + [s]` itself. */
  lemma ChildRead(cfg: Configuration, path: Path, a: Access, s: Segment)
    requires |path| > 0 && !cfg.isIgnored(path) && a.path == path + [s]
    requires a.EntryRead? || !cfg.isIgnored(path + [s])
    ensures Under(path, a) && Guarded(cfg, |path| - 1, a)
  {
    assert a.path[..|path|] == path;
    forall j | |path| - 1 < j <= |a.path|
      ensures (a.EntryRead? && j == |a.path|) || !cfg.isIgnored(a.path[..j])
    {
      if j == |path| {
        assert a.path[..j] == path;
      } else {
        assert a.path[..j] == path + [s];
      }
    }
  }

  lemma {:induction false} CompareSafe(d: Delegator, parent: Path, inst: Instances)
    ensures var r := Compare(d, parent, inst);
            r.Ok? ==> Safe(d.configuration, parent + [inst.segment], r.value.accesses)
    decreases Weight(inst), 2
  {
    var t := TypeOfInstances(inst);
    if t.Ok? {
      if t.value.Some? && t.value.value.shape == MapShape {
        CompareMapSafe(d, parent, inst);
      } else {
        CompareBeanSafe(d, parent, inst);
      }
    }
  }

  lemma {:induction false} CompareMapSafe(d: Delegator, parent: Path, inst: Instances)
    ensures var r := CompareMap(d.configuration, d, parent, inst);
            r.Ok? ==> Safe(d.configuration, parent + [inst.segment], r.value.accesses)
    decreases Weight(inst), 1
  {
    var cfg := d.configuration;
    var path := parent + [inst.segment];
    var t := TypeOfInstances(inst);
    if t.Ok? && !cfg.isIgnored(path) {
      var initial := Node(inst.segment, t.value, Untouched, []);
      var start := Outcome(initial, [KeysRead(path)]);
      OwnRead(cfg, path, KeysRead(path));
      if HasBeenAdded(inst) {
        HandleEntriesSafe(d, path, inst, start, Enumerate(Keys(inst.working)));
      } else if HasBeenRemoved(inst) {
        HandleEntriesSafe(d, path, inst, start, Enumerate(Keys(inst.base)));
      } else if !AreSame(d.host, inst) && !cfg.isEqualsOnly(path, t.value) {
        HandleEntriesSafe(d, path, inst, start, Enumerate(FindAddedKeys(inst)));
        var added := HandleEntries(cfg, d, path, inst, start, Enumerate(FindAddedKeys(inst)));
        if added.Ok? {
          HandleEntriesSafe(d, path, inst, added.value, Enumerate(FindRemovedKeys(inst)));
          var removed := HandleEntries(cfg, d, path, inst, added.value, Enumerate(FindRemovedKeys(inst)));
          if removed.Ok? {
            HandleEntriesSafe(d, path, inst, removed.value, Enumerate(KnownKeys(inst)));
          }
        }
      }
    }
  }

  lemma {:induction false} HandleEntriesSafe(d: Delegator, path: Path, inst: Instances, acc: Outcome, keys: seq<Key>)
    requires IsPresent(inst.working) || IsPresent(inst.base)
    requires !d.configuration.isIgnored(path) && Safe(d.configuration, path, acc.accesses)
    ensures var r := HandleEntries(d.configuration, d, path, inst, acc, keys);
            r.Ok? ==> Safe(d.configuration, path, r.value.accesses)
    decreases Weight(inst), 0, |keys|
  {
    if keys != [] {
      var cfg := d.configuration;
      var entry := AccessKey(inst, keys[0]);
      AccessKeyLighter(inst, keys[0]);
      var child := Compare(d, path, entry);
      if child.Ok? {
        CompareSafe(d, path, entry);
        var read := EntryRead(path + [entry.segment]);
        ChildRead(cfg, path, read, entry.segment);
        SafeJoin(cfg, path, acc.accesses, read, child.value.accesses, entry.segment);
        var accesses := acc.accesses + [read] + child.value.accesses;
        HandleEntriesSafe(d, path, inst, Outcome(AttachIfReturnable(cfg, acc.node, child.value.node), accesses), keys[1..]);
      }
    }
  }

  lemma {:induction false} CompareBeanSafe(d: Delegator, parent: Path, inst: Instances)
    ensures var r := CompareBean(d, parent, inst);
            r.Ok? ==> Safe(d.configuration, parent + [inst.segment], r.value.accesses)
    decreases Weight(inst), 1
  {
    var cfg := d.configuration;
    var path := parent + [inst.segment];
    var t := TypeOfInstances(inst);
    if t.Ok? && !cfg.isIgnored(path) {
      var initial := Node(inst.segment, t.value, Untouched, []);
      var names := Properties(d.host, t.value);
      if HasBeenAdded(inst) {
        if cfg.childrenOfAddedNodes {
          ComparePropertiesSafe(d, path, inst, Outcome(initial.(state := Added), []), names);
        }
      } else if HasBeenRemoved(inst) {
        if cfg.childrenOfRemovedNodes {
          ComparePropertiesSafe(d, path, inst, Outcome(initial.(state := Removed), []), names);
        }
      } else if !AreSame(d.host, inst) && !cfg.isEqualsOnly(path, t.value) && cfg.isIntrospectible(path, t.value) {
        ComparePropertiesSafe(d, path, inst, Outcome(initial, []), names);
      }
    }
  }

  lemma {:induction false} ComparePropertiesSafe(d: Delegator, path: Path, inst: Instances, acc: Outcome, names: seq<string>)
    requires IsPresent(inst.working) || IsPresent(inst.base)
    requires !d.configuration.isIgnored(path) && Safe(d.configuration, path, acc.accesses)
    ensures var r := CompareProperties(d, path, inst, acc, names);
            r.Ok? ==> Safe(d.configuration, path, r.value.accesses)
    decreases Weight(inst), 0, |names|
  {
    if names != [] {
      var cfg := d.configuration;
      var segment := PropertySegment(names[0]);
      if cfg.isIgnored(path + [segment]) {
        var child := Node(segment, None, Ignored, []);
        ComparePropertiesSafe(d, path, inst, Outcome(AttachIfReturnable(cfg, acc.node, child), acc.accesses), names[1..]);
      } else {
        var property := AccessProperty(inst, names[0]);
        AccessPropertyLighter(inst, names[0]);
        var child := Compare(d, path, property);
        if child.Ok? {
          CompareSafe(d, path, property);
          var read := GetterRead(path + [segment]);
          ChildRead(cfg, path, read, segment);
          SafeJoin(cfg, path, acc.accesses, read, child.value.accesses, segment);
          var accesses := acc.accesses + [read] + child.value.accesses;
          ComparePropertiesSafe(d, path, inst, Outcome(AttachIfReturnable(cfg, acc.node, child.value.node), accesses), names[1..]);
        }
      }
    }
  }

  /**
   * A whole comparison, from the root: whenever a position on the way to
   * something read is ignored, that read is the entry read of exactly that
   * position. So no key set, no getter and nothing beneath an ignored
   * position is ever read.
   */
  lemma IgnoredPositionsAreNotRead(d: Delegator, inst: Instances)
    ensures var r := Compare(d, [], inst);
            r.Ok? ==> forall a <- r.value.accesses, j | 0 < j <= |a.path| && d.configuration.isIgnored(a.path[..j])
                        :: a.EntryRead? && j == |a.path|
  {
    CompareSafe(d, [], inst);
    assert [] + [inst.segment] == [inst.segment];
  }

  /** In particular no getter of an ignored property is ever invoked. */
  lemma IgnoredPropertyGetterNeverCalled(d: Delegator, inst: Instances)
    ensures var r := Compare(d, [], inst);
            r.Ok? ==> forall a <- r.value.accesses | a.GetterRead? :: !d.configuration.isIgnored(a.path)
  {
    IgnoredPositionsAreNotRead(d, inst);
    CompareSafe(d, [], inst);
    assert [] + [inst.segment] == [inst.segment];
    var r := Compare(d, [], inst);
    if r.Ok? {
      forall a <- r.value.accesses | a.GetterRead? ensures !d.configuration.isIgnored(a.path) {
        assert Under([inst.segment], a);
        assert a.path[..|a.path|] == a.path;
      }
    }
  }

  // ---- one-sided comparisons ------------------------------------------

  /** At most one side is present, as beneath an ADDED or a REMOVED position. */
  predicate OneSided(inst: Instances)
  {
    !IsPresent(inst.working) || !IsPresent(inst.base)
  }

  /**
   * A comparison against null never fails: a type mismatch needs two
   * present values, and beneath a one-sided position every position is
   * one-sided too.
   */
  lemma {:induction false} OneSidedSucceeds(d: Delegator, parent: Path, inst: Instances)
    requires OneSided(inst)
    ensures Compare(d, parent, inst).Ok?
    decreases Weight(inst), 2
  {
    var t := TypeOfInstances(inst);
    if t.value.Some? && t.value.value.shape == MapShape {
      OneSidedMapSucceeds(d.configuration, d, parent, inst);
    } else {
      OneSidedBeanSucceeds(d, parent, inst);
    }
  }

  lemma {:induction false} OneSidedMapSucceeds(cfg: Configuration, d: Delegator, parent: Path, inst: Instances)
    requires OneSided(inst)
    ensures CompareMap(cfg, d, parent, inst).Ok?
    decreases Weight(inst), 1
  {
    var path := parent + [inst.segment];
    var t := TypeOfInstances(inst);
    var start := Outcome(Node(inst.segment, t.value, Untouched, []), [KeysRead(path)]);
    if !cfg.isIgnored(path) {
      if HasBeenAdded(inst) {
        OneSidedEntriesSucceed(cfg, d, path, inst, start, Enumerate(Keys(inst.working)));
      } else if HasBeenRemoved(inst) {
        OneSidedEntriesSucceed(cfg, d, path, inst, start, Enumerate(Keys(inst.base)));
      }
    }
  }

  lemma {:induction false} OneSidedEntriesSucceed(cfg: Configuration, d: Delegator, path: Path, inst: Instances,
                                                  acc: Outcome, keys: seq<Key>)
    requires OneSided(inst) && (IsPresent(inst.working) || IsPresent(inst.base))
    ensures HandleEntries(cfg, d, path, inst, acc, keys).Ok?
    decreases Weight(inst), 0, |keys|
  {
    if keys != [] {
      var entry := AccessKey(inst, keys[0]);
      AccessKeyLighter(inst, keys[0]);
      OneSidedSucceeds(d, path, entry);
      var child := Compare(d, path, entry).value;
      var accesses := acc.accesses + [EntryRead(path + [entry.segment])] + child.accesses;
      OneSidedEntriesSucceed(cfg, d, path, inst, Outcome(AttachIfReturnable(cfg, acc.node, child.node), accesses), keys[1..]);
    }
  }

  lemma {:induction false} OneSidedBeanSucceeds(d: Delegator, parent: Path, inst: Instances)
    requires OneSided(inst)
    ensures CompareBean(d, parent, inst).Ok?
    decreases Weight(inst), 1
  {
    var cfg := d.configuration;
    var path := parent + [inst.segment];
    var t := TypeOfInstances(inst);
    var initial := Node(inst.segment, t.value, Untouched, []);
    var names := Properties(d.host, t.value);
    if !cfg.isIgnored(path) {
      if HasBeenAdded(inst) && cfg.childrenOfAddedNodes {
        OneSidedPropertiesSucceed(d, path, inst, Outcome(initial.(state := Added), []), names);
      } else if HasBeenRemoved(inst) && cfg.childrenOfRemovedNodes {
        OneSidedPropertiesSucceed(d, path, inst, Outcome(initial.(state := Removed), []), names);
      }
    }
  }

  lemma {:induction false} OneSidedPropertiesSucceed(d: Delegator, path: Path, inst: Instances,
                                                     acc: Outcome, names: seq<string>)
    requires OneSided(inst) && (IsPresent(inst.working) || IsPresent(inst.base))
    ensures CompareProperties(d, path, inst, acc, names).Ok?
    decreases Weight(inst), 0, |names|
  {
    if names != [] {
      var cfg := d.configuration;
      var segment := PropertySegment(names[0]);
      if cfg.isIgnored(path + [segment]) {
        var child := Node(segment, None, Ignored, []);
        OneSidedPropertiesSucceed(d, path, inst, Outcome(AttachIfReturnable(cfg, acc.node, child), acc.accesses), names[1..]);
      } else {
        var property := AccessProperty(inst, names[0]);
        AccessPropertyLighter(inst, names[0]);
        OneSidedSucceeds(d, path, property);
        var child := Compare(d, path, property).value;
        var accesses := acc.accesses + [GetterRead(path + [segment])] + child.accesses;
        OneSidedPropertiesSucceed(d, path, inst, Outcome(AttachIfReturnable(cfg, acc.node, child.node), accesses), names[1..]);
      }
    }
  }

  // ---- the node's own segment -------------------------------------------

  /** A comparison's node carries the segment of the position it compares. */
  lemma CompareKeepsSegment(d: Delegator, parent: Path, inst: Instances)
    ensures var r := Compare(d, parent, inst);
            r.Ok? ==> r.value.node.segment == inst.segment
  {
    var path := parent + [inst.segment];
    var t := TypeOfInstances(inst);
    if t.Ok? {
      var initial := Node(inst.segment, t.value, Untouched, []);
      var names := Properties(d.host, t.value);
      var start := Outcome(initial, [KeysRead(path)]);
      if t.value.Some? && t.value.value.shape == MapShape {
        var cfg := d.configuration;
        if !cfg.isIgnored(path) && !HasBeenAdded(inst) && !HasBeenRemoved(inst)
           && !AreSame(d.host, inst) && !cfg.isEqualsOnly(path, t.value) {
          var added := HandleEntries(cfg, d, path, inst, start, Enumerate(FindAddedKeys(inst)));
          HandleEntriesKeepsSegment(cfg, d, path, inst, start, Enumerate(FindAddedKeys(inst)));
          if added.Ok? {
            var removed := HandleEntries(cfg, d, path, inst, added.value, Enumerate(FindRemovedKeys(inst)));
            HandleEntriesKeepsSegment(cfg, d, path, inst, added.value, Enumerate(FindRemovedKeys(inst)));
            if removed.Ok? {
              HandleEntriesKeepsSegment(cfg, d, path, inst, removed.value, Enumerate(KnownKeys(inst)));
            }
          }
        } else if !cfg.isIgnored(path) && HasBeenAdded(inst) {
          HandleEntriesKeepsSegment(cfg, d, path, inst, start, Enumerate(Keys(inst.working)));
        } else if !cfg.isIgnored(path) && HasBeenRemoved(inst) {
          HandleEntriesKeepsSegment(cfg, d, path, inst, start, Enumerate(Keys(inst.base)));
        }
      } else if !d.configuration.isIgnored(path) {
        if HasBeenAdded(inst) {
          ComparePropertiesKeepsSegment(d, path, inst, Outcome(initial.(state := Added), []), names);
        } else if HasBeenRemoved(inst) {
          ComparePropertiesKeepsSegment(d, path, inst, Outcome(initial.(state := Removed), []), names);
        } else if IsPresent(inst.working) || IsPresent(inst.base) {
          ComparePropertiesKeepsSegment(d, path, inst, Outcome(initial, []), names);
        }
      }
    }
  }

  /** The key loop attaches children but keeps its node's segment. */
  lemma {:induction false} HandleEntriesKeepsSegment(cfg: Configuration, d: Delegator, path: Path, inst: Instances,
                                                     acc: Outcome, keys: seq<Key>)
    requires IsPresent(inst.working) || IsPresent(inst.base)
    ensures var r := HandleEntries(cfg, d, path, inst, acc, keys);
            r.Ok? ==> r.value.node.segment == acc.node.segment
    decreases |keys|
  {
    if keys != [] {
      var entry := AccessKey(inst, keys[0]);
      var child := Compare(d, path, entry);
      if child.Ok? {
        var accesses := acc.accesses + [EntryRead(path + [entry.segment])] + child.value.accesses;
        HandleEntriesKeepsSegment(cfg, d, path, inst,
                                  Outcome(AttachIfReturnable(cfg, acc.node, child.value.node), accesses), keys[1..]);
      }
    }
  }

  /** The property loop attaches children but keeps its node's segment. */
  lemma {:induction false} ComparePropertiesKeepsSegment(d: Delegator, path: Path, inst: Instances,
                                                         acc: Outcome, names: seq<string>)
    requires IsPresent(inst.working) || IsPresent(inst.base)
    ensures var r := CompareProperties(d, path, inst, acc, names);
            r.Ok? ==> r.value.node.segment == acc.node.segment
    decreases |names|
  {
    if names != [] {
      var cfg := d.configuration;
      var segment := PropertySegment(names[0]);
      if cfg.isIgnored(path + [segment]) {
        var child := Node(segment, None, Ignored, []);
        ComparePropertiesKeepsSegment(d, path, inst, Outcome(AttachIfReturnable(cfg, acc.node, child), acc.accesses), names[1..]);
      } else {
        var child := Compare(d, path, AccessProperty(inst, names[0]));
        if child.Ok? {
          var accesses := acc.accesses + [GetterRead(path + [segment])] + child.value.accesses;
          ComparePropertiesKeepsSegment(d, path, inst,
                                        Outcome(AttachIfReturnable(cfg, acc.node, child.value.node), accesses), names[1..]);
        }
      }
    }
  }
}

/**
 * Facts about the child list of a node: which compared children a differ
 * returns, and the state its parent takes from the returned ones.
 */
module ChildLists {
  import opened Nodes
  import opened Config
  import opened Differ

  /** `a` is `b` with some elements left out and the rest kept in order. */
  predicate IsSubsequence(a: seq<Node>, b: seq<Node>)
    decreases |b|
  {
    if a == [] then true
    else if b == [] then false
    else (a[0] == b[0] && IsSubsequence(a[1..], b[1..])) || IsSubsequence(a, b[1..])
  }

  /**
   * The children of `ns` the configuration returns: all of them and only
   * them, in their order.
   */
  function Returnable(cfg: Configuration, ns: seq<Node>): (r: seq<Node>)
    ensures forall c <- r :: c in ns && cfg.isReturnable(c)
    ensures forall c <- ns :: cfg.isReturnable(c) ==> c in r
    ensures IsSubsequence(r, ns)
    decreases |ns|
  {
    if ns == [] then []
    else
      var rest := Returnable(cfg, ns[1..]);
      if cfg.isReturnable(ns[0]) then
        assert ([ns[0]] + rest)[1..] == rest;
        [ns[0]] + rest
      else rest
  }

  /** A returnable node is returned as often as it was compared; any other node never. */
  lemma {:induction false} ReturnableCounts(cfg: Configuration, ns: seq<Node>)
    ensures forall c :: multiset(Returnable(cfg, ns))[c] == if cfg.isReturnable(c) then multiset(ns)[c] else 0
    decreases |ns|
  {
    if ns != [] {
      ReturnableCounts(cfg, ns[1..]);
      assert ns == [ns[0]] + ns[1..];
      assert multiset(ns) == multiset{ns[0]} + multiset(ns[1..]);
      if cfg.isReturnable(ns[0]) {
        assert Returnable(cfg, ns) == [ns[0]] + Returnable(cfg, ns[1..]);
      }
    }
  }

  predicate AnyChanges(ns: seq<Node>)
  {
    exists c <- ns :: HasChanges(c)
  }

  /** The state a parent in state `s` ends in once the nodes `ns` are attached to it one by one. */
  function AggregateState(s: State, ns: seq<Node>): State
  {
    if s == Untouched && AnyChanges(ns) then Changed else s
  }

  lemma AttachAggregates(parent: Node, child: Node, rest: seq<Node>)
    ensures AggregateState(Attach(parent, child).state, rest) == AggregateState(parent.state, [child] + rest)
  {
    if HasChanges(child) {
      assert child in [child] + rest;
    } else {
      forall c <- [child] + rest | HasChanges(c) ensures c in rest { }
      if AnyChanges(rest) {
        var c :| c in rest && HasChanges(c);
        assert c in [child] + rest;
      }
    }
  }

  /** Every node with changes is returned. */
  ghost predicate ReturnsChanges(cfg: Configuration)
  {
    forall n: Node :: HasChanges(n) ==> cfg.isReturnable(n)
  }

  lemma DefaultReturnsChanges()
    ensures ReturnsChanges(Default())
  {
  }

  /**
   * When every node with changes is returned, the returned children have
   * changes exactly when the compared children do: returnability then does
   * not affect the parent's state.
   */
  lemma ReturnableKeepsChanges(cfg: Configuration, ns: seq<Node>)
    requires ReturnsChanges(cfg)
    ensures AnyChanges(Returnable(cfg, ns)) <==> AnyChanges(ns)
  {
    if AnyChanges(ns) {
      var c :| c in ns && HasChanges(c);
      assert c in Returnable(cfg, ns);
    }
  }

  function NodesOf(os: seq<Outcome>): (r: seq<Node>)
    ensures |r| == |os| && forall i :: 0 <= i < |os| ==> r[i] == os[i].node
  {
    if os == [] then [] else [os[0].node] + NodesOf(os[1..])
  }

  /** `acc` once the nodes `ns` have been offered to it as children. */
  function WithChildren(cfg: Configuration, acc: Node, ns: seq<Node>): Node
  {
    var kept := Returnable(cfg, ns);
    acc.(state := AggregateState(acc.state, kept), children := acc.children + kept)
  }

  /** Offering one child and then `ns` is offering `[child] + ns`. */
  lemma OfferOne(cfg: Configuration, acc: Node, child: Node, ns: seq<Node>)
    ensures WithChildren(cfg, AttachIfReturnable(cfg, acc, child), ns) == WithChildren(cfg, acc, [child] + ns)
  {
    var rest := Returnable(cfg, ns);
    assert ([child] + ns)[1..] == ns;
    if cfg.isReturnable(child) {
      assert Returnable(cfg, [child] + ns) == [child] + rest;
      AttachAggregates(acc, child, rest);
      assert acc.children + [child] + rest == acc.children + ([child] + rest);
    } else {
      assert Returnable(cfg, [child] + ns) == rest;
    }
  }
}

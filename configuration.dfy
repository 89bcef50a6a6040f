/**
 * The rules that decide, per position, what a comparison does: skip it,
 * compare it as a whole, descend into it, and return its node.
 */
module Config {
  import opened Values
  import opened Nodes

  /**
   * Ignore rules are keyed by path, because a property must be known to be
   * ignored before its value is read; the other lookups also see the runtime
   * type of the position. The two flags ask for the children of ADDED and of
   * REMOVED beans to be compared as well.
   */
  datatype Configuration = Configuration(
    isIgnored: Path -> bool,
    isEqualsOnly: (Path, Option<Type>) -> bool,
    isIntrospectible: (Path, Option<Type>) -> bool,
    isReturnable: Node -> bool,
    childrenOfAddedNodes: bool,
    childrenOfRemovedNodes: bool)
  {
    /** The fluent setter that switches on comparison of an ADDED bean's children. */
    function WithChildrenOfAddedNodes(): (c: Configuration)
      ensures c.childrenOfAddedNodes
      ensures c.childrenOfRemovedNodes == childrenOfRemovedNodes
      ensures c.isIgnored == isIgnored && c.isEqualsOnly == isEqualsOnly
      ensures c.isIntrospectible == isIntrospectible && c.isReturnable == isReturnable
    {
      this.(childrenOfAddedNodes := true)
    }
  }

  /**
   * A configuration without rules: nothing is ignored, scalars are compared
   * with equals, beans are introspected, and every node that is not
   * UNTOUCHED is returned.
   */
  function Default(): Configuration
  {
    Configuration(
      (p: Path) => false,
      (p: Path, t: Option<Type>) => t.Some? && t.value.shape == ScalarShape,
      (p: Path, t: Option<Type>) => t.Some? && t.value.shape == BeanShape,
      (n: Node) => n.state != Untouched,
      false,
      false)
  }
}

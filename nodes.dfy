/**
 * The change tree: one node per compared position, with its state and the
 * children its differ chose to return, and the record of what a comparison
 * read from the two graphs while building it.
 */
module Nodes {
  import opened Values

  datatype State = Untouched | Ignored | Changed | Added | Removed

  /**
   * One position of the compared graphs: the accessor step that reached it,
   * the runtime type of its instances (none when both are null or they were
   * never read), its state and its returned children, in insertion order.
   */
  datatype Node = Node(segment: Segment, valueType: Option<Type>, state: State, children: seq<Node>)

  predicate HasChanges(n: Node)
  {
    n.state == Changed || n.state == Added || n.state == Removed
  }

  predicate HasChildren(n: Node)
  {
    n.children != []
  }

  /**
   * addChild: the child is appended; an UNTOUCHED parent becomes CHANGED
   * when the child has changes. Every other state is final.
   */
  function Attach(parent: Node, child: Node): Node
  {
    var state := if parent.state == Untouched && HasChanges(child) then Changed else parent.state;
    parent.(state := state, children := parent.children + [child])
  }

  /** What a comparison reads from the graphs, and where. */
  datatype Access =
    /** The key sets of the maps at `path` (MapNode.indexKeys and the key iterations). */
    | KeysRead(path: Path)
    /** A map-key accessor applied to both maps; `path` ends with the key. */
    | EntryRead(path: Path)
    /** A property getter invoked on both beans; `path` ends with the property. */
    | GetterRead(path: Path)

  /** The node a comparison built, and everything it read, in order. */
  datatype Outcome = Outcome(node: Node, accesses: seq<Access>)

  /** A node under construction, updated in place by the map differ. */
  class MapNode {
    const segment: Segment
    const valueType: Option<Type>
    var state: State
    var children: seq<Node>

    function Snapshot(): Node
      reads this
    {
      Node(segment, valueType, state, children)
    }

    constructor (segment: Segment, valueType: Option<Type>)
      ensures Snapshot() == Node(segment, valueType, Untouched, [])
    {
      this.segment := segment;
      this.valueType := valueType;
      state := Untouched;
      children := [];
    }

    method SetState(s: State)
      modifies this
      ensures Snapshot() == old(Snapshot()).(state := s)
    {
      state := s;
    }

    method AddChild(child: Node)
      modifies this
      ensures Snapshot() == Attach(old(Snapshot()), child)
    {
      if state == Untouched && HasChanges(child) {
        state := Changed;
      }
      children := children + [child];
    }
  }
}

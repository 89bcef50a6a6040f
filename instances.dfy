/**
 * The pair of values found at one position of the working and the base
 * graph, and the host-runtime facts about them that the differs consult.
 */
module InstancePair {
  import opened Values
  import opened Results

  /**
   * What the Java runtime supplies: reference identity (`==`), `equals`,
   * and the introspector, which lists a class's properties in order.
   */
  datatype Host = Host(
    same: (Value, Value) -> bool,
    equal: (Value, Value) -> bool,
    introspect: Tag -> seq<string>)

  /** The working and base values at one position, and the accessor step that reached it. */
  datatype Instances = Instances(segment: Segment, working: Value, base: Value)

  /**
   * getType: the runtime type the two sides share; none when both are null.
   * Present values of different runtime types are an invalid argument.
   */
  function TypeOfInstances(inst: Instances): (r: Result<Option<Type>>)
    ensures r.Err? <==> IsPresent(inst.working) && IsPresent(inst.base) && TypeOf(inst.working) != TypeOf(inst.base)
    ensures r.Ok? && IsPresent(inst.working) ==> r.value == TypeOf(inst.working)
    ensures r.Ok? && IsPresent(inst.base) ==> r.value == TypeOf(inst.base)
    ensures r.Ok? && !IsPresent(inst.working) && !IsPresent(inst.base) ==> r.value == None
  {
    match (TypeOf(inst.working), TypeOf(inst.base))
    case (Some(tw), Some(tb)) => if tw == tb then Ok(Some(tw)) else Err(TypeMismatch)
    case (Some(tw), None) => Ok(Some(tw))
    case (None, tb) => Ok(tb)
  }

  predicate HasBeenAdded(inst: Instances)
  {
    IsPresent(inst.working) && !IsPresent(inst.base)
  }

  predicate HasBeenRemoved(inst: Instances)
  {
    !IsPresent(inst.working) && IsPresent(inst.base)
  }

  /** `working == base`: two nulls are the same; null is never the same as an object. */
  predicate AreSame(host: Host, inst: Instances)
  {
    if !IsPresent(inst.working) || !IsPresent(inst.base) then inst.working == inst.base
    else host.same(inst.working, inst.base)
  }

  /** Value equality: two nulls are equal; null equals no object. */
  predicate AreEqual(host: Host, inst: Instances)
  {
    if !IsPresent(inst.working) || !IsPresent(inst.base) then inst.working == inst.base
    else host.equal(inst.working, inst.base)
  }

  /** The instances at the entry `k` of the two maps. */
  function AccessKey(inst: Instances, k: Key): Instances
  {
    Instances(KeySegment(k), Entry(inst.working, k), Entry(inst.base, k))
  }

  /** The instances at the property `name` of the two beans. */
  function AccessProperty(inst: Instances, name: string): Instances
  {
    Instances(PropertySegment(name), Field(inst.working, name), Field(inst.base, name))
  }

  /** The measure of a comparison: the present values below this position, on both sides. */
  ghost function Weight(inst: Instances): nat
  {
    Size(inst.working) + Size(inst.base)
  }

  lemma AccessKeyLighter(inst: Instances, k: Key)
    requires IsPresent(inst.working) || IsPresent(inst.base)
    ensures Weight(AccessKey(inst, k)) < Weight(inst)
  {
    EntrySmaller(inst.working, k);
    EntrySmaller(inst.base, k);
  }

  lemma AccessPropertyLighter(inst: Instances, name: string)
    requires IsPresent(inst.working) || IsPresent(inst.base)
    ensures Weight(AccessProperty(inst, name)) < Weight(inst)
  {
    FieldSmaller(inst.working, name);
    FieldSmaller(inst.base, name);
  }
}

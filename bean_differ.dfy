/**
 * BeanDiffer: the differ for bean (and scalar) positions. Its rules are those
 * of Differ.CompareBean; this module adds the checked constructor and the
 * two-argument entry point.
 */
module BeanDiffer {
  import opened Values
  import opened Results
  import opened Nodes
  import opened InstancePair
  import opened Differ

  datatype BeanDiffer = BeanDiffer(delegate: Delegator)
  {
    /** compare(parentNode, instances). */
    function Compare(parent: Path, inst: Instances): (r: Result<Outcome>)
      ensures TypeOfInstances(inst).Err? ==> r == Err(TypeMismatch)
    {
      CompareBean(delegate, parent, inst)
    }

    /**
     * compare(working, base): the two objects at the root position. The
     * working object must not be null, and a base of another runtime type is
     * an invalid argument.
     */
    function CompareValues(working: Value, base: Value): (r: Result<Outcome>)
      ensures !IsPresent(working) ==> r == Err(NullArgument("working"))
      ensures IsPresent(working) && IsPresent(base) && TypeOf(working) != TypeOf(base) ==> r == Err(TypeMismatch)
      ensures IsPresent(working) ==> r == CompareBean(delegate, [], Instances(RootSegment, working, base))
    {
      if !IsPresent(working) then Err(NullArgument("working"))
      else Compare([], Instances(RootSegment, working, base))
    }
  }

  /** The constructor: a null delegate is an invalid argument. */
  function Create(delegate: Option<Delegator>): (r: Result<BeanDiffer>)
    ensures r.Ok? <==> delegate.Some?
    ensures delegate.None? ==> r == Err(NullArgument("delegate"))
    ensures r.Ok? ==> r.value.delegate == delegate.value
  {
    if delegate.None? then Err(NullArgument("delegate")) else Ok(BeanDiffer(delegate.value))
  }
}

/**
 * The object graphs being compared: absent values (Java null), scalars,
 * maps and beans, each carrying its runtime type, and the paths that
 * address positions inside a graph.
 */
module Values {

  datatype Option<+T> = None | Some(value: T)

  /** The name of a runtime class. */
  type Tag = string

  /** Map keys; the iteration order over them is fixed by module KeyOrder. */
  type Key = string

  /** How a runtime class is compared: by its entries, its properties, or as a whole. */
  datatype Shape = ScalarShape | MapShape | BeanShape

  /** A runtime type: two values share it iff they share both the shape and the class name. */
  datatype Type = Type(shape: Shape, tag: Tag)

  /**
   * One version of a value. `Null` is the absent value; a map binds keys to
   * values (a bound `Null` is a null map value); a bean holds the current
   * values of its properties by name (a missing name reads as null).
   */
  datatype Value =
    | Null
    | Scalar(tag: Tag, data: string)
    | MapV(tag: Tag, entries: map<Key, Value>)
    | Bean(tag: Tag, fields: map<string, Value>)

  predicate IsPresent(v: Value) { !v.Null? }

  /** The runtime type of a present value; none for null. */
  function TypeOf(v: Value): Option<Type>
  {
    match v
    case Null => None
    case Scalar(t, _) => Some(Type(ScalarShape, t))
    case MapV(t, _) => Some(Type(MapShape, t))
    case Bean(t, _) => Some(Type(BeanShape, t))
  }

  /** One step of a path: the root accessor, a bean property, or a map key. */
  datatype Segment = RootSegment | PropertySegment(name: string) | KeySegment(key: Key)

  /** A position, as the segments from the root down to it. */
  type Path = seq<Segment>

  /** The keys of a map value (a missing map has none). */
  function Keys(v: Value): set<Key>
  {
    if v.MapV? then v.entries.Keys else {}
  }

  /** What a map-key accessor reads: the bound value, or null when the key or the map is missing. */
  function Entry(v: Value, k: Key): Value
  {
    if v.MapV? && k in v.entries then v.entries[k] else Null
  }

  /** What a property accessor reads: the property's value, or null when the bean is missing. */
  function Field(v: Value, name: string): Value
  {
    if v.Bean? && name in v.fields then v.fields[name] else Null
  }

  /** The directly contained values, by key or property name. */
  function Children(v: Value): map<string, Value>
  {
    match v
    case MapV(_, m) => m
    case Bean(_, f) => f
    case _ => map[]
  }

  /** Number of present values in a graph; the measure that bounds the recursion of a comparison. */
  ghost function Size(v: Value): nat
    decreases v, 1
  {
    match v
    case Null => 0
    case Scalar(_, _) => 1
    case MapV(_, m) => 1 + SumOver(v, m.Keys)
    case Bean(_, f) => 1 + SumOver(v, f.Keys)
  }

  ghost function SumOver(v: Value, ks: set<string>): nat
    requires ks <= Children(v).Keys
    decreases v, 0, ks
  {
    if ks == {} then 0 else var k :| k in ks; Size(Children(v)[k]) + SumOver(v, ks - {k})
  }

  lemma {:induction false} SumOverBounds(v: Value, ks: set<string>, k: string)
    requires ks <= Children(v).Keys && k in ks
    ensures Size(Children(v)[k]) <= SumOver(v, ks)
    decreases ks
  {
    var k' :| k' in ks && SumOver(v, ks) == Size(Children(v)[k']) + SumOver(v, ks - {k'});
    assert SumOver(v, ks) == Size(Children(v)[k']) + SumOver(v, ks - {k'});
    if k' != k {
      SumOverBounds(v, ks - {k'}, k);
    }
  }

  /** A contained value is strictly smaller than its container. */
  lemma ChildSmaller(v: Value, k: string)
    requires k in Children(v)
    ensures Size(Children(v)[k]) < Size(v)
  {
    SumOverBounds(v, Children(v).Keys, k);
  }

  /** Reading a key of a present value yields something smaller; of a missing one, null. */
  lemma EntrySmaller(v: Value, k: Key)
    ensures IsPresent(v) ==> Size(Entry(v, k)) < Size(v)
    ensures !IsPresent(v) ==> Entry(v, k) == Null
  {
    if v.MapV? && k in v.entries {
      ChildSmaller(v, k);
    }
  }

  /** Reading a property of a present value yields something smaller; of a missing one, null. */
  lemma FieldSmaller(v: Value, name: string)
    ensures IsPresent(v) ==> Size(Field(v, name)) < Size(v)
    ensures !IsPresent(v) ==> Field(v, name) == Null
  {
    if v.Bean? && name in v.fields {
      ChildSmaller(v, name);
    }
  }
}

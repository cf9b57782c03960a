/**
 * The parts of the runtime's derived-type descriptions (`typeInfo::DerivedType`,
 * `typeInfo::Component`, `typeInfo::Value`) that the deep copy consults.
 */
module TypeInfo {
  import opened Wrappers

  /**
   * Identity of a derived-type description. The runtime compares two
   * descriptions by address; the model compares their identities.
   */
  type TypeId = nat

  /** How a component is stored inside an element of its derived type. */
  datatype Genre = Data | Pointer | Allocatable | Automatic

  /**
   * A bound or type parameter as recorded in a type description: a constant,
   * the value of one of the object's length parameters, or not known.
   */
  datatype Value = Deferred | Explicit(value: int) | LenParameter(which: nat)

  /** The lower and upper bound of one dimension of an array component. */
  datatype Bounds = Bounds(lower: Value, upper: Value)

  /**
   * One entry of a derived type's component table. The component's rank is
   * the number of bound pairs it records.
   */
  datatype Component = Component(name: string, genre: Genre, derivedType: Option<TypeId>, bounds: seq<Bounds>)
  {
    function Rank(): nat { |bounds| }
  }

  /**
   * A derived type: its element size, whether its objects can be copied
   * bytewise and dropped without further work (`noDestructionNeeded`), and
   * its component table in declaration order.
   */
  datatype DerivedType = DerivedType(name: string, sizeInBytes: nat, noDestructionNeeded: bool, components: seq<Component>)

  /** Every type description a program can reach, by identity. */
  type TypeTable = TypeId -> DerivedType

  /**
   * Evaluates a recorded value against the length-parameter values of a
   * descriptor's addendum (`None` when the descriptor has no addendum).
   * A constant is always known; a length parameter is known when the
   * addendum holds that parameter; anything else cannot be evaluated.
   */
  function GetValue(v: Value, lenParams: Option<seq<int>>): (r: Option<int>)
    ensures r.Some? <==> v.Explicit? || (v.LenParameter? && lenParams.Some? && v.which < |lenParams.value|)
    ensures v.Explicit? ==> r == Some(v.value)
    ensures v.LenParameter? && r.Some? ==> r.value == lenParams.value[v.which]
  {
    match v
    case Explicit(x) => Some(x)
    case LenParameter(k) =>
      if lenParams.Some? && k < |lenParams.value| then Some(lenParams.value[k]) else None
    case Deferred => None
  }
}

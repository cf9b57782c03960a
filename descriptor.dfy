/**
 * The runtime's array descriptors and the storage they describe, reduced to
 * what the deep copy uses: element count, element size, lower bounds,
 * column-major subscript stepping, element addressing, `Establish` and
 * `Allocate`.
 *
 * Memory is abstract. An element is a value: its plain bytes plus one slot
 * per component that needs more than bytes (a descriptor stored inside the
 * element, or the inline elements of a derived-type array component).
 * Heap storage is a Dafny array of elements, so a fresh allocation is a
 * fresh object.
 */
module Descriptors {
  import opened Wrappers
  import opened TypeInfo

  type Byte = bv8

  /** One dimension: its lower bound and its extent (number of subscripts). */
  datatype Dimension = Dimension(lowerBound: int, extent: nat)
  {
    function UpperBound(): int { lowerBound + extent - 1 }
  }

  /** The descriptor addendum: the derived type and its length-parameter values. */
  datatype Addendum = Addendum(derivedType: Option<TypeId>, lenParams: seq<int>)

  /**
   * A base address: null, a block of heap storage, or storage inside an
   * enclosing element (the elements of such storage are passed alongside
   * the descriptor).
   */
  datatype Address = Null | Heap(block: array<Element>) | Interior

  datatype Descriptor = Descriptor(baseAddr: Address, elementBytes: nat, dims: seq<Dimension>, addendum: Option<Addendum>)

  /** An element: its plain bytes and the slots of its structured components. */
  datatype Element = Element(bytes: seq<Byte>, slots: seq<Slot>)

  /**
   * The storage of one component inside an element: nothing beyond the
   * element's bytes, a descriptor stored in the element (allocatable,
   * automatic and pointer components), or the elements of an array
   * component of derived type, stored inline.
   */
  datatype Slot = Plain | Embedded(desc: Descriptor) | Nested(elements: seq<Element>)

  /** Contents of storage that was allocated and not yet written. */
  const Uninitialized := Element([], [])

  /** Number of elements described by a shape: the product of the extents. */
  function Count(dims: seq<Dimension>): nat
  {
    if dims == [] then 1 else dims[0].extent * Count(dims[1..])
  }

  /** A shape describes no element exactly when one of its dimensions is empty. */
  lemma {:induction false} EmptyShape(dims: seq<Dimension>)
    ensures Count(dims) == 0 <==> exists k | 0 <= k < |dims| :: dims[k].extent == 0
  {
    if dims != [] {
      EmptyShape(dims[1..]);
      assert forall k | 1 <= k < |dims| :: dims[1..][k - 1] == dims[k];
    }
  }

  /** `Descriptor::Elements()`. */
  function Elements(d: Descriptor): nat
  {
    Count(d.dims)
  }

  /** `Descriptor::GetLowerBounds()`: one subscript per dimension, its lower bound. */
  function GetLowerBounds(dims: seq<Dimension>): (at: seq<int>)
    ensures |at| == |dims|
    ensures forall k | 0 <= k < |dims| :: at[k] == dims[k].lowerBound
  {
    if dims == [] then []
    else
      assert forall k | 1 <= k < |dims| :: dims[1..][k - 1] == dims[k];
      [dims[0].lowerBound] + GetLowerBounds(dims[1..])
  }

  /** Subscripts `at` address an element of the shape `dims`. */
  predicate InBounds(dims: seq<Dimension>, at: seq<int>)
  {
    |at| == |dims| &&
    forall k | 0 <= k < |at| :: dims[k].lowerBound <= at[k] <= dims[k].UpperBound()
  }

  /** Position of the element at `at` in column-major order (first subscript varies fastest). */
  function Linear(dims: seq<Dimension>, at: seq<int>): int
    requires |at| == |dims|
  {
    if dims == [] then 0
    else (at[0] - dims[0].lowerBound) + dims[0].extent * Linear(dims[1..], at[1..])
  }

  /**
   * `Descriptor::IncrementSubscripts()`: advances the first subscript; a
   * subscript that was at its upper bound goes back to its lower bound and
   * carries into the next dimension. From the last element every subscript
   * returns to its lower bound.
   */
  function IncrementSubscripts(dims: seq<Dimension>, at: seq<int>): (next: seq<int>)
    requires |at| == |dims|
    ensures |next| == |dims|
  {
    if dims == [] then []
    else if at[0] < dims[0].UpperBound() then [at[0] + 1] + at[1..]
    else [dims[0].lowerBound] + IncrementSubscripts(dims[1..], at[1..])
  }

  /** Stepping subscripts that are in bounds, the last element's included, keeps them in bounds. */
  lemma {:induction false} IncrementStaysInBounds(dims: seq<Dimension>, at: seq<int>)
    requires InBounds(dims, at)
    ensures InBounds(dims, IncrementSubscripts(dims, at))
  {
    if dims != [] {
      assert forall k | 1 <= k < |dims| :: dims[1..][k - 1] == dims[k] && at[1..][k - 1] == at[k];
      if at[0] >= dims[0].UpperBound() {
        IncrementStaysInBounds(dims[1..], at[1..]);
      }
    }
  }

  /** Subscripts inside the shape address one of its `Count(dims)` elements. */
  lemma {:induction false} LinearInRange(dims: seq<Dimension>, at: seq<int>)
    requires InBounds(dims, at)
    ensures 0 <= Linear(dims, at) < Count(dims)
  {
    if dims != [] {
      var rest := Linear(dims[1..], at[1..]);
      assert InBounds(dims[1..], at[1..]) by {
        forall k | 0 <= k < |at| - 1
          ensures dims[1..][k].lowerBound <= at[1..][k] <= dims[1..][k].UpperBound()
        {
          assert dims[1..][k] == dims[k + 1] && at[1..][k] == at[k + 1];
        }
      }
      LinearInRange(dims[1..], at[1..]);
      var e := dims[0].extent;
      assert 0 <= at[0] - dims[0].lowerBound < e;
      assert e * rest <= e * (Count(dims[1..]) - 1) by {
        MulMonotone(e, rest, Count(dims[1..]) - 1);
      }
    }
  }

  /** Multiplication by a natural number keeps order. */
  lemma MulMonotone(e: nat, x: int, y: int)
    requires x <= y
    ensures e * x <= e * y
  {
    assert e * y - e * x == e * (y - x);
  }

  /** The lower bounds address element 0 of a non-empty shape. */
  lemma {:induction false} LowerBoundsFirst(dims: seq<Dimension>)
    requires Count(dims) > 0
    ensures InBounds(dims, GetLowerBounds(dims))
    ensures Linear(dims, GetLowerBounds(dims)) == 0
  {
    EmptyShape(dims);
    if dims != [] {
      assert Count(dims[1..]) > 0;
      LowerBoundsFirst(dims[1..]);
      assert GetLowerBounds(dims)[1..] == GetLowerBounds(dims[1..]);
    }
  }

  /**
   * Stepping the subscripts of any element but the last moves to the next
   * element in column-major order.
   */
  lemma {:induction false} IncrementAdvances(dims: seq<Dimension>, at: seq<int>)
    requires InBounds(dims, at)
    requires Linear(dims, at) + 1 < Count(dims)
    ensures InBounds(dims, IncrementSubscripts(dims, at))
    ensures Linear(dims, IncrementSubscripts(dims, at)) == Linear(dims, at) + 1
  {
    var next := IncrementSubscripts(dims, at);
    var e := dims[0].extent;
    assert InBounds(dims[1..], at[1..]) by {
      forall k | 0 <= k < |at| - 1
        ensures dims[1..][k].lowerBound <= at[1..][k] <= dims[1..][k].UpperBound()
      {
        assert dims[1..][k] == dims[k + 1] && at[1..][k] == at[k + 1];
      }
    }
    var rest := Linear(dims[1..], at[1..]);
    if at[0] < dims[0].UpperBound() {
      assert next[1..] == at[1..];
      forall k | 0 <= k < |next|
        ensures dims[k].lowerBound <= next[k] <= dims[k].UpperBound()
      {
        if k > 0 { assert next[k] == at[k]; }
      }
    } else {
      assert at[0] - dims[0].lowerBound == e - 1;
      // e * rest + e - 1 + 1 < e * Count(rest dims), so rest + 1 < Count(rest dims)
      assert e * (rest + 1) < e * Count(dims[1..]);
      if rest + 1 >= Count(dims[1..]) {
        MulMonotone(e, Count(dims[1..]), rest + 1);
        assert false;
      }
      IncrementAdvances(dims[1..], at[1..]);
      assert next[1..] == IncrementSubscripts(dims[1..], at[1..]);
      forall k | 0 <= k < |next|
        ensures dims[k].lowerBound <= next[k] <= dims[k].UpperBound()
      {
        if k > 0 { assert next[k] == next[1..][k - 1] && dims[k] == dims[1..][k - 1]; }
      }
      assert e * (rest + 1) == e * rest + e;
    }
  }

  /** Stepping from the last element returns every subscript to its lower bound. */
  lemma {:induction false} IncrementWraps(dims: seq<Dimension>, at: seq<int>)
    requires InBounds(dims, at)
    requires Linear(dims, at) + 1 == Count(dims)
    ensures IncrementSubscripts(dims, at) == GetLowerBounds(dims)
  {
    if dims != [] {
      var e := dims[0].extent;
      var x := at[0] - dims[0].lowerBound;
      assert InBounds(dims[1..], at[1..]) by {
        forall k | 0 <= k < |at| - 1
          ensures dims[1..][k].lowerBound <= at[1..][k] <= dims[1..][k].UpperBound()
        {
          assert dims[1..][k] == dims[k + 1] && at[1..][k] == at[k + 1];
        }
      }
      var rest := Linear(dims[1..], at[1..]);
      var c := Count(dims[1..]);
      LinearInRange(dims[1..], at[1..]);
      assert x + e * rest + 1 == e * c;
      LastDigit(e, x, rest, c);
      IncrementWraps(dims[1..], at[1..]);
    }
  }

  /**
   * In a mixed-radix number `x + e * rest` with digit `x < e` and
   * `rest < c`, the value `e * c - 1` has both parts at their maximum.
   */
  lemma LastDigit(e: nat, x: int, rest: int, c: int)
    requires 0 <= x < e && 0 <= rest < c
    requires x + e * rest + 1 == e * c
    ensures x == e - 1 && rest + 1 == c
  {
    assert e * (rest + 1) == e * rest + e;
    MulMonotone(e, rest + 1, c);
    if x < e - 1 {
      assert false;
    }
    MulCancel(e, rest + 1, c);
  }

  /** Multiplication by a positive number is one-to-one. */
  lemma MulCancel(e: nat, x: int, y: int)
    requires e > 0 && e * x == e * y
    ensures x == y
  {
    assert e * (x - y) == e * x - e * y;
  }

  /** The subscripts reached from the lower bounds of `d` after `k` calls of `IncrementSubscripts`. */
  function Walk(d: Descriptor, k: nat): (at: seq<int>)
    ensures |at| == |d.dims|
  {
    if k == 0 then GetLowerBounds(d.dims) else IncrementSubscripts(d.dims, Walk(d, k - 1))
  }

  /** The walk from the lower bounds visits the elements in order: step `k` addresses element `k`. */
  lemma {:induction false} WalkAddresses(d: Descriptor, k: nat)
    requires k < Elements(d)
    ensures InBounds(d.dims, Walk(d, k))
    ensures Linear(d.dims, Walk(d, k)) == k
  {
    if k == 0 {
      LowerBoundsFirst(d.dims);
    } else {
      WalkAddresses(d, k - 1);
      IncrementAdvances(d.dims, Walk(d, k - 1));
    }
  }

  /** After one step per element the walk is back at the lower bounds. */
  lemma WalkReturns(d: Descriptor)
    requires Elements(d) > 0
    ensures Walk(d, Elements(d)) == GetLowerBounds(d.dims)
  {
    WalkAddresses(d, Elements(d) - 1);
    IncrementWraps(d.dims, Walk(d, Elements(d) - 1));
    LowerBoundsFirst(d.dims);
  }

  /**
   * `Descriptor::Element()`: the position in the described storage of the
   * element at subscripts `at` (contiguous column-major storage).
   */
  function ElementOffset(d: Descriptor, at: seq<int>): (offset: nat)
    requires InBounds(d.dims, at)
    ensures offset < Elements(d)
    ensures offset == Linear(d.dims, at)
  {
    LinearInRange(d.dims, at);
    Linear(d.dims, at)
  }

  /** Product of a list of extents. */
  function Product(extents: seq<nat>): nat
  {
    if extents == [] then 1 else extents[0] * Product(extents[1..])
  }

  /**
   * `Descriptor::Establish()` for an object of derived type `t` at `base`:
   * lower bounds 1, the given extents, the type's element size, and an
   * addendum naming `t` that holds no length-parameter values.
   */
  function Establish(types: TypeTable, t: TypeId, base: Address, extents: seq<nat>): (d: Descriptor)
    ensures Elements(d) == Product(extents)
    ensures |d.dims| == |extents|
    ensures forall k | 0 <= k < |extents| :: d.dims[k] == Dimension(1, extents[k])
    ensures d.elementBytes == types(t).sizeInBytes && d.baseAddr == base
    ensures d.addendum == Some(Addendum(Some(t), []))
  {
    var dims := seq(|extents|, k requires 0 <= k < |extents| => Dimension(1, extents[k]));
    CountOfUnitDims(extents, dims);
    Descriptor(base, types(t).sizeInBytes, dims, Some(Addendum(Some(t), [])))
  }

  lemma {:induction false} CountOfUnitDims(extents: seq<nat>, dims: seq<Dimension>)
    requires |dims| == |extents|
    requires forall k | 0 <= k < |extents| :: dims[k].extent == extents[k]
    ensures Count(dims) == Product(extents)
  {
    if extents != [] {
      CountOfUnitDims(extents[1..], dims[1..]);
    }
  }

  /**
   * `Descriptor::Allocate()`: fresh heap storage for `Elements(d)` elements,
   * recorded as the descriptor's base address; nothing else changes. The
   * new storage is uninitialized.
   */
  method Allocate(d: Descriptor) returns (r: Descriptor)
    ensures r.baseAddr.Heap? && fresh(r.baseAddr.block)
    ensures r.baseAddr.block.Length == Elements(d)
    ensures r == d.(baseAddr := r.baseAddr)
  {
    var block := new Element[Elements(d)](_ => Uninitialized);
    r := d.(baseAddr := Heap(block));
  }
}

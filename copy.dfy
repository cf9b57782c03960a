/**
 * The runtime's deep copy of arrays: `CopyArray` walks two descriptors in
 * lock-step and `CopyElement` copies one element, then gives allocatable and
 * automatic components fresh storage of their own and descends into array
 * components of derived type.
 *
 * A failed `RUNTIME_CHECK` stops the program through the terminator; the
 * model returns `Crash` with the check that failed. The storage a
 * descriptor describes is passed beside it as a sequence of elements, and
 * the methods return that storage as it is after the copy.
 */
module Copy {
  import opened Wrappers
  import opened TypeInfo
  import opened Descriptors

  /** The `RUNTIME_CHECK` that stopped the copy. */
  datatype Failure = ElementCountMismatch | ElementBytesMismatch | DerivedTypeMismatch

  datatype Outcome<T> = Done(value: T) | Crash(failure: Failure)

  /** A set of heap blocks. */
  type Footprint = set<array<Element>>

  // ----- What the copy consults ---------------------------------------------

  /** The derived type named by an addendum when that type needs more than a bytewise copy. */
  function DeepType(types: TypeTable, view: Option<Addendum>): (t: Option<TypeId>)
    ensures t.Some? ==> view.Some? && t == view.value.derivedType && !types(t.value).noDestructionNeeded
    ensures t.None? ==> view.None? || view.value.derivedType.None? || types(view.value.derivedType.value).noDestructionNeeded
  {
    if view.Some? && view.value.derivedType.Some? && !types(view.value.derivedType.value).noDestructionNeeded
    then view.value.derivedType
    else None
  }

  /** An allocatable or automatic component: a descriptor whose storage the element owns. */
  predicate OwnsStorage(c: Component)
  {
    c.genre == Allocatable || c.genre == Automatic
  }

  /** A data component of a derived type that needs more than a bytewise copy. */
  predicate IsDeepData(types: TypeTable, c: Component)
  {
    c.genre == Data && c.derivedType.Some? && !types(c.derivedType.value).noDestructionNeeded
  }

  /** The length-parameter values a bound is evaluated against. */
  function LenParams(view: Option<Addendum>): Option<seq<int>>
  {
    if view.Some? then Some(view.value.lenParams) else None
  }

  /** A bound evaluated against the destination's addendum; one that cannot be evaluated is 0. */
  function BoundValue(v: Value, view: Option<Addendum>): (b: int)
    ensures GetValue(v, LenParams(view)).None? ==> b == 0
    ensures GetValue(v, LenParams(view)).Some? ==> b == GetValue(v, LenParams(view)).value
  {
    GetValue(v, LenParams(view)).GetOr(0)
  }

  /** The extent of the dimension `lb..ub`: never negative, 0 when `ub < lb`. */
  function Extent(lb: int, ub: int): nat
  {
    if ub >= lb then ub - lb + 1 else 0
  }

  /** The subscripts of the dimension `lb..ub`. */
  ghost function Subscripts(lb: int, ub: int): set<int>
    decreases if ub >= lb then ub - lb + 1 else 0
  {
    if ub < lb then {} else Subscripts(lb, ub - 1) + {ub}
  }

  /** Exactly the integers from `lb` to `ub` are subscripts of `lb..ub`. */
  lemma {:induction false} SubscriptsBetween(lb: int, ub: int, i: int)
    ensures i in Subscripts(lb, ub) <==> lb <= i <= ub
    decreases if ub >= lb then ub - lb + 1 else 0
  {
    if ub >= lb {
      SubscriptsBetween(lb, ub - 1, i);
    }
  }

  /** An extent is the number of subscripts between the two bounds. */
  lemma {:induction false} ExtentCountsSubscripts(lb: int, ub: int)
    ensures Extent(lb, ub) == |Subscripts(lb, ub)|
    decreases if ub >= lb then ub - lb + 1 else 0
  {
    if ub >= lb {
      ExtentCountsSubscripts(lb, ub - 1);
      SubscriptsBetween(lb, ub - 1, ub);
    }
  }

  /** The extents of an array component, its bounds evaluated against the destination's addendum. */
  function Extents(c: Component, view: Option<Addendum>): seq<nat>
  {
    seq(c.Rank(), dim requires 0 <= dim < c.Rank() =>
      Extent(BoundValue(c.bounds[dim].lower, view), BoundValue(c.bounds[dim].upper, view)))
  }

  /**
   * Fills the extents of an array component dimension by dimension: each
   * is the number of subscripts between the component's bounds, evaluated
   * against the destination's addendum.
   */
  method ComputeExtents(c: Component, view: Option<Addendum>) returns (extents: seq<nat>)
    ensures |extents| == c.Rank()
    ensures forall dim | 0 <= dim < c.Rank() ::
      extents[dim] == |Subscripts(BoundValue(c.bounds[dim].lower, view), BoundValue(c.bounds[dim].upper, view))|
    ensures extents == Extents(c, view)
  {
    var buffer := new nat[c.Rank()];
    var dim := 0;
    while dim < c.Rank()
      invariant 0 <= dim <= c.Rank()
      invariant forall k | 0 <= k < dim :: buffer[k] == Extents(c, view)[k]
    {
      var lb := BoundValue(c.bounds[dim].lower, view);
      var ub := BoundValue(c.bounds[dim].upper, view);
      buffer[dim] := if ub >= lb then ub - lb + 1 else 0;
      dim := dim + 1;
    }
    extents := buffer[..];
    forall dim | 0 <= dim < c.Rank()
      ensures extents[dim] == |Subscripts(BoundValue(c.bounds[dim].lower, view), BoundValue(c.bounds[dim].upper, view))|
    {
      ExtentCountsSubscripts(BoundValue(c.bounds[dim].lower, view), BoundValue(c.bounds[dim].upper, view));
    }
  }

  /**
   * The descriptor established over an array component of derived type,
   * for both sides of the copy.
   */
  function ComponentDescriptor(types: TypeTable, c: Component, view: Option<Addendum>): Descriptor
    requires c.derivedType.Some?
  {
    Establish(types, c.derivedType.value, Interior, Extents(c, view))
  }

  /** `from` carries the deep derived type of `to`, so the components can be copied. */
  predicate MatchesType(types: TypeTable, to: Descriptor, from: Descriptor)
  {
    DeepType(types, to.addendum).Some? && from.addendum.Some? &&
    from.addendum.value.derivedType == to.addendum.value.derivedType
  }

  /** The first check of `CopyElement` that fails, if any. */
  function ElementCheck(types: TypeTable, to: Descriptor, from: Descriptor): (r: Option<Failure>)
    ensures r == Some(ElementBytesMismatch) <==> to.elementBytes != from.elementBytes
    ensures r == Some(DerivedTypeMismatch) <==>
      to.elementBytes == from.elementBytes && DeepType(types, to.addendum).Some? &&
      (from.addendum.None? || from.addendum.value.derivedType != to.addendum.value.derivedType)
    ensures r.Some? ==> r == Some(ElementBytesMismatch) || r == Some(DerivedTypeMismatch)
  {
    if to.elementBytes != from.elementBytes then Some(ElementBytesMismatch)
    else if DeepType(types, to.addendum).Some? && !MatchesType(types, to, from) then Some(DerivedTypeMismatch)
    else None
  }

  /** The first check of `CopyArray` that fails, if any. */
  function ArrayCheck(types: TypeTable, to: Descriptor, from: Descriptor): (r: Option<Failure>)
    ensures r == Some(ElementCountMismatch) <==> Elements(to) != Elements(from)
    ensures Elements(to) == Elements(from) == 0 ==> r.None?
    ensures Elements(to) == Elements(from) > 0 ==> r == ElementCheck(types, to, from)
  {
    if Elements(to) != Elements(from) then Some(ElementCountMismatch)
    else if Elements(to) == 0 then None
    else ElementCheck(types, to, from)
  }

  // ----- Well-formed source data --------------------------------------------

  /**
   * Element `e`, seen through a descriptor with addendum `view`, holds what
   * its type's component table describes: a descriptor for each allocatable
   * or automatic component, whose storage (when allocated) is a heap block
   * of `fp` big enough for its elements, and the inline elements of each
   * deep data component. `depth` bounds how deeply such storage nests.
   */
  ghost predicate Conforms(types: TypeTable, view: Option<Addendum>, e: Element, depth: nat, fp: Footprint)
    reads fp
    decreases depth, 1
  {
    match DeepType(types, view)
    case None => true
    case Some(t) =>
      var components := types(t).components;
      |components| <= |e.slots| &&
      forall j | 0 <= j < |components| :: SlotConforms(types, view, components[j], e.slots[j], depth, fp)
  }

  ghost predicate SlotConforms(types: TypeTable, view: Option<Addendum>, c: Component, s: Slot, depth: nat, fp: Footprint)
    reads fp
    decreases depth, 0
  {
    if OwnsStorage(c) then
      s.Embedded? &&
      match s.desc.baseAddr
      case Null => true
      case Interior => false
      case Heap(block) =>
        block in fp && depth > 0 && Elements(s.desc) <= block.Length &&
        forall i | 0 <= i < Elements(s.desc) :: Conforms(types, s.desc.addendum, block[i], depth - 1, fp)
    else if IsDeepData(types, c) then
      var cd := ComponentDescriptor(types, c, view);
      s.Nested? && depth > 0 && |s.elements| == Elements(cd) &&
      forall i | 0 <= i < |s.elements| :: Conforms(types, cd.addendum, s.elements[i], depth - 1, fp)
    else
      true
  }

  // ----- Who owns the storage a copy makes ----------------------------------

  /**
   * The heap blocks a deep copy made for one element, laid out like the
   * element: one holding per slot.
   */
  datatype Ownership = Ownership(holdings: seq<Holding>)

  /**
   * The blocks made for one slot: none, a block together with what each of
   * its elements owns, or what each inline element owns.
   */
  datatype Holding = Nothing | Block(block: array<Element>, owners: seq<Ownership>) | Inline(owners: seq<Ownership>)

  /** What an element that was only copied bytewise owns: no new block. */
  const Unowned := Ownership([])

  /** Every block an ownership records, at any depth. */
  ghost function Blocks(o: Ownership): Footprint
    decreases o
  {
    set j, b | 0 <= j < |o.holdings| && b in HoldingBlocks(o.holdings[j]) :: b
  }

  ghost function HoldingBlocks(h: Holding): Footprint
    decreases h
  {
    match h
    case Nothing => {}
    case Block(b, os) => {b} + AllBlocks(os)
    case Inline(os) => AllBlocks(os)
  }

  ghost function AllBlocks(os: seq<Ownership>): (blocks: Footprint)
    ensures forall i | 0 <= i < |os| :: Blocks(os[i]) <= blocks
    decreases os
  {
    set i, b | 0 <= i < |os| && b in Blocks(os[i]) :: b
  }

  /**
   * Ownership is a tree: different slots, different elements, and a block
   * and what its own elements hold never record the same block.
   */
  ghost predicate Separate(o: Ownership)
    decreases o
  {
    (forall j, k | 0 <= j < k < |o.holdings| :: HoldingBlocks(o.holdings[j]) !! HoldingBlocks(o.holdings[k])) &&
    forall j | 0 <= j < |o.holdings| :: HoldingSeparate(o.holdings[j])
  }

  ghost predicate HoldingSeparate(h: Holding)
    decreases h
  {
    match h
    case Nothing => true
    case Block(b, os) => b !in AllBlocks(os) && AllSeparate(os)
    case Inline(os) => AllSeparate(os)
  }

  ghost predicate AllSeparate(os: seq<Ownership>)
    decreases os
  {
    (forall i, k | 0 <= i < k < |os| :: Blocks(os[i]) !! Blocks(os[k])) &&
    forall i | 0 <= i < |os| :: Separate(os[i])
  }

  // ----- What a deep copy is ------------------------------------------------

  /** An allocatable or automatic component whose descriptor has heap storage. */
  predicate Allocated(c: Component, s: Slot)
  {
    OwnsStorage(c) && s.Embedded? && s.desc.baseAddr.Heap?
  }

  /**
   * `dst` is a deep copy of `src` seen through addendum `view`, the blocks
   * it made recorded in `o`. Without a deep type the copy is the bytewise
   * one and makes nothing. Otherwise the bytes are the source's; an
   * allocated allocatable or automatic component has the block its holding
   * records, of the source's element count, holding deep copies of the
   * source's elements, under a descriptor that differs from the source's
   * only in its base address; a deep data component holds deep copies of
   * the source's inline elements; every other component is exactly the
   * bytewise copy.
   */
  ghost predicate Copied(types: TypeTable, view: Option<Addendum>, dst: Element, src: Element,
                         depth: nat, fp: Footprint, o: Ownership)
    reads fp, Blocks(o)
    decreases depth, 1
  {
    match DeepType(types, view)
    case None => dst == src && o == Unowned
    case Some(t) =>
      var components := types(t).components;
      dst.bytes == src.bytes && |dst.slots| == |src.slots| && |o.holdings| == |src.slots| &&
      forall j | 0 <= j < |src.slots| ::
        if j < |components| then SlotCopied(types, view, components[j], dst.slots[j], src.slots[j], depth, fp, o.holdings[j])
        else dst.slots[j] == src.slots[j] && o.holdings[j] == Nothing
  }

  ghost predicate SlotCopied(types: TypeTable, view: Option<Addendum>, c: Component, d: Slot, s: Slot,
                             depth: nat, fp: Footprint, h: Holding)
    reads fp, HoldingBlocks(h)
    decreases depth, 0
  {
    if Allocated(c, s) then
      var from := s.desc.baseAddr.block;
      h.Block? && d == Embedded(s.desc.(baseAddr := Heap(h.block))) &&
      from in fp && depth > 0 &&
      h.block.Length == Elements(s.desc) <= from.Length && |h.owners| == h.block.Length &&
      forall i | 0 <= i < h.block.Length ::
        Copied(types, s.desc.addendum, h.block[i], from[i], depth - 1, fp, h.owners[i])
    else if IsDeepData(types, c) && s.Nested? then
      var cd := ComponentDescriptor(types, c, view);
      h.Inline? && |h.owners| == Elements(cd) <= |s.elements| &&
      d.Nested? && |d.elements| == |s.elements| && depth > 0 &&
      forall i | 0 <= i < |s.elements| ::
        if i < Elements(cd) then Copied(types, cd.addendum, d.elements[i], s.elements[i], depth - 1, fp, h.owners[i])
        else d.elements[i] == s.elements[i]
    else
      d == s && h == Nothing
  }

  // ----- The copy -------------------------------------------------------------

  /**
   * Copies the element of `from` at `fromAt` over the element of `to` at
   * `toAt`, deep-copying its components when `to`'s derived type needs it.
   * Returns the destination storage after the copy.
   */
  method CopyElement(types: TypeTable, to: Descriptor, toStore: seq<Element>, toAt: seq<int>,
                     from: Descriptor, fromStore: seq<Element>, fromAt: seq<int>,
                     ghost depth: nat, ghost fp: Footprint)
    returns (r: Outcome<seq<Element>>, ghost owner: Ownership)
    requires InBounds(to.dims, toAt) && Elements(to) <= |toStore|
    requires InBounds(from.dims, fromAt) && Elements(from) <= |fromStore|
    requires MatchesType(types, to, from) ==>
      Conforms(types, to.addendum, fromStore[ElementOffset(from, fromAt)], depth, fp)
    ensures fresh(Blocks(owner))
    ensures r.Crash? <==> ElementCheck(types, to, from).Some?
    ensures r.Crash? ==> r.failure == ElementCheck(types, to, from).value && owner == Unowned
    ensures r.Done? ==> |r.value| == |toStore|
    ensures r.Done? ==> forall k | 0 <= k < |toStore| && k != ElementOffset(to, toAt) :: r.value[k] == toStore[k]
    ensures r.Done? ==> Separate(owner)
    ensures r.Done? ==>
      Copied(types, to.addendum, r.value[ElementOffset(to, toAt)], fromStore[ElementOffset(from, fromAt)], depth, fp, owner)
    decreases depth, 2
  {
    var toOffset := ElementOffset(to, toAt);
    var fromOffset := ElementOffset(from, fromAt);
    owner := Unowned;
    if to.elementBytes != from.elementBytes {
      return Crash(ElementBytesMismatch), owner;
    }
    var src := fromStore[fromOffset];
    var e := src;  // the bytewise copy of the whole element
    if to.addendum.Some? {
      var derived := to.addendum.value.derivedType;
      if derived.Some? && !types(derived.value).noDestructionNeeded {
        if !(from.addendum.Some? && derived == from.addendum.value.derivedType) {
          return Crash(DerivedTypeMismatch), owner;
        }
        var components := types(derived.value).components;
        ghost var holdings: seq<Holding> := seq(|src.slots|, _ => Nothing);
        ghost var made: Footprint := {};
        var j := 0;
        while j < |components|
          invariant 0 <= j <= |components| <= |src.slots|
          invariant e.bytes == src.bytes
          invariant SlotsCopiedUpTo(types, to.addendum, components, e.slots, src.slots, holdings, j, depth, fp, made)
          invariant fresh(made)
        {
          assert e.slots[j] == src.slots[j];
          assert SlotConforms(types, to.addendum, components[j], e.slots[j], depth, fp);
          var slot, holding := CopyComponent(types, to.addendum, components[j], e.slots[j], depth, fp);
          SlotsCopiedExtends(types, to.addendum, components, e.slots, src.slots, holdings, j, depth, fp, made, slot, holding);
          e := e.(slots := e.slots[j := slot]);
          holdings := holdings[j := holding];
          made := made + HoldingBlocks(holding);
          j := j + 1;
        }
        owner := Ownership(holdings);
        CopiedFromSlots(types, to.addendum, e, src, owner, depth, fp, made);
      }
    }
    r := Done(toStore[toOffset := e]);
  }

  /**
   * The first `j` component slots of `ds` are deep copies of those of `ss`,
   * with separate holdings whose blocks lie in `made`; the later slots are
   * still the bytewise copy and hold nothing.
   */
  ghost predicate SlotsCopiedUpTo(types: TypeTable, view: Option<Addendum>, components: seq<Component>,
                                  ds: seq<Slot>, ss: seq<Slot>, hs: seq<Holding>, j: nat,
                                  depth: nat, fp: Footprint, made: Footprint)
    reads fp, made
  {
    j <= |components| && j <= |ss| && |ds| == |ss| && |hs| == |ss| &&
    (forall k | j <= k < |ss| :: ds[k] == ss[k] && hs[k] == Nothing) &&
    (forall k | 0 <= k < j ::
      HoldingBlocks(hs[k]) <= made && HoldingSeparate(hs[k]) &&
      SlotCopied(types, view, components[k], ds[k], ss[k], depth, fp, hs[k])) &&
    (forall k, k' | 0 <= k < k' < j :: HoldingBlocks(hs[k]) !! HoldingBlocks(hs[k']))
  }

  /** Copying slot `j` with new blocks extends the copied prefix by one. */
  lemma SlotsCopiedExtends(types: TypeTable, view: Option<Addendum>, components: seq<Component>,
                           ds: seq<Slot>, ss: seq<Slot>, hs: seq<Holding>, j: nat,
                           depth: nat, fp: Footprint, made: Footprint, d: Slot, h: Holding)
    requires SlotsCopiedUpTo(types, view, components, ds, ss, hs, j, depth, fp, made)
    requires j < |components| && j < |ss|
    requires HoldingBlocks(h) !! made && HoldingSeparate(h)
    requires SlotCopied(types, view, components[j], d, ss[j], depth, fp, h)
    ensures SlotsCopiedUpTo(types, view, components, ds[j := d], ss, hs[j := h], j + 1, depth, fp, made + HoldingBlocks(h))
  {
  }

  /** A fully copied slot table, with the bytes, makes a deep copy of the element. */
  lemma CopiedFromSlots(types: TypeTable, view: Option<Addendum>, dst: Element, src: Element, o: Ownership,
                        depth: nat, fp: Footprint, made: Footprint)
    requires DeepType(types, view).Some? && dst.bytes == src.bytes
    requires SlotsCopiedUpTo(types, view, types(DeepType(types, view).value).components,
                             dst.slots, src.slots, o.holdings, |types(DeepType(types, view).value).components|, depth, fp, made)
    ensures Copied(types, view, dst, src, depth, fp, o) && Separate(o) && Blocks(o) <= made
  {
  }

  /**
   * The body of `CopyElement`'s loop over the component table, for one
   * component of the destination element after the bytewise copy.
   */
  method CopyComponent(types: TypeTable, view: Option<Addendum>, c: Component, slot: Slot,
                       ghost depth: nat, ghost fp: Footprint)
    returns (copied: Slot, ghost holding: Holding)
    requires SlotConforms(types, view, c, slot, depth, fp)
    ensures fresh(HoldingBlocks(holding)) && HoldingSeparate(holding)
    ensures SlotCopied(types, view, c, copied, slot, depth, fp, holding)
    decreases depth, 1
  {
    copied, holding := slot, Nothing;
    if c.genre == Allocatable || c.genre == Automatic {
      if slot.desc.baseAddr != Null {
        copied, holding := CopyAllocatedComponent(types, view, c, slot.desc, depth, fp);
      }
    } else if c.genre == Data && c.derivedType.Some? && !types(c.derivedType.value).noDestructionNeeded {
      copied, holding := CopyDataComponent(types, view, c, slot.elements, depth, fp);
    }
  }

  /**
   * The step of `CopyElement` for an allocated allocatable or automatic
   * component: the destination's descriptor, a bytewise copy of the
   * source's, has its base address reset to null and is allocated afresh,
   * and the source component's elements are copied into the new storage.
   */
  method CopyAllocatedComponent(types: TypeTable, view: Option<Addendum>, c: Component,
                                fromDesc: Descriptor, ghost depth: nat, ghost fp: Footprint)
    returns (slot: Slot, ghost holding: Holding)
    requires OwnsStorage(c) && fromDesc.baseAddr != Null
    requires SlotConforms(types, view, c, Embedded(fromDesc), depth, fp)
    ensures fresh(HoldingBlocks(holding)) && HoldingSeparate(holding)
    ensures SlotCopied(types, view, c, slot, Embedded(fromDesc), depth, fp, holding)
    decreases depth, 0
  {
    var toDesc := fromDesc.(baseAddr := Null);
    toDesc := Allocate(toDesc);
    var block := toDesc.baseAddr.block;
    var source := fromDesc.baseAddr.block;
    // Both descriptors have the same shape, element size and type, so the
    // nested copy passes every check.
    var sub, owners, _ := CopyArray(types, toDesc, block[..], fromDesc, source[..], depth - 1, fp);
    forall i | 0 <= i < block.Length {
      block[i] := sub.value[i];
    }
    slot := Embedded(toDesc);
    holding := Block(block, owners);
  }

  /**
   * The step of `CopyElement` for a data component of a derived type that
   * needs deep copying: its extents come from its bounds, both sides get a
   * descriptor of that type, rank and extents over the inline storage, and
   * the inline elements are copied.
   */
  method CopyDataComponent(types: TypeTable, view: Option<Addendum>, c: Component,
                           fromElements: seq<Element>, ghost depth: nat, ghost fp: Footprint)
    returns (slot: Slot, ghost holding: Holding)
    requires IsDeepData(types, c)
    requires SlotConforms(types, view, c, Nested(fromElements), depth, fp)
    ensures fresh(HoldingBlocks(holding)) && HoldingSeparate(holding)
    ensures SlotCopied(types, view, c, slot, Nested(fromElements), depth, fp, holding)
    decreases depth, 0
  {
    var extents := ComputeExtents(c, view);
    var toCompDesc := Establish(types, c.derivedType.value, Interior, extents);
    var fromCompDesc := Establish(types, c.derivedType.value, Interior, extents);
    assert toCompDesc == fromCompDesc == ComponentDescriptor(types, c, view);
    assert ArrayCheck(types, toCompDesc, fromCompDesc).None?;
    // The bytewise copy left the source's inline elements in the destination.
    var sub, owners, _ := CopyArray(types, toCompDesc, fromElements, fromCompDesc, fromElements, depth - 1, fp);
    slot := Nested(sub.value);
    holding := Inline(owners);
  }

  /**
   * The subscripts `CopyArray` passes to `CopyElement` in its first `m`
   * calls: both walks start at their lower bounds and take one step per call.
   */
  ghost function Trace(to: Descriptor, from: Descriptor, m: nat): (calls: seq<(seq<int>, seq<int>)>)
    ensures |calls| == m
  {
    if m == 0 then [] else Trace(to, from, m - 1) + [(Walk(to, m - 1), Walk(from, m - 1))]
  }

  /**
   * Call `k` of the trace addresses element `k` of both arrays, whatever
   * their shapes: the copy pairs elements by their column-major position.
   */
  lemma {:induction false} TraceInLockStep(to: Descriptor, from: Descriptor, m: nat, k: nat)
    requires k < m <= Elements(to) && m <= Elements(from)
    ensures Trace(to, from, m)[k] == (Walk(to, k), Walk(from, k))
    ensures InBounds(to.dims, Trace(to, from, m)[k].0) && ElementOffset(to, Trace(to, from, m)[k].0) == k
    ensures InBounds(from.dims, Trace(to, from, m)[k].1) && ElementOffset(from, Trace(to, from, m)[k].1) == k
  {
    if k < m - 1 {
      TraceInLockStep(to, from, m - 1, k);
    } else {
      WalkAddresses(to, k);
      WalkAddresses(from, k);
    }
  }

  /**
   * Copies every element of `from` over the element of `to` at the same
   * position in column-major order, after checking that both describe the
   * same number of elements. Returns the destination storage after the
   * copy, and what each copied element owns.
   */
  method CopyArray(types: TypeTable, to: Descriptor, toStore: seq<Element>,
                   from: Descriptor, fromStore: seq<Element>,
                   ghost depth: nat, ghost fp: Footprint)
    returns (r: Outcome<seq<Element>>, ghost owners: seq<Ownership>, ghost calls: seq<(seq<int>, seq<int>)>)
    requires Elements(to) <= |toStore| && Elements(from) <= |fromStore|
    requires MatchesType(types, to, from) ==>
      forall k | 0 <= k < Elements(from) :: Conforms(types, to.addendum, fromStore[k], depth, fp)
    ensures fresh(AllBlocks(owners))
    ensures r.Crash? <==> ArrayCheck(types, to, from).Some?
    ensures r.Crash? ==> r.failure == ArrayCheck(types, to, from).value && owners == []
    ensures r.Crash? ==> |calls| == if r.failure == ElementCountMismatch then 0 else 1
    ensures r.Done? ==> |calls| == Elements(to)
    ensures calls == Trace(to, from, |calls|)
    ensures r.Done? ==> |r.value| == |toStore| && |owners| == Elements(to) && AllSeparate(owners)
    ensures r.Done? ==> forall k | Elements(to) <= k < |toStore| :: r.value[k] == toStore[k]
    ensures r.Done? ==>
      forall k | 0 <= k < Elements(to) :: Copied(types, to.addendum, r.value[k], fromStore[k], depth, fp, owners[k])
    decreases depth, 4
  {
    var elements := Elements(to);
    owners, calls := [], [];
    if elements != Elements(from) {
      return Crash(ElementCountMismatch), owners, calls;
    }
    ghost var n, done, made: Footprint := elements, 0, {};
    var toAt := GetLowerBounds(to.dims);
    var fromAt := GetLowerBounds(from.dims);
    var out := toStore;
    while elements > 0
      invariant 0 <= elements && done + elements == n
      invariant toAt == Walk(to, done) && fromAt == Walk(from, done)
      invariant calls == Trace(to, from, done)
      invariant |out| == |toStore| && |owners| == done
      invariant forall k | done <= k < |toStore| :: out[k] == toStore[k]
      invariant ElementsCopiedUpTo(types, to.addendum, out, fromStore, owners, depth, fp, made)
      invariant done > 0 ==> ElementCheck(types, to, from).None?
      invariant fresh(made)
    {
      elements := elements - 1;
      calls := calls + [(toAt, fromAt)];
      assert calls == Trace(to, from, done + 1);
      var step;
      step, toAt, fromAt, owners, made := CopyNext(types, to, out, toAt, from, fromStore, fromAt, done, owners, made, depth, fp);
      if step.Crash? {
        return Crash(step.failure), [], calls;
      }
      out := step.value;
      done := done + 1;
    }
    r := Done(out);
  }

  /**
   * One turn of the loop of `CopyArray`: copies element `done` and steps both
   * subscript vectors, keeping the copied prefix one element longer.
   */
  method CopyNext(types: TypeTable, to: Descriptor, out: seq<Element>, toAt: seq<int>,
                  from: Descriptor, fromStore: seq<Element>, fromAt: seq<int>,
                  ghost done: nat, ghost owners: seq<Ownership>, ghost made: Footprint,
                  ghost depth: nat, ghost fp: Footprint)
    returns (step: Outcome<seq<Element>>, toAt': seq<int>, fromAt': seq<int>,
             ghost owners': seq<Ownership>, ghost made': Footprint)
    requires done < Elements(to) == Elements(from) <= |fromStore| && Elements(to) <= |out|
    requires toAt == Walk(to, done) && fromAt == Walk(from, done)
    requires MatchesType(types, to, from) ==>
      forall k | 0 <= k < Elements(from) :: Conforms(types, to.addendum, fromStore[k], depth, fp)
    requires ElementsCopiedUpTo(types, to.addendum, out, fromStore, owners, depth, fp, made) && |owners| == done
    ensures step.Crash? <==> ElementCheck(types, to, from).Some?
    ensures step.Crash? ==> step.failure == ElementCheck(types, to, from).value
    ensures toAt' == Walk(to, done + 1) && fromAt' == Walk(from, done + 1)
    ensures step.Done? ==> |step.value| == |out| && |owners'| == done + 1
    ensures step.Done? ==> forall k | done < k < |out| :: step.value[k] == out[k]
    ensures step.Done? ==> ElementsCopiedUpTo(types, to.addendum, step.value, fromStore, owners', depth, fp, made')
    ensures fresh(made' - made) && made <= made'
    decreases depth, 3
  {
    WalkAddresses(to, done);
    WalkAddresses(from, done);
    ghost var owner;
    step, owner := CopyElement(types, to, out, toAt, from, fromStore, fromAt, depth, fp);
    owners', made' := owners, made;
    if step.Done? {
      ElementsCopiedExtends(types, to.addendum, out, step.value, fromStore, owners, owner, depth, fp, made);
      owners', made' := owners + [owner], made + Blocks(owner);
    }
    toAt' := IncrementSubscripts(to.dims, toAt);
    fromAt' := IncrementSubscripts(from.dims, fromAt);
    assert toAt' == Walk(to, done + 1) && fromAt' == Walk(from, done + 1);
  }

  /**
   * The first `|os|` elements of `ds` are deep copies of those of `ss`, the
   * blocks they own separate and all in `made`.
   */
  ghost predicate ElementsCopiedUpTo(types: TypeTable, view: Option<Addendum>, ds: seq<Element>, ss: seq<Element>,
                                     os: seq<Ownership>, depth: nat, fp: Footprint, made: Footprint)
    reads fp, made
  {
    |os| <= |ds| && |os| <= |ss| && AllBlocks(os) <= made && AllSeparate(os) &&
    forall k | 0 <= k < |os| :: Copied(types, view, ds[k], ss[k], depth, fp, os[k])
  }

  /** Copying element `|os|` with new blocks extends the copied prefix by one. */
  lemma ElementsCopiedExtends(types: TypeTable, view: Option<Addendum>, ds: seq<Element>, ds': seq<Element>,
                              ss: seq<Element>, os: seq<Ownership>, o: Ownership,
                              depth: nat, fp: Footprint, made: Footprint)
    requires ElementsCopiedUpTo(types, view, ds, ss, os, depth, fp, made)
    requires |os| < |ds| == |ds'| && |os| < |ss|
    requires forall k | 0 <= k < |ds| && k != |os| :: ds'[k] == ds[k]
    requires Copied(types, view, ds'[|os|], ss[|os|], depth, fp, o) && Separate(o) && Blocks(o) !! made
    ensures ElementsCopiedUpTo(types, view, ds', ss, os + [o], depth, fp, made + Blocks(o))
  {
    CopiedPrefixExtends(types, view, ds, ds', ss, os, o, depth, fp);
    SeparateExtends(os, o);
    AllBlocksExtends(os, o);
  }

  /** Copying element `|os|` extends a copied prefix by one. */
  lemma CopiedPrefixExtends(types: TypeTable, view: Option<Addendum>, ds: seq<Element>, ds': seq<Element>, ss: seq<Element>,
                            os: seq<Ownership>, o: Ownership, depth: nat, fp: Footprint)
    requires |os| < |ds| == |ds'| && |os| < |ss|
    requires forall k | 0 <= k < |os| :: Copied(types, view, ds[k], ss[k], depth, fp, os[k])
    requires forall k | 0 <= k < |ds| && k != |os| :: ds'[k] == ds[k]
    requires Copied(types, view, ds'[|os|], ss[|os|], depth, fp, o)
    ensures forall k | 0 <= k < |os| + 1 :: Copied(types, view, ds'[k], ss[k], depth, fp, (os + [o])[k])
  {
    forall k | 0 <= k < |os| + 1
      ensures Copied(types, view, ds'[k], ss[k], depth, fp, (os + [o])[k])
    {
      if k < |os| {
        assert (os + [o])[k] == os[k] && ds'[k] == ds[k];
      }
    }
  }

  /** Adding an ownership whose blocks are new keeps a list of ownerships separate. */
  lemma SeparateExtends(os: seq<Ownership>, o: Ownership)
    requires AllSeparate(os) && Separate(o) && AllBlocks(os) !! Blocks(o)
    ensures AllSeparate(os + [o])
  {
    var os' := os + [o];
    forall i, k | 0 <= i < k < |os'|
      ensures Blocks(os'[i]) !! Blocks(os'[k])
    {
      assert os'[i] == os[i];
      if k < |os| {
        assert os'[k] == os[k];
      } else {
        assert os'[k] == o;
      }
    }
    forall i | 0 <= i < |os'|
      ensures Separate(os'[i])
    {
      if i < |os| {
        assert os'[i] == os[i];
      }
    }
  }

  /** The blocks of a list of ownerships grown by one are the old ones and the new one's. */
  lemma AllBlocksExtends(os: seq<Ownership>, o: Ownership)
    ensures AllBlocks(os + [o]) <= AllBlocks(os) + Blocks(o)
  {
    var os' := os + [o];
    forall b | b in AllBlocks(os')
      ensures b in AllBlocks(os) + Blocks(o)
    {
      var i :| 0 <= i < |os'| && b in Blocks(os'[i]);
      if i < |os| {
        assert os'[i] == os[i];
      }
    }
  }

  // ----- Properties of deep copies ------------------------------------------

  /**
   * A deep copy of well-formed data is well-formed data whose owned storage
   * all lies in the blocks the copy made, so the copy can itself be copied.
   * The copy methods promise that those blocks are fresh, so the copy
   * shares no allocatable storage with anything that existed before.
   */
  lemma {:induction false} CopyOwnsItsStorage(types: TypeTable, view: Option<Addendum>, dst: Element, src: Element,
                                              depth: nat, fp: Footprint, o: Ownership, owned: Footprint)
    requires Conforms(types, view, src, depth, fp)
    requires Copied(types, view, dst, src, depth, fp, o)
    requires Blocks(o) <= owned
    ensures Conforms(types, view, dst, depth, owned)
    decreases depth, 1
  {
    match DeepType(types, view)
    case None =>
    case Some(t) =>
      var components := types(t).components;
      forall j | 0 <= j < |components|
        ensures SlotConforms(types, view, components[j], dst.slots[j], depth, owned)
      {
        SlotCopyOwnsItsStorage(types, view, components[j], dst.slots[j], src.slots[j], depth, fp, o.holdings[j], owned);
      }
  }

  lemma {:induction false} SlotCopyOwnsItsStorage(types: TypeTable, view: Option<Addendum>, c: Component, d: Slot, s: Slot,
                                                  depth: nat, fp: Footprint, h: Holding, owned: Footprint)
    requires SlotConforms(types, view, c, s, depth, fp)
    requires SlotCopied(types, view, c, d, s, depth, fp, h)
    requires HoldingBlocks(h) <= owned
    ensures SlotConforms(types, view, c, d, depth, owned)
    decreases depth, 0
  {
    if Allocated(c, s) {
      var from := s.desc.baseAddr.block;
      assert Elements(d.desc) == Elements(s.desc);
      forall i | 0 <= i < Elements(d.desc)
        ensures Conforms(types, d.desc.addendum, h.block[i], depth - 1, owned)
      {
        CopyOwnsItsStorage(types, s.desc.addendum, h.block[i], from[i], depth - 1, fp, h.owners[i], owned);
      }
    } else if IsDeepData(types, c) {
      var cd := ComponentDescriptor(types, c, view);
      forall i | 0 <= i < |d.elements|
        ensures Conforms(types, cd.addendum, d.elements[i], depth - 1, owned)
      {
        CopyOwnsItsStorage(types, cd.addendum, d.elements[i], s.elements[i], depth - 1, fp, h.owners[i], owned);
      }
    }
  }

  /**
   * Two allocated allocatable or automatic components of a copied element
   * end up with two different blocks: each gets storage of its own.
   */
  lemma ComponentsGetSeparateBlocks(types: TypeTable, view: Option<Addendum>, dst: Element, src: Element,
                                    depth: nat, fp: Footprint, o: Ownership, j: nat, k: nat)
    requires Copied(types, view, dst, src, depth, fp, o) && Separate(o)
    requires DeepType(types, view).Some?
    requires j < k < |src.slots| && k < |types(DeepType(types, view).value).components|
    requires Allocated(types(DeepType(types, view).value).components[j], src.slots[j])
    requires Allocated(types(DeepType(types, view).value).components[k], src.slots[k])
    ensures dst.slots[j].Embedded? && dst.slots[j].desc.baseAddr.Heap?
    ensures dst.slots[k].Embedded? && dst.slots[k].desc.baseAddr.Heap?
    ensures dst.slots[j].desc.baseAddr.block != dst.slots[k].desc.baseAddr.block
  {
  }
}

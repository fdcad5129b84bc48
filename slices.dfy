/** A Go slice as the slice views see it once the header read through
    `unsafe.Pointer` and the reflection calls are replaced by plain values. */
module Slices {
  import opened Machine

  /** The slice header (Data, Len, Cap), the element size, the two names the
      views print for the element type (`Type.Name()` and `Type.String()`)
      and the elements in [0, Len). */
  datatype Slice<T> = Slice(
    data: Uintptr,
    cap: nat,
    elemSize: Uintptr,
    elemName: string,
    elemString: string,
    elems: seq<T>)
  {
    function Len(): nat {
      |elems|
    }
  }

  /** `uintptr(i) * elemSize`: the offset of slot i from Data. */
  function SlotOffset<T>(s: Slice<T>, i: nat): (offset: Uintptr)
    ensures i * s.elemSize < WORD ==> offset == i * s.elemSize
  {
    Wrap(i * s.elemSize)
  }

  /** `Data + uintptr(i) * elemSize`: the address of slot i. The address less
      Data, in `uintptr` arithmetic, is the offset printed beside it. */
  function SlotAddress<T>(s: Slice<T>, i: nat): (address: Uintptr)
    ensures Wrap(address - s.data) == SlotOffset(s, i)
  {
    var offset := SlotOffset(s, i);
    WrapAdd(s.data + offset, -(s.data as int));
    Wrap(s.data + offset)
  }

  /** The backing array [Data, Data + Cap * elemSize) lies inside the address
      space, as it does for every slice the Go runtime hands out. */
  predicate FitsInAddressSpace<T>(s: Slice<T>) {
    s.data + s.cap * s.elemSize <= WORD
  }

  lemma MulMono(i: nat, c: nat, e: nat)
    requires i <= c
    ensures i * e <= c * e
  {
  }

  /** For a backing array inside the address space, no slot computation wraps:
      slot i sits exactly i element sizes after Data. */
  lemma SlotsAreExact<T>(s: Slice<T>, i: nat)
    requires FitsInAddressSpace(s) && i < s.cap
    ensures SlotOffset(s, i) == i * s.elemSize
    ensures SlotAddress(s, i) == s.data + i * s.elemSize
  {
    MulMono(i, s.cap, s.elemSize);
  }

  /** Slots are laid out back to back: each starts one element size after the
      one before it, and so, for a non-empty element type, no two coincide. */
  lemma SlotsAreContiguous<T>(s: Slice<T>, i: nat, j: nat)
    requires FitsInAddressSpace(s) && i < j < s.cap
    ensures SlotAddress(s, j) == SlotAddress(s, i) + (j - i) * s.elemSize
    ensures s.elemSize > 0 ==> SlotAddress(s, i) < SlotAddress(s, j)
  {
    SlotsAreExact(s, i);
    SlotsAreExact(s, j);
    assert j * s.elemSize == i * s.elemSize + (j - i) * s.elemSize;
    if s.elemSize > 0 {
      MulMono(1, j - i, s.elemSize);
    }
  }
}

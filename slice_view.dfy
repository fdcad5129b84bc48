/** The single-slice view (`VisualizeSlice`): the slice header, then one row
    per slot of the backing array, from slot 0 up to Cap. */
module SliceView {
  import opened Machine
  import opened Slices

  /** A slot row: an element slot below Len shows the element type's name and
      the element; a slot from Len up to Cap is printed as UNUSED. Both show
      the slot's address and its offset from Data. */
  datatype SlotRow<T> =
    | Used(elemName: string, value: T, address: Uintptr, offset: Uintptr)
    | Unused(address: Uintptr, offset: Uintptr)

  /** The header box (Data, Len, Cap) and the slot rows under it. */
  datatype SliceDiagram<T> = SliceDiagram(data: Uintptr, len: nat, cap: nat, slots: seq<SlotRow<T>>)

  /** The elements that the rows display, in row order. */
  function ShownValues<T>(rows: seq<SlotRow<T>>): (values: seq<T>)
    ensures |values| <= |rows|
  {
    if rows == [] then []
    else (if rows[0].Used? then [rows[0].value] else []) + ShownValues(rows[1..])
  }

  /** Builds the diagram of `s` the way the source prints it. */
  method VisualizeSlice<T>(s: Slice<T>) returns (d: SliceDiagram<T>)
    ensures d.data == s.data && d.len == s.Len() && d.cap == s.cap
    ensures |d.slots| == s.cap
    ensures forall i :: 0 <= i < |d.slots| ==>
      d.slots[i].address == SlotAddress(s, i) && d.slots[i].offset == SlotOffset(s, i)
    ensures forall i :: 0 <= i < |d.slots| ==> (d.slots[i].Used? <==> i < s.Len())
    ensures forall i :: 0 <= i < |d.slots| && d.slots[i].Used? ==>
      d.slots[i].value == s.elems[i] && d.slots[i].elemName == s.elemName
  {
    var rows: seq<SlotRow<T>> := [];
    var i := 0;
    while i < s.cap
      invariant i <= s.cap && |rows| == i
      invariant forall k :: 0 <= k < i ==>
        rows[k].address == SlotAddress(s, k) && rows[k].offset == SlotOffset(s, k)
      invariant forall k :: 0 <= k < i ==> (rows[k].Used? <==> k < s.Len())
      invariant forall k :: 0 <= k < i && rows[k].Used? ==>
        rows[k].value == s.elems[k] && rows[k].elemName == s.elemName
    {
      var address := Wrap(s.data + Wrap(i * s.elemSize));
      var offset := Wrap(i * s.elemSize);
      if i < s.Len() {
        rows := rows + [Used(s.elemName, s.elems[i], address, offset)];
      } else {
        rows := rows + [Unused(address, offset)];
      }
      i := i + 1;
    }
    d := SliceDiagram(s.data, s.Len(), s.cap, rows);
  }

  /** `min(x, n)`. */
  function Clamp(x: nat, n: nat): (r: nat)
    ensures r <= n && r <= x && (r == x || r == n)
  {
    if x < n then x else n
  }

  /** Row i shows a value exactly when from + i is below |elems|, and then
      shows element from + i. */
  ghost predicate ShowsFrom<T>(elems: seq<T>, rows: seq<SlotRow<T>>, from: nat) {
    (forall i :: 0 <= i < |rows| ==> (rows[i].Used? <==> from + i < |elems|)) &&
    (forall i :: 0 <= i < |rows| && from + i < |elems| ==> rows[i].value == elems[from + i])
  }

  lemma ShowsFromTail<T>(elems: seq<T>, rows: seq<SlotRow<T>>, from: nat)
    requires ShowsFrom(elems, rows, from) && rows != []
    ensures ShowsFrom(elems, rows[1..], from + 1)
    ensures rows[0].Used? <==> from < |elems|
    ensures from < |elems| ==> rows[0].value == elems[from]
  {
    var tail := rows[1..];
    forall i | 0 <= i < |tail|
      ensures tail[i].Used? <==> from + 1 + i < |elems|
      ensures from + 1 + i < |elems| ==> tail[i].value == elems[from + 1 + i]
    {
      assert tail[i] == rows[i + 1];
    }
  }

  /** Slot rows that show elements below Len and UNUSED from Len on display
      the elements from `from` up to min(from + |rows|, |elems|), in order,
      and nothing else. */
  lemma {:induction false} ShownValuesArePrefix<T>(elems: seq<T>, rows: seq<SlotRow<T>>, from: nat)
    requires ShowsFrom(elems, rows, from)
    ensures ShownValues(rows) == elems[Clamp(from, |elems|)..Clamp(from + |rows|, |elems|)]
    decreases |rows|
  {
    if rows != [] {
      var tail := rows[1..];
      ShowsFromTail(elems, rows, from);
      ShownValuesArePrefix(elems, tail, from + 1);
      var lo, hi := Clamp(from + 1, |elems|), Clamp(from + |rows|, |elems|);
      assert ShownValues(tail) == elems[lo..hi];
      if from < |elems| {
        assert ShownValues(rows) == [elems[from]] + elems[lo..hi];
        assert [elems[from]] + elems[lo..hi] == elems[from..hi];
      } else {
        assert ShownValues(rows) == ShownValues(tail);
      }
    }
  }

  /** The single view shows each element once, in order: the first
      min(Len, Cap) elements of the slice. */
  lemma DiagramShowsElements<T>(s: Slice<T>, d: SliceDiagram<T>)
    requires |d.slots| == s.cap
    requires forall i :: 0 <= i < |d.slots| ==> (d.slots[i].Used? <==> i < s.Len())
    requires forall i :: 0 <= i < |d.slots| && i < s.Len() ==> d.slots[i].value == s.elems[i]
    ensures ShownValues(d.slots) == s.elems[..if s.cap < s.Len() then s.cap else s.Len()]
  {
    ShownValuesArePrefix(s.elems, d.slots, 0);
    assert Clamp(0, s.Len()) == 0;
  }
}

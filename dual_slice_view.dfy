/** The side-by-side view of two slices (`Visualize2Slices`): both headers,
    then one row per index below the longer length, each row showing the
    element of each slice that has one, then a footer that closes the boxes
    still open. */
module DualSliceView {
  import opened Machine
  import opened Slices

  /** The larger of two lengths (`max`). */
  function Max(a: int, b: int): (m: int)
    ensures m >= a && m >= b
    ensures m == a || m == b
  {
    if a > b then a else b
  }

  /** What a side shows for an element: `(type) value`, or the empty string
      that the element helper leaves for an index past the end. */
  datatype Display<T> = NoDisplay | Shown(elemString: string, value: T)

  /** The (address, display) pair the element helper returns. */
  datatype Cell<T> = Cell(address: Uintptr, display: Display<T>)

  /** The element helper `printElem`: the address and display of element
      `idx`, or the zero address and empty display when `idx` is past Len. */
  function PrintElem<T>(s: Slice<T>, idx: nat): (c: Cell<T>)
    ensures c.display.Shown? <==> idx < s.Len()
    ensures idx < s.Len() ==>
      c.address == SlotAddress(s, idx) &&
      c.display == Shown(s.elemString, s.elems[idx])
    ensures idx >= s.Len() ==> c == Cell(0, NoDisplay)
  {
    if idx < s.Len() then Cell(Wrap(s.data + Wrap(idx * s.elemSize)), Shown(s.elemString, s.elems[idx]))
    else Cell(0, NoDisplay)
  }

  /** The five row shapes of the if-chain, in the order it tests them. */
  datatype DualRow<T> =
    | LeftRightClosed(left: Cell<T>)    // i == len2: left element, bottom of the right box
    | LeftClosedRight(right: Cell<T>)   // i == len1: bottom of the left box, right element
    | LeftOnly(left: Cell<T>)           // i > len2: left element alone
    | RightOnly(right: Cell<T>)         // i > len1: right element alone
    | Both(left: Cell<T>, right: Cell<T>)

  /** The last line: closes both boxes, only the left one, or only the right one. */
  datatype Footer = CloseBoth | CloseLeft | CloseRight

  datatype DualDiagram<T> = DualDiagram(
    data1: Uintptr, len1: nat, cap1: nat,
    data2: Uintptr, len2: nat, cap2: nat,
    rows: seq<DualRow<T>>, footer: Footer)

  /** What one side of one row shows: an element, the bottom border of its
      box, or nothing. */
  datatype Column<T> = Entry(cell: Cell<T>) | BoxBottom | Blank

  function LeftColumn<T>(row: DualRow<T>): Column<T> {
    match row
    case LeftRightClosed(left) => Entry(left)
    case LeftClosedRight(_) => BoxBottom
    case LeftOnly(left) => Entry(left)
    case RightOnly(_) => Blank
    case Both(left, _) => Entry(left)
  }

  function RightColumn<T>(row: DualRow<T>): Column<T> {
    match row
    case LeftRightClosed(_) => BoxBottom
    case LeftClosedRight(right) => Entry(right)
    case LeftOnly(_) => Blank
    case RightOnly(right) => Entry(right)
    case Both(_, right) => Entry(right)
  }

  /** Side by side, each slice is drawn as its own column: element i while
      i < Len, the bottom of its box at i == Len, and nothing below that. */
  function ExpectedColumn<T>(s: Slice<T>, i: nat): Column<T> {
    if i < s.Len() then Entry(PrintElem(s, i))
    else if i == s.Len() then BoxBottom
    else Blank
  }

  /** The footer `switch` on the two lengths. */
  function FooterFor(len1: nat, len2: nat): (f: Footer)
    ensures f == CloseBoth <==> len1 == len2
    ensures f == CloseLeft <==> len1 > len2
    ensures f == CloseRight <==> len2 > len1
  {
    if len1 == len2 then CloseBoth
    else if len1 > len2 then CloseLeft
    else CloseRight
  }

  /** Builds the side-by-side diagram the way the source prints it. */
  method Visualize2Slices<T>(s1: Slice<T>, s2: Slice<T>) returns (d: DualDiagram<T>)
    ensures d.data1 == s1.data && d.len1 == s1.Len() && d.cap1 == s1.cap
    ensures d.data2 == s2.data && d.len2 == s2.Len() && d.cap2 == s2.cap
    ensures |d.rows| == Max(s1.Len(), s2.Len())
    ensures forall i :: 0 <= i < |d.rows| ==>
      LeftColumn(d.rows[i]) == ExpectedColumn(s1, i) &&
      RightColumn(d.rows[i]) == ExpectedColumn(s2, i)
    ensures forall i :: 0 <= i < |d.rows| ==>
      (d.rows[i].Both? <==> i < s1.Len() && i < s2.Len())
    ensures d.footer == FooterFor(s1.Len(), s2.Len())
  {
    var len1, len2 := s1.Len(), s2.Len();
    var maxLen := Max(len1, len2);
    var rows: seq<DualRow<T>> := [];
    var i := 0;
    while i < maxLen
      invariant i <= maxLen && |rows| == i
      invariant forall k :: 0 <= k < i ==>
        LeftColumn(rows[k]) == ExpectedColumn(s1, k) &&
        RightColumn(rows[k]) == ExpectedColumn(s2, k)
      invariant forall k :: 0 <= k < i ==> (rows[k].Both? <==> k < len1 && k < len2)
    {
      var cell1 := PrintElem(s1, i);
      var cell2 := PrintElem(s2, i);
      var row;
      if i == len2 {
        row := LeftRightClosed(cell1);
      } else if i == len1 {
        row := LeftClosedRight(cell2);
      } else if i > len2 {
        row := LeftOnly(cell1);
      } else if i > len1 {
        row := RightOnly(cell2);
      } else {
        row := Both(cell1, cell2);
      }
      rows := rows + [row];
      i := i + 1;
    }
    d := DualDiagram(s1.data, len1, s1.cap, s2.data, len2, s2.cap, rows, FooterFor(len1, len2));
  }

  /** The rows and footer of a side-by-side diagram, as the method promises them. */
  ghost predicate Describes<T>(s1: Slice<T>, s2: Slice<T>, d: DualDiagram<T>) {
    |d.rows| == Max(s1.Len(), s2.Len()) &&
    (forall i :: 0 <= i < |d.rows| ==>
      LeftColumn(d.rows[i]) == ExpectedColumn(s1, i) &&
      RightColumn(d.rows[i]) == ExpectedColumn(s2, i)) &&
    d.footer == FooterFor(s1.Len(), s2.Len())
  }

  /** Every element cell that is printed belongs to an element that exists:
      it never carries the helper's zero address or empty display, and it
      shows each element of each slice exactly at its own index. */
  lemma PrintedCellsAreElements<T>(s1: Slice<T>, s2: Slice<T>, d: DualDiagram<T>, i: nat)
    requires Describes(s1, s2, d) && i < |d.rows|
    ensures LeftColumn(d.rows[i]).Entry? <==> i < s1.Len()
    ensures RightColumn(d.rows[i]).Entry? <==> i < s2.Len()
    ensures LeftColumn(d.rows[i]).Entry? ==>
      LeftColumn(d.rows[i]).cell == Cell(SlotAddress(s1, i), Shown(s1.elemString, s1.elems[i]))
    ensures RightColumn(d.rows[i]).Entry? ==>
      RightColumn(d.rows[i]).cell == Cell(SlotAddress(s2, i), Shown(s2.elemString, s2.elems[i]))
  {
  }

  /** Each box is closed exactly once: by a row when the other slice is
      longer, by the footer otherwise, and never by both. */
  lemma BoxesCloseOnce<T>(s1: Slice<T>, s2: Slice<T>, d: DualDiagram<T>)
    requires Describes(s1, s2, d)
    ensures d.footer != CloseRight <==> forall i :: 0 <= i < |d.rows| ==> LeftColumn(d.rows[i]) != BoxBottom
    ensures d.footer != CloseLeft <==> forall i :: 0 <= i < |d.rows| ==> RightColumn(d.rows[i]) != BoxBottom
    ensures forall i, j :: 0 <= i < j < |d.rows| ==>
      !(LeftColumn(d.rows[i]) == LeftColumn(d.rows[j]) == BoxBottom) &&
      !(RightColumn(d.rows[i]) == RightColumn(d.rows[j]) == BoxBottom)
  {
    var len1, len2 := s1.Len(), s2.Len();
    if len2 > len1 {
      assert LeftColumn(d.rows[len1]) == BoxBottom;
    }
    if len1 > len2 {
      assert RightColumn(d.rows[len2]) == BoxBottom;
    }
  }

  /** Slices of equal length are drawn with the "both" row throughout and
      closed together by the footer. */
  lemma EqualLengthsPairUp<T>(s1: Slice<T>, s2: Slice<T>, d: DualDiagram<T>)
    requires Describes(s1, s2, d) && s1.Len() == s2.Len()
    ensures |d.rows| == s1.Len() && d.footer == CloseBoth
    ensures forall i :: 0 <= i < |d.rows| ==> d.rows[i].Both?
  {
    forall i | 0 <= i < |d.rows|
      ensures d.rows[i].Both?
    {
      assert LeftColumn(d.rows[i]).Entry? && RightColumn(d.rows[i]).Entry?;
    }
  }
}

/** The struct view (`VisualizeStruct`): after dereferencing one pointer, a
    table with one row per field giving its name, address, value, type, size
    and the padding before it. */
module StructView {
  import opened Machine

  /** A field as reflection reports it: its name, address, size, type, the
      `fmt.Sprint` rendering of its value and whether it is exported (only an
      exported field can be read through `Interface()`). */
  datatype Field = Field(
    name: string,
    address: Uintptr,
    size: Uintptr,
    typeString: string,
    rendered: seq<Byte>,
    exported: bool)

  /** The value handed to the view: a struct (with its type name and fields),
      a pointer to some value, a nil pointer, or a value of another kind. */
  datatype Value =
    | StructValue(typeName: string, fields: seq<Field>)
    | Pointer(target: Value)
    | NilPointer
    | Other(kind: string)

  /** A table row: name, address, (possibly shortened) value, type, size, padding. */
  datatype FieldRow = FieldRow(
    name: string,
    address: Uintptr,
    value: seq<Byte>,
    typeString: string,
    size: Uintptr,
    padding: Uintptr)

  /** Why the table stops with a Go panic: `UnsafeAddr` on a field of a struct
      that was passed by value (not addressable), or `Interface` on an
      unexported field. */
  datatype PanicReason = UnaddressableField | UnexportedField

  /** What the view prints: the "not a struct" message alone; the whole
      table; or the rows printed before a panic. */
  datatype StructReport =
    | NotAStruct
    | Table(structName: string, rows: seq<FieldRow>)
    | Aborted(structName: string, rows: seq<FieldRow>, reason: PanicReason)

  const DOT: Byte := 0x2E

  /** `val.Elem()` applied once when `v` is a pointer; a nil pointer
      dereferences to the invalid value, which is not a struct. */
  function Deref(v: Value): (r: Value)
    ensures r.StructValue? <==> v.StructValue? || (v.Pointer? && v.target.StructValue?)
    ensures v.NilPointer? ==> r == NilPointer
  {
    match v
    case Pointer(target) => target
    case _ => v
  }

  /** The displayed value: longer than 8 bytes becomes the first 5 and "...". */
  function TruncateValue(v: seq<Byte>): (r: seq<Byte>)
    ensures |r| <= 8
    ensures |v| <= 8 ==> r == v
    ensures |v| > 8 ==> |r| == 8 && r[..5] == v[..5] && r[5..] == [DOT, DOT, DOT]
  {
    if |v| > 8 then v[..5] + [DOT, DOT, DOT] else v
  }

  /** `addr + size`: where a field ends. */
  function FieldEnd(f: Field): Uintptr {
    Wrap(f.address + f.size)
  }

  /** The padding printed before field i: 0 for the first field, otherwise
      the unsigned difference between its address and the end of field i-1. */
  function Padding(fields: seq<Field>, i: nat): (p: Uintptr)
    requires i < |fields|
    ensures i == 0 ==> p == 0
    ensures i > 0 ==> Wrap(FieldEnd(fields[i - 1]) + p) == fields[i].address
  {
    if i == 0 then 0
    else
      var gap := fields[i].address - FieldEnd(fields[i - 1]);
      WrapAdd(gap, FieldEnd(fields[i - 1]));
      Wrap(gap)
  }

  /** The row the table prints for field i. */
  function RowFor(fields: seq<Field>, i: nat): FieldRow
    requires i < |fields|
  {
    var f := fields[i];
    FieldRow(f.name, f.address, TruncateValue(f.rendered), f.typeString, f.size, Padding(fields, i))
  }

  /** Builds the report the way the source prints it. */
  method VisualizeStruct(v: Value) returns (r: StructReport)
    ensures r.NotAStruct? <==> !Deref(v).StructValue?
    ensures !r.NotAStruct? ==>
      var fields := Deref(v).fields;
      r.structName == Deref(v).typeName &&
      |r.rows| <= |fields| &&
      (forall k :: 0 <= k < |r.rows| ==> fields[k].exported && r.rows[k] == RowFor(fields, k))
    ensures r.Table? <==>
      Deref(v).StructValue? &&
      (Deref(v).fields == [] || (v.Pointer? && AllExported(Deref(v).fields)))
    ensures r.Table? ==> |r.rows| == |Deref(v).fields|
    ensures r.Aborted? ==>
      |r.rows| < |Deref(v).fields| &&
      (r.reason == UnaddressableField <==> !v.Pointer?) &&
      (r.reason == UnaddressableField ==> r.rows == []) &&
      (r.reason == UnexportedField ==> !Deref(v).fields[|r.rows|].exported)
  {
    var val := v;
    var addressable := false;
    if val.Pointer? {
      val := val.target;
      addressable := true;
    }
    if !val.StructValue? {
      return NotAStruct;
    }
    r := FieldTable(val.typeName, val.fields, addressable);
  }

  /** Every field can be read through `Interface()`. */
  predicate AllExported(fields: seq<Field>) {
    forall k :: 0 <= k < |fields| ==> fields[k].exported
  }

  /** Each row is the row of the field at its index, and that field is exported. */
  ghost predicate RowsMatch(fields: seq<Field>, rows: seq<FieldRow>) {
    |rows| <= |fields| &&
    forall k {:trigger rows[k]} :: 0 <= k < |rows| ==> fields[k].exported && rows[k] == RowFor(fields, k)
  }

  lemma RowsMatchSnoc(fields: seq<Field>, rows: seq<FieldRow>, row: FieldRow)
    requires RowsMatch(fields, rows) && |rows| < |fields|
    requires fields[|rows|].exported && row == RowFor(fields, |rows|)
    ensures RowsMatch(fields, rows + [row])
  {
    var all := rows + [row];
    forall k | 0 <= k < |all|
      ensures fields[k].exported && all[k] == RowFor(fields, k)
    {
      if k < |rows| {
        assert all[k] == rows[k];
      }
    }
  }

  lemma RowsMatchMeans(fields: seq<Field>, rows: seq<FieldRow>)
    requires RowsMatch(fields, rows)
    ensures forall k :: 0 <= k < |rows| ==> fields[k].exported && rows[k] == RowFor(fields, k)
  {
    forall k | 0 <= k < |rows| ensures fields[k].exported && rows[k] == RowFor(fields, k) {
      assert rows[k] == RowFor(fields, k);
    }
  }

  /** A row for every field means every field was exported. */
  lemma RowsMatchAll(fields: seq<Field>, rows: seq<FieldRow>)
    requires RowsMatch(fields, rows) && |rows| == |fields|
    ensures AllExported(fields)
  {
    forall k | 0 <= k < |fields| ensures fields[k].exported {
      assert rows[k] == RowFor(fields, k);
    }
  }

  /** The loop over the fields of a struct named `structName`, reached
      through a pointer exactly when `addressable` holds. */
  method FieldTable(structName: string, fields: seq<Field>, addressable: bool) returns (r: StructReport)
    ensures !r.NotAStruct? && r.structName == structName
    ensures |r.rows| <= |fields|
    ensures forall k :: 0 <= k < |r.rows| ==> fields[k].exported && r.rows[k] == RowFor(fields, k)
    ensures r.Table? <==> fields == [] || (addressable && AllExported(fields))
    ensures r.Table? ==> |r.rows| == |fields|
    ensures r.Aborted? ==>
      |r.rows| < |fields| &&
      (r.reason == UnaddressableField <==> !addressable) &&
      (r.reason == UnaddressableField ==> r.rows == []) &&
      (r.reason == UnexportedField ==> !fields[|r.rows|].exported)
  {
    var rows: seq<FieldRow> := [];
    var prevFieldEnd: Uintptr := 0;
    var i := 0;
    while i < |fields|
      invariant i <= |fields| && |rows| == i
      invariant RowsMatch(fields, rows)
      invariant i > 0 ==> prevFieldEnd == FieldEnd(fields[i - 1]) && addressable
    {
      var field := fields[i];
      var size := field.size;
      if !addressable {
        return Aborted(structName, rows, UnaddressableField);
      }
      var addr := field.address;
      var padding: Uintptr := 0;
      if i != 0 {
        padding := Wrap(addr - prevFieldEnd);
      }
      prevFieldEnd := Wrap(addr + size);
      if !field.exported {
        RowsMatchMeans(fields, rows);
        return Aborted(structName, rows, UnexportedField);
      }
      var valueStr := field.rendered;
      if |valueStr| > 8 {
        valueStr := valueStr[..5] + [DOT, DOT, DOT];
      }
      var row := FieldRow(field.name, addr, valueStr, field.typeString, size, padding);
      assert row == RowFor(fields, i) by {
        assert valueStr == TruncateValue(field.rendered);
        assert padding == Padding(fields, i);
      }
      RowsMatchSnoc(fields, rows, row);
      rows := rows + [row];
      i := i + 1;
    }
    RowsMatchAll(fields, rows);
    return Table(structName, rows);
  }

  /** Fields in increasing address order, none overlapping the next. */
  ghost predicate InOrder(fields: seq<Field>) {
    forall k :: 0 < k < |fields| ==> fields[k - 1].address + fields[k - 1].size <= fields[k].address
  }

  /** When field i-1 ends no later than field i starts, the padding is
      exactly the gap: the end of field i-1 plus the padding is the address
      of field i. */
  lemma PaddingFillsGap(fields: seq<Field>, i: nat)
    requires 0 < i < |fields|
    requires fields[i - 1].address + fields[i - 1].size <= fields[i].address
    ensures FieldEnd(fields[i - 1]) + Padding(fields, i) == fields[i].address
  {
    assert FieldEnd(fields[i - 1]) == fields[i - 1].address + fields[i - 1].size;
  }

  /** When a field starts before the previous one ends, the subtraction wraps
      around and the padding shown is 2^64 minus the overlap. */
  lemma PaddingWrapsOnOverlap(fields: seq<Field>, i: nat)
    requires 0 < i < |fields| && fields[i].address < FieldEnd(fields[i - 1])
    ensures Padding(fields, i) == WORD - (FieldEnd(fields[i - 1]) - fields[i].address)
  {
  }

  /** Bytes from the start of field 0 to the start of field k, counted as the
      table does: each earlier field's size plus the padding after it. */
  function Span(fields: seq<Field>, k: nat): int
    requires k < |fields|
  {
    if k == 0 then 0 else Span(fields, k - 1) + fields[k - 1].size + Padding(fields, k)
  }

  /** In a layout in increasing order the sizes and paddings of the table add
      up: field k starts Span(fields, k) bytes after field 0. */
  lemma {:induction false} LayoutTelescopes(fields: seq<Field>, k: nat)
    requires InOrder(fields) && k < |fields|
    ensures fields[k].address == fields[0].address + Span(fields, k)
  {
    if k > 0 {
      LayoutTelescopes(fields, k - 1);
      PaddingFillsGap(fields, k);
    }
  }
}

# gogoinspect, modelled in Dafny

gogoinspect draws ASCII diagrams of how Go lays out values in memory:

- a slice: its header (Data, Len, Cap) and one row per slot of the backing array;
- two slices side by side;
- a string: its header (Data, Len) and one row per byte, walked character by
  character with a lead-byte decoder;
- a struct: one row per field with address, value, type, size and padding.

This project models the computational core of `gogoinspect.go`. That is the
address arithmetic, the row layout and the choice of rows and footers. The
header reads through `unsafe.Pointer` and the reflection calls become plain
inputs. The diagram becomes a sequence of row values, not printed text.

Conventions:

- `uintptr` is an integer in [0, 2^64). Every address, offset and padding
  computation wraps modulo 2^64 through `Machine.Wrap`, as Go's unsigned
  arithmetic does.
- Go runtime panics are outcomes, not preconditions. The lead-byte decoder
  panics on an empty string or a character cut short (`IndexPanic`). The string
  walk then ends `Panicked`. The struct view ends `Aborted` when `UnsafeAddr`
  meets a struct passed by value or `Interface` meets an unexported field.
- At a UTF-8 continuation byte the decoder returns width 0. From then on the
  source prints the same row forever. The walk model ends with `Looping`, which
  carries that repeated row.

Three behaviours of the code worth stating up front:

- A continuation byte at the start of a character is not rejected. The
  decoder returns `("", 0)` and the loop prints the same row forever
  (`Looping`).
- Fields out of address order are not rejected. `addr - prevFieldEnd` is a
  `uintptr` subtraction, so the padding wraps to 2^64 minus the overlap
  (`StructView.PaddingWrapsOnOverlap`).
- The 8-byte limit on a shown value counts and cuts bytes, not characters.

Modules:

- `machine.dfy` holds `uintptr` and byte.
- `byte_sequence.dfy` holds the lead-byte decoder.
- `string_view.dfy` holds the string view.
- `slices.dfy` holds the slice descriptor and slot addresses.
- `slice_view.dfy` holds the single-slice view.
- `dual_slice_view.dfy` holds `max` and the side-by-side view.
- `struct_view.dfy` holds the struct view.

## Model

| member | source | states |
|---|---|---|
| `ByteSequence.LeadWidthFollowsRfc3629` | gogoinspect.go:158-168 | The lead-byte ranges agree with the UTF-8 bit patterns of RFC 3629 section 3. Width 0 holds exactly for continuation bytes 10xxxxxx, width 1 for 0xxxxxxx, width 2 for 110xxxxx and width 3 for 1110xxxx. Width 4 holds for 11110xxx and also for 0xF8..0xFF. |
| `ByteSequence.LeadWidth` | gogoinspect.go:159-167 | The width the switch picks for a first byte is at most 4, and it is 0 exactly for the bytes 0x80..0xBF that no case matches. |
| `ByteSequence.ByteSequenceRepresentation` | gogoinspect.go:156-169 | It panics exactly on an empty string or when fewer bytes remain than the lead byte's width. Otherwise bytesRead is that width, and it never exceeds the bytes left. |
| `ByteSequence.DoubleQuoted` | gogoinspect.go:162-166 | `"` + subs[:n] + `"` panics exactly when fewer than n bytes remain; otherwise it reads n bytes and its glyph is n + 2 bytes long. |
| `ByteSequence.RepresentationQuotesBytes` | gogoinspect.go:159-168 | For a width n ≥ 1 the glyph quotes exactly the first n bytes, in single quotes for n = 1 and double quotes otherwise. A continuation byte gives the empty glyph. The glyph is 3 bytes long exactly when n = 1. |
| `StringView.Column` | gogoinspect.go:142-146 | The glyph column is 12 wide exactly when the glyph is 3 bytes long, and 11 wide otherwise. |
| `StringView.CharacterRows` | gogoinspect.go:142-149 | The rows of one character of width n: its glyph row at the character's address, then n - 1 blank rows at the following addresses. |
| `StringView.VisualizeString` | gogoinspect.go:138-152 | The header keeps Data and Len, and the body is what the walk defines. Every row printed is right: one row per byte, row k at Data + k (wrapping), each glyph quoting the bytes of the character it starts, the rows of that character's further bytes blank, so characters are contiguous and never overlap, and all glyphs together spelling out the bytes covered. The walk completes exactly when every character it reaches starts with a lead byte and fits in the string, and it then prints Len rows. When it panics, the next character is cut short by the end of the string. When it loops, the next byte is a continuation byte, and the repeated row is the empty glyph row at that byte's address. |
| `StringView.Walk` | gogoinspect.go:138-152 | The walk resumed after `rows` keeps them as a prefix of what it prints, and never prints more rows than the string has bytes. |
| `StringView.WalkString` | gogoinspect.go:138-152 | The loop prints, character by character, exactly the rows and the ending that the walk from offset 0 defines: rows up to the end of the string, up to a decoder panic, or up to the first width-0 character, whose row then repeats. |
| `StringView.WalkRowsCorrect` | gogoinspect.go:139-151 | Resumed from correct rows, the walk only adds correct rows: row k at Data + k, each glyph quoting the bytes of its character with blank rows for that character's further bytes, all glyphs spelling out the bytes covered. |
| `StringView.CharactersDoNotOverlap` | gogoinspect.go:142-149 | In correct rows a later glyph row lies at or past the end of the previous character, so characters never overlap. |
| `StringView.WalkRendersIff` | gogoinspect.go:138-152 | The walk reaches the end of the string if and only if every character from the current offset starts with a lead byte and fits; it then has printed one row per byte. |
| `StringView.WalkPanicsOnlyWhenCut` | gogoinspect.go:140-141 | The walk panics only where the next character is cut short by the end of the string. |
| `StringView.WalkLoopsOnlyAtContinuation` | gogoinspect.go:140-151 | The walk stops advancing only at a continuation byte, and the row it repeats is the empty glyph row at that byte's address. |
| `StringView.WalkDescribesString` | gogoinspect.go:138-152 | The four facts above, for the walk from offset 0. |
| `StringView.AppendSegment` | gogoinspect.go:140-151 | Appending the rows of the next character to correct rows keeps them correct and advances by that character's width. |
| `StringView.EveryByteAddressShownOnce` | gogoinspect.go:140-148 | When the string fits in the address space, a completed walk shows Data + k for every byte k, in strictly increasing order, so each address appears exactly once. |
| `StringView.SegmentableConcat` | gogoinspect.go:139-151 | Joining two strings that each walk to the end gives a string that walks to the end. |
| `Slices.SlotOffset` | gogoinspect.go:107 | The offset is `uintptr(i) * elemSize`; when that product is below 2^64 it is exact. |
| `Slices.SlotAddress` | gogoinspect.go:106 | The address less Data, in `uintptr` arithmetic, is the offset printed beside it. |
| `Slices.SlotsAreExact` | gogoinspect.go:104-107 | When the backing array fits in the address space, slot i's offset is exactly i * elemSize and its address exactly Data + i * elemSize; nothing wraps. |
| `Slices.SlotsAreContiguous` | gogoinspect.go:104-107 | Slot j lies (j - i) * elemSize bytes after slot i. For a non-empty element type, later slots have strictly larger addresses. |
| `SliceView.VisualizeSlice` | gogoinspect.go:104-114 | There are exactly Cap slot rows. Row i shows address Data + i*elemSize and offset i*elemSize, both in `uintptr` arithmetic. A row shows a value exactly when i < Len; that value is element i with the element type's name. All other rows are UNUSED. |
| `SliceView.DiagramShowsElements` | gogoinspect.go:105-112 | The values the rows show are the first min(Len, Cap) elements, in order, each once. |
| `DualSliceView.Max` | gogoinspect.go:119-124 | The result is at least each argument and is one of them. |
| `DualSliceView.PrintElem` | gogoinspect.go:42-49 | The element helper shows a display exactly when idx < Len. It then gives element idx's slot address, its type string and its value. Otherwise it gives address 0 and no display. |
| `DualSliceView.FooterFor` | gogoinspect.go:71-82 | Exactly one footer applies. Both boxes close iff len1 == len2, only the left iff len1 > len2, and only the right iff len2 > len1. |
| `DualSliceView.Visualize2Slices` | gogoinspect.go:40-82 | The loop prints exactly max(len1, len2) rows. The if-chain gives row i, on each side, element i while i < Len, the bottom of that side's box at i == Len, and nothing after. The "both" row appears exactly when i is below both lengths. The footer is the one the length comparison picks. |
| `DualSliceView.PrintedCellsAreElements` | gogoinspect.go:42-68 | A side shows an element exactly when i is below that side's Len, so the helper's zero-address empty cell is never printed. Any shown cell is element i at its own slot address. |
| `DualSliceView.BoxesCloseOnce` | gogoinspect.go:54-82 | Each box is closed exactly once. The footer closes the left box iff no row does, and the right box iff no row does. No box is closed by two rows. |
| `DualSliceView.EqualLengthsPairUp` | gogoinspect.go:54-82 | With equal lengths every row is a "both" row, there are Len of them, and the footer closes both boxes. |
| `StructView.Deref` | gogoinspect.go:172-175 | Exactly one dereference: the result is a struct iff the value is a struct or a pointer to a struct; a nil pointer stays non-struct. |
| `StructView.Padding` | gogoinspect.go:201-205 | Field 0 has padding 0. For a later field, the end of the previous field plus the padding, in `uintptr` arithmetic, is the field's address. |
| `StructView.TruncateValue` | gogoinspect.go:208-211 | A value of at most 8 bytes is shown unchanged. A longer one is shown as its first 5 bytes and "...", exactly 8 bytes. So a shown value never exceeds 8 bytes. |
| `StructView.VisualizeStruct` | gogoinspect.go:171-220 | A pointer is dereferenced once. Only a value that is still not a struct gives the "not a struct" message. Otherwise the struct's name heads the table and row k is field k's row. The whole table is printed iff the struct has no fields, or it was reached through a pointer and every field is exported. Otherwise printing stops with a panic: at field 0 with no rows when the struct was passed by value (`UnsafeAddr`), or at the first unexported field (`Interface`). |
| `StructView.FieldTable` | gogoinspect.go:195-215 | The field loop carries prevFieldEnd as the end of the previous field. Each printed row shows the field's name, address, truncated value, type, size and padding: 0 for field 0, and the unsigned difference from the previous field's end after that. It stops at the first field whose address cannot be taken or whose value cannot be read. |
| `StructView.PaddingFillsGap` | gogoinspect.go:201-206 | When field i-1 ends no later than field i starts, the previous field's end plus the padding is exactly the field's address, with no wrap-around. |
| `StructView.PaddingWrapsOnOverlap` | gogoinspect.go:203-205 | When a field starts before the previous one ends, the padding wraps to 2^64 minus the overlap rather than going negative. |
| `StructView.LayoutTelescopes` | gogoinspect.go:195-206 | For fields in increasing address order, field k starts after field 0 by exactly the sizes of the earlier fields plus the paddings shown between them. |

## Left out

- Reading the slice and string headers through `unsafe.Pointer` and reading
  field addresses through `UnsafeAddr` (gogoinspect.go:10-11, 88, 127, 200).
  These are runtime memory reads. Data, Len, Cap and field addresses are
  inputs.
- Reflection: `Kind`, `Elem`, `NumField`, `Field(i)`, `Type().Size()`,
  `Type().Name()` and `Type().String()`. Each is runtime introspection. Its
  results are fields of the `Slice`, `Field` and `Value` inputs. This includes
  `CanInterface`, which appears as `Field.exported`.
- `fmt` rendering. The struct view's `%v` text is the input `Field.rendered`.
  The slice views keep the element value itself. Hex digits, column widths,
  the fixed header and border lines, and the closing empty line are not
  modelled. The 11- or 12-wide glyph column is kept.
- The per-character border line after each character in the string view. It
  is fixed text and follows every character's rows, so it is not stored.
- `StringView.VisualizeString`: when the walk reaches a continuation byte the
  source never terminates. The model returns `Looping` with the row the source
  would repeat, instead of running forever.
- `unsafe.Sizeof(slice[0])` (gogoinspect.go:104). In the generic
  `VisualizeSlice[T any]` the operand's type is a type parameter, so this is
  not a constant expression; but `Sizeof` never evaluates its operand, so an
  empty slice does not panic. The element size is an input.
- The driver `main.go` and `append` with its reallocation and aliasing.
  `main.go` only builds sample values, and the aliasing is runtime behaviour
  that the core never implements. main.go is not part of this model.
- Go's guarantee that Len ≤ Cap is not assumed. The views are stated for any
  Len and Cap.

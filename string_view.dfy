/** The text view (`VisualizeString`): the string's header, then one row per
    byte address, walking the string character by character from offset 0. */
module StringView {
  import opened Machine
  import opened ByteSequence

  /** A row of the text body. The first byte of a character carries its glyph,
      printed in a column 12 wide when the glyph is 3 bytes long and 11 wide
      otherwise; each further byte of the character gets a blank row that still
      shows its own address. A border line follows the rows of every character. */
  datatype TextRow =
    | Glyph(address: Uintptr, glyph: seq<Byte>, column: nat)
    | Continuation(address: Uintptr)

  /** How the walk ends: it reaches the end of the string; or the decoder
      panics (a character cut short by the end of the string); or the decoder
      returns width 0 at a continuation byte, after which the source prints
      `repeated` again and again without advancing. `rows` are the rows
      printed before that. */
  datatype TextOutcome =
    | Rendered(rows: seq<TextRow>)
    | Panicked(rows: seq<TextRow>)
    | Looping(rows: seq<TextRow>, repeated: TextRow)

  /** The whole diagram: the header (Data and Len of the string) and the body. */
  datatype StringDiagram = StringDiagram(data: Uintptr, len: nat, body: TextOutcome)

  /** The width of the glyph column: 12 for a quoted single byte, 11 otherwise. */
  function Column(glyph: seq<Byte>): (w: nat)
    ensures w == 12 <==> |glyph| == 3
    ensures w == 11 <==> |glyph| != 3
  {
    if |glyph| == 3 then 12 else 11
  }

  /** Every character the walk from offset `i` reaches starts with a lead byte
      and is not cut short by the end of the string. */
  ghost predicate Segmentable(s: seq<Byte>, i: nat)
    requires i <= |s|
    decreases |s| - i
  {
    i == |s| ||
    (var n := LeadWidth(s[i]); 1 <= n && i + n <= |s| && Segmentable(s, i + n))
  }

  /** The bytes a row stands for: a glyph row its character's bytes, a blank row none. */
  function Payload(row: TextRow): seq<Byte> {
    match row
    case Glyph(_, glyph, _) => Unquote(glyph)
    case Continuation(_) => []
  }

  /** The bytes that the rows' glyphs spell out, in order. */
  function Text(rows: seq<TextRow>): seq<Byte> {
    if rows == [] then [] else Payload(rows[0]) + Text(rows[1..])
  }

  lemma {:induction false} TextAppend(a: seq<TextRow>, b: seq<TextRow>)
    ensures Text(a + b) == Text(a) + Text(b)
    decreases |a|
  {
    if a == [] {
      assert a + b == b;
    } else {
      assert (a + b)[0] == a[0];
      assert (a + b)[1..] == a[1..] + b;
      TextAppend(a[1..], b);
    }
  }

  /** The row for byte k is at address Data + k. */
  ghost predicate RowAddresses(data: Uintptr, rows: seq<TextRow>) {
    forall k :: 0 <= k < |rows| ==> rows[k].address == Wrap(data + k)
  }

  /** A glyph row stands at the start of a character whose bytes all have rows,
      its glyph quotes exactly those bytes, and the rows of the character's
      further bytes are blank rows, so no two characters overlap. */
  ghost predicate GlyphsQuoteCharacters(s: seq<Byte>, rows: seq<TextRow>)
    requires |rows| <= |s|
  {
    forall k :: 0 <= k < |rows| && rows[k].Glyph? ==>
      1 <= LeadWidth(s[k]) && k + LeadWidth(s[k]) <= |rows| &&
      Unquote(rows[k].glyph) == s[k..k + LeadWidth(s[k])] &&
      rows[k].column == (if LeadWidth(s[k]) == 1 then 12 else 11) &&
      (forall j :: k < j < k + LeadWidth(s[k]) ==> rows[j].Continuation?)
  }

  /** In correct rows no character overlaps the next: a glyph row after the
      glyph row at k lies at or past the end of k's character. */
  lemma CharactersDoNotOverlap(s: seq<Byte>, data: Uintptr, rows: seq<TextRow>, k: nat, m: nat)
    requires RowsDescribe(s, data, rows) && k < m < |rows|
    requires rows[k].Glyph? && rows[m].Glyph?
    ensures k + LeadWidth(s[k]) <= m
  {
  }

  /** The rows printed for the first `|rows|` bytes of `s` at base address
      `data` are right: one row per byte at its own address, each glyph quoting
      the bytes of the character it starts, and all glyphs together spelling
      out those bytes. */
  ghost predicate RowsDescribe(s: seq<Byte>, data: Uintptr, rows: seq<TextRow>) {
    |rows| <= |s| &&
    Text(rows) == s[..|rows|] &&
    RowAddresses(data, rows) &&
    GlyphsQuoteCharacters(s, rows)
  }

  /** The rows of one character of width n >= 1 that starts at `address`: its
      glyph row, then a blank row for each of its bytes 1..n-1. */
  function SegmentRows(address: Uintptr, glyph: seq<Byte>, n: nat): (rows: seq<TextRow>)
    requires n >= 1
    ensures |rows| == n
  {
    [Glyph(address, glyph, Column(glyph))] +
    seq(n - 1, j requires 0 <= j < n - 1 => Continuation(Wrap(address + j + 1)))
  }

  lemma SegmentRowsExtend(address: Uintptr, glyph: seq<Byte>, j: nat)
    requires j >= 1
    ensures SegmentRows(address, glyph, j + 1) ==
      SegmentRows(address, glyph, j) + [Continuation(Wrap(address + j))]
  {
  }

  lemma SegmentRowAddress(address: Uintptr, glyph: seq<Byte>, n: nat, m: nat)
    requires m < n
    ensures SegmentRows(address, glyph, n)[m].address == Wrap(address + m)
  {
    if m > 0 {
      assert SegmentRows(address, glyph, n)[m] == Continuation(Wrap(address + (m - 1) + 1));
    }
  }

  /** Stepping over a whole character does not change whether the rest of the
      walk gets through. */
  lemma SegmentableStep(s: seq<Byte>, i: nat)
    requires i < |s| && 1 <= LeadWidth(s[i]) && i + LeadWidth(s[i]) <= |s|
    ensures Segmentable(s, i) <==> Segmentable(s, i + LeadWidth(s[i]))
  {
  }

  lemma AppendSegmentAddresses(data: Uintptr, rows: seq<TextRow>, glyph: seq<Byte>, n: nat)
    requires RowAddresses(data, rows) && n >= 1
    ensures RowAddresses(data, rows + SegmentRows(Wrap(data + |rows|), glyph, n))
  {
    var i := |rows|;
    var seg := SegmentRows(Wrap(data + i), glyph, n);
    var all := rows + seg;
    forall k | 0 <= k < |all| ensures all[k].address == Wrap(data + k) {
      if k >= i {
        assert all[k] == seg[k - i];
        SegmentRowAddress(Wrap(data + i), glyph, n, k - i);
        WrapAdd(data + i, k - i);
      }
    }
  }

  /** The rows of one character spell out exactly the bytes its glyph quotes. */
  lemma SegmentText(address: Uintptr, glyph: seq<Byte>, n: nat)
    requires n >= 1
    ensures Text(SegmentRows(address, glyph, n)) == Unquote(glyph)
  {
    var seg := SegmentRows(address, glyph, n);
    var conts := seg[1..];
    TextOfContinuations(conts);
    assert Text(seg) == Payload(seg[0]) + Text(conts);
  }

  lemma AppendSegmentText(s: seq<Byte>, rows: seq<TextRow>, segment: seq<TextRow>, n: nat)
    requires |rows| + n <= |s| && Text(rows) == s[..|rows|]
    requires Text(segment) == s[|rows|..|rows| + n]
    ensures Text(rows + segment) == s[..|rows| + n]
  {
    TextAppend(rows, segment);
    SliceJoin(s, |rows|, n);
  }

  lemma SliceJoin(s: seq<Byte>, i: nat, n: nat)
    requires i + n <= |s|
    ensures s[..i] + s[i..i + n] == s[..i + n]
  {
  }

  lemma AppendSegmentGlyphs(s: seq<Byte>, rows: seq<TextRow>, address: Uintptr, glyph: seq<Byte>)
    requires |rows| < |s| && GlyphsQuoteCharacters(s, rows)
    requires var i, n := |rows|, LeadWidth(s[|rows|]);
      1 <= n && i + n <= |s| && Unquote(glyph) == s[i..i + n] && (|glyph| == 3 <==> n == 1)
    ensures GlyphsQuoteCharacters(s, rows + SegmentRows(address, glyph, LeadWidth(s[|rows|])))
  {
  }

  /** The rows of the next character, appended to correct rows, keep them correct. */
  lemma AppendSegment(s: seq<Byte>, data: Uintptr, rows: seq<TextRow>, glyph: seq<Byte>)
    requires RowsDescribe(s, data, rows) && |rows| < |s|
    requires var i, n := |rows|, LeadWidth(s[|rows|]);
      1 <= n && i + n <= |s| && Unquote(glyph) == s[i..i + n] && (|glyph| == 3 <==> n == 1)
    ensures RowsDescribe(s, data, rows + SegmentRows(Wrap(data + |rows|), glyph, LeadWidth(s[|rows|])))
  {
    var n := LeadWidth(s[|rows|]);
    var segment := SegmentRows(Wrap(data + |rows|), glyph, n);
    AppendSegmentAddresses(data, rows, glyph, n);
    SegmentText(Wrap(data + |rows|), glyph, n);
    AppendSegmentText(s, rows, segment, n);
    AppendSegmentGlyphs(s, rows, Wrap(data + |rows|), glyph);
  }

  lemma {:induction false} TextOfContinuations(rows: seq<TextRow>)
    requires forall k :: 0 <= k < |rows| ==> rows[k].Continuation?
    ensures Text(rows) == []
    decreases |rows|
  {
    if rows != [] {
      TextOfContinuations(rows[1..]);
    }
  }

  /** A string made of two segmentable strings is segmentable. */
  lemma {:induction false} SegmentableConcat(a: seq<Byte>, b: seq<Byte>, i: nat)
    requires i <= |a| && Segmentable(a, i) && Segmentable(b, 0)
    ensures Segmentable(a + b, i)
    decreases |a| - i
  {
    if i == |a| {
      SegmentableShift(a, b, 0);
    } else {
      var n := LeadWidth(a[i]);
      assert (a + b)[i] == a[i];
      SegmentableConcat(a, b, i + n);
    }
  }

  /** Segmentability of `b` from offset j carries over to `a + b` from |a| + j. */
  lemma {:induction false} SegmentableShift(a: seq<Byte>, b: seq<Byte>, j: nat)
    requires j <= |b| && Segmentable(b, j)
    ensures Segmentable(a + b, |a| + j)
    decreases |b| - j
  {
    if j < |b| {
      var n := LeadWidth(b[j]);
      assert (a + b)[|a| + j] == b[j];
      SegmentableShift(a, b, j + n);
    }
  }

  /** When the string lies inside the address space, a complete walk shows
      every byte's own address exactly once, in increasing order. */
  lemma EveryByteAddressShownOnce(s: seq<Byte>, data: Uintptr, rows: seq<TextRow>)
    requires RowsDescribe(s, data, rows) && |rows| == |s| && data + |s| <= WORD
    ensures forall k :: 0 <= k < |s| ==> rows[k].address == data + k
    ensures forall k, m :: 0 <= k < m < |s| ==> rows[k].address < rows[m].address
  {
  }

  /** Prints the rows of one character of `n` bytes that starts at `address`:
      the glyph row, then a blank row for each further byte. */
  method CharacterRows(address: Uintptr, glyph: seq<Byte>, n: nat) returns (rows: seq<TextRow>)
    requires n >= 1
    ensures rows == SegmentRows(address, glyph, n)
  {
    rows := [Glyph(address, glyph, Column(glyph))];
    var j := 1;
    while j < n
      invariant 1 <= j <= n
      invariant rows == SegmentRows(address, glyph, j)
    {
      SegmentRowsExtend(address, glyph, j);
      rows := rows + [Continuation(Wrap(address + j))];
      j := j + 1;
    }
  }

  /** What the source prints for the string `s` at `data` once `rows` have
      been printed: the walk resumes at offset |rows|. */
  ghost function Walk(s: seq<Byte>, data: Uintptr, rows: seq<TextRow>): (o: TextOutcome)
    requires |rows| <= |s|
    ensures rows <= o.rows && |o.rows| <= |s|
    decreases |s| - |rows|
  {
    var i := |rows|;
    if i == |s| then Rendered(rows)
    else
      var d := ByteSequenceRepresentation(s[i..]);
      if d.IndexPanic? then Panicked(rows)
      else if d.bytesRead == 0 then Looping(rows, Glyph(Wrap(data + i), d.glyph, Column(d.glyph)))
      else Walk(s, data, rows + SegmentRows(Wrap(data + i), d.glyph, d.bytesRead))
  }

  /** One character of the walk: decoding at offset i gives width n >= 1,
      and appending its rows keeps the rows right. */
  lemma WalkStep(s: seq<Byte>, data: Uintptr, rows: seq<TextRow>, glyph: seq<Byte>, n: nat, segment: seq<TextRow>)
    requires |rows| < |s| && RowsDescribe(s, data, rows)
    requires ByteSequenceRepresentation(s[|rows|..]) == Char(glyph, n) && n > 0
    requires segment == SegmentRows(Wrap(data + |rows|), glyph, n)
    ensures RowsDescribe(s, data, rows + segment)
  {
    var i := |rows|;
    var sub := s[i..];
    assert sub[0] == s[i];
    assert n == LeadWidth(s[i]) && i + n <= |s|;
    RepresentationQuotesBytes(sub);
    assert sub[..n] == s[i..i + n];
    assert Unquote(glyph) == s[i..i + n] && (|glyph| == 3 <==> n == 1);
    AppendSegment(s, data, rows, glyph);
  }

  /** The decoder panics at offset i exactly when the character there is cut
      short, and the walk cannot get through from there. */
  lemma WalkPanics(s: seq<Byte>, i: nat)
    requires i < |s| && ByteSequenceRepresentation(s[i..]).IndexPanic?
    ensures |s| < i + LeadWidth(s[i]) && !Segmentable(s, i)
  {
    assert s[i..][0] == s[i];
  }

  /** The decoder returns width 0 only at a continuation byte, with the empty
      glyph, and the walk cannot get through from there. */
  lemma WalkLoops(s: seq<Byte>, i: nat)
    requires i < |s| && ByteSequenceRepresentation(s[i..]).Char?
    requires ByteSequenceRepresentation(s[i..]).bytesRead == 0
    ensures IsContinuation(s[i]) && ByteSequenceRepresentation(s[i..]).glyph == []
    ensures !Segmentable(s, i)
  {
    assert s[i..][0] == s[i];
    RepresentationQuotesBytes(s[i..]);
    LeadWidthFollowsRfc3629(s[i]);
  }

  /** One step of the walk from `rows`, when the character there decodes. */
  lemma WalkAdvances(s: seq<Byte>, data: Uintptr, rows: seq<TextRow>)
    requires |rows| < |s|
    requires var d := ByteSequenceRepresentation(s[|rows|..]); d.Char? && d.bytesRead > 0
    ensures var d := ByteSequenceRepresentation(s[|rows|..]);
      |rows| + d.bytesRead <= |s| &&
      Walk(s, data, rows) == Walk(s, data, rows + SegmentRows(Wrap(data + |rows|), d.glyph, d.bytesRead))
  {
  }

  /** Resumed from correct rows, the walk prints only correct rows. */
  lemma {:induction false} WalkRowsCorrect(s: seq<Byte>, data: Uintptr, rows: seq<TextRow>)
    requires |rows| <= |s| && RowsDescribe(s, data, rows)
    ensures RowsDescribe(s, data, Walk(s, data, rows).rows)
    decreases |s| - |rows|
  {
    var i := |rows|;
    if i < |s| {
      var d := ByteSequenceRepresentation(s[i..]);
      if d.Char? && d.bytesRead > 0 {
        var segment := SegmentRows(Wrap(data + i), d.glyph, d.bytesRead);
        WalkStep(s, data, rows, d.glyph, d.bytesRead, segment);
        WalkAdvances(s, data, rows);
        WalkRowsCorrect(s, data, rows + segment);
      }
    }
  }

  /** Where the walk stops: at the end of the string, at a character cut
      short, or at a continuation byte. */
  lemma WalkStops(s: seq<Byte>, data: Uintptr, rows: seq<TextRow>)
    requires |rows| <= |s|
    ensures |rows| == |s| ==> Walk(s, data, rows) == Rendered(rows)
    ensures |rows| < |s| && ByteSequenceRepresentation(s[|rows|..]).IndexPanic? ==>
      Walk(s, data, rows) == Panicked(rows)
    ensures |rows| < |s| && ByteSequenceRepresentation(s[|rows|..]) == Char([], 0) ==>
      Walk(s, data, rows) == Looping(rows, Glyph(Wrap(data + |rows|), [], 11))
  {
  }

  /** The walk resumed at offset |rows| reaches the end exactly when every
      character from there on starts with a lead byte and fits, and then it
      has printed one row per byte. */
  lemma {:induction false} WalkRendersIff(s: seq<Byte>, data: Uintptr, rows: seq<TextRow>)
    requires |rows| <= |s|
    ensures Walk(s, data, rows).Rendered? <==> Segmentable(s, |rows|)
    ensures Walk(s, data, rows).Rendered? ==> |Walk(s, data, rows).rows| == |s|
    decreases |s| - |rows|
  {
    var i := |rows|;
    WalkStops(s, data, rows);
    if i < |s| {
      var d := ByteSequenceRepresentation(s[i..]);
      if d.IndexPanic? {
        WalkPanics(s, i);
      } else if d.bytesRead == 0 {
        WalkLoops(s, i);
      } else {
        var segment := SegmentRows(Wrap(data + i), d.glyph, d.bytesRead);
        assert |segment| == d.bytesRead;
        WalkAdvances(s, data, rows);
        assert s[i..][0] == s[i];
        SegmentableStep(s, i);
        WalkRendersIff(s, data, rows + segment);
      }
    }
  }

  /** The walk panics only at a character cut short by the end of the string. */
  lemma {:induction false} WalkPanicsOnlyWhenCut(s: seq<Byte>, data: Uintptr, rows: seq<TextRow>)
    requires |rows| <= |s|
    ensures var o := Walk(s, data, rows);
      o.Panicked? ==> var i := |o.rows|; i < |s| && |s| < i + LeadWidth(s[i])
    decreases |s| - |rows|
  {
    var i := |rows|;
    WalkStops(s, data, rows);
    if i < |s| {
      var d := ByteSequenceRepresentation(s[i..]);
      if d.IndexPanic? {
        WalkPanics(s, i);
      } else if d.bytesRead > 0 {
        var segment := SegmentRows(Wrap(data + i), d.glyph, d.bytesRead);
        WalkAdvances(s, data, rows);
        WalkPanicsOnlyWhenCut(s, data, rows + segment);
      }
    }
  }

  /** The walk loops only at a continuation byte, repeating that byte's
      empty glyph row. */
  lemma {:induction false} WalkLoopsOnlyAtContinuation(s: seq<Byte>, data: Uintptr, rows: seq<TextRow>)
    requires |rows| <= |s|
    ensures var o := Walk(s, data, rows);
      o.Looping? ==> var i := |o.rows|;
        i < |s| && IsContinuation(s[i]) && o.repeated == Glyph(Wrap(data + i), [], 11)
    decreases |s| - |rows|
  {
    var i := |rows|;
    WalkStops(s, data, rows);
    if i < |s| {
      var d := ByteSequenceRepresentation(s[i..]);
      if d.Char? && d.bytesRead == 0 {
        WalkLoops(s, i);
      } else if d.Char? {
        var segment := SegmentRows(Wrap(data + i), d.glyph, d.bytesRead);
        WalkAdvances(s, data, rows);
        WalkLoopsOnlyAtContinuation(s, data, rows + segment);
      }
    }
  }

  /** The whole walk from offset 0 prints one correct row per byte it
      covers; it reaches the end of the string exactly when the string is
      segmentable, and then covers every byte; it panics only at a character
      cut short and loops only at a continuation byte. */
  lemma WalkDescribesString(s: seq<Byte>, data: Uintptr)
    ensures var o := Walk(s, data, []);
      RowsDescribe(s, data, o.rows) &&
      (o.Rendered? <==> Segmentable(s, 0)) &&
      (o.Rendered? ==> |o.rows| == |s|) &&
      (o.Panicked? ==> var i := |o.rows|; i < |s| && |s| < i + LeadWidth(s[i])) &&
      (o.Looping? ==> var i := |o.rows|;
        i < |s| && IsContinuation(s[i]) && o.repeated == Glyph(Wrap(data + i), [], 11))
  {
    assert Text([]) == s[..0];
    WalkRowsCorrect(s, data, []);
    WalkRendersIff(s, data, []);
    WalkPanicsOnlyWhenCut(s, data, []);
    WalkLoopsOnlyAtContinuation(s, data, []);
  }

  /** Walks the string the way the source does and returns the diagram. */
  method VisualizeString(s: seq<Byte>, data: Uintptr) returns (d: StringDiagram)
    ensures d.data == data && d.len == |s|
    ensures d.body == Walk(s, data, [])
    ensures RowsDescribe(s, data, d.body.rows)
    ensures d.body.Rendered? <==> Segmentable(s, 0)
    ensures d.body.Rendered? ==> |d.body.rows| == |s|
    ensures d.body.Panicked? ==>
      var i := |d.body.rows|; i < |s| && |s| < i + LeadWidth(s[i])
    ensures d.body.Looping? ==>
      var i := |d.body.rows|;
      i < |s| && IsContinuation(s[i]) &&
      d.body.repeated == Glyph(Wrap(data + i), [], 11)
  {
    var body := WalkString(s, data);
    d := StringDiagram(data, |s|, body);
    WalkDescribesString(s, data);
  }

  /** The loop of the text view: decodes the character at offset i, prints
      its rows and moves on by its width, until the end of the string, a
      decoder panic or a character of width 0. */
  method WalkString(s: seq<Byte>, data: Uintptr) returns (body: TextOutcome)
    ensures body == Walk(s, data, [])
  {
    var rows: seq<TextRow> := [];
    var i := 0;
    while true
      invariant i == |rows| <= |s|
      invariant Walk(s, data, rows) == Walk(s, data, [])
      decreases |s| - i
    {
      if i >= |s| {
        body := Rendered(rows);
        break;
      }
      var address := Wrap(data + i);
      var decoded := ByteSequenceRepresentation(s[i..]);
      if decoded.IndexPanic? {
        body := Panicked(rows);
        break;
      }
      if decoded.bytesRead == 0 {
        body := Looping(rows, Glyph(address, decoded.glyph, Column(decoded.glyph)));
        break;
      }
      var n := decoded.bytesRead;
      var segment := CharacterRows(address, decoded.glyph, n);
      rows := rows + segment;
      i := i + n;
    }
  }
}

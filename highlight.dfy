/** The cross-pane highlighting of the split view. Selecting hex in the hex
    view highlights the matching bytes in the text view (`on_hex_selection`
    with `highlight_text`), and selecting text in the text view highlights
    the matching bytes in the hex view (`on_text_selection` with
    `highlight_hex`). A highlight is a run of positions in the string a pane
    was given. The ASCII rendering has one character per byte, so a byte
    index is a position in it. The hex table does not: `highlight_hex` computes its position as three
    characters per byte. That is modelled as written, next to the positions
    the hex view really shows a byte at. */
module Highlight {
  import opened Wrappers
  import opened HexText
  import opened HexDump
  import opened AsciiView
  import opened HexParse
  import opened ByteSearch

  /** A highlighted run: the cursor is put at `start` and extended `length`
      characters to the right. */
  datatype Span = Span(start: nat, length: nat)

  /** `highlight_text(start, length)`: the run at the byte index itself. */
  function TextHighlight(start: nat, length: nat): Span {
    Span(start, length)
  }

  /** `highlight_hex(start, length)` as written: three characters per byte,
      counted from the top of the hex view. */
  function HexHighlight(start: nat, length: nat): Span {
    Span(3 * start, 3 * length)
  }

  /** `on_hex_selection`: clean the selection up, decode it with `fromhex`
      (a decoding error is ignored), look the bytes up and highlight the
      text view there. `None` is the case where nothing is highlighted. */
  function HexSelectionHighlight(data: seq<byte>, selection: string): (r: Option<Span>)
    ensures r.Some? <==>
      && SelectedHex(selection) != []
      && FromHex(SelectedHex(selection)).Ok?
      && Find(data, FromHex(SelectedHex(selection)).value) != -1
    ensures r.Some? ==>
      var b := FromHex(SelectedHex(selection)).value;
      && r.value.length == |b|
      && OccursAt(data, b, r.value.start)
      && forall j: nat :: j < r.value.start ==> !OccursAt(data, b, j)
  {
    var hex := SelectedHex(selection);
    if hex == [] then None
    else match FromHex(hex) {
      case Err(_) => None
      case Ok(b) =>
        var i := Find(data, b);
        if i == -1 then None else Some(TextHighlight(i, |b|))
    }
  }

  /** `on_text_selection`: encode the selected text as UTF-8, look the bytes
      up and highlight the hex view with `highlight_hex` there. */
  function TextSelectionHighlight(data: seq<byte>, selection: string): (r: Option<Span>)
    ensures r.Some? <==> selection != [] && Find(data, Utf8Encode(selection)) != -1
    ensures r.Some? ==>
      var b := Utf8Encode(selection);
      && r.value.start % 3 == 0
      && r.value.length == 3 * |b|
      && OccursAt(data, b, r.value.start / 3)
      && forall j: nat :: j < r.value.start / 3 ==> !OccursAt(data, b, j)
  {
    if selection == [] then None
    else
      var b := Utf8Encode(selection);
      var i := Find(data, b);
      if i == -1 then None else Some(HexHighlight(i, |b|))
  }

  /** The text view shows the characters of `needle` from position `start` on. */
  predicate TextShowsAt(data: seq<byte>, needle: seq<byte>, start: nat) {
    start + |needle| <= |data| && AsciiText(data)[start .. start + |needle|] == AsciiText(needle)
  }

  /** The text view highlight of a match covers exactly the characters that
      render the matched bytes. */
  lemma TextHighlightCoversMatch(data: seq<byte>, needle: seq<byte>, i: nat)
    requires OccursAt(data, needle, i)
    ensures var sp := TextHighlight(i, |needle|);
      && sp.start + sp.length <= |AsciiText(data)|
      && AsciiText(data)[sp.start .. sp.start + sp.length] == AsciiText(needle)
  {
    AsciiTextSlice(data, i, i + |needle|);
  }

  /** Characters 10 to 57 of line `k` of the hex view are the line's padded
      hex column. */
  lemma LineHexColumnInDump(data: seq<byte>, k: nat)
    requires 16 * k < |data| <= LabelLimit
    ensures 79 * k + 58 <= |Table(data)|
    ensures Table(data)[79 * k + 10 .. 79 * k + 58]
      == LJust(HexColumn(Chunk(data, 16 * k)), HexColumnWidth)
  {
    var chunk := Chunk(data, 16 * k);
    DumpLineAt(data, k);
    LineSplit(16 * k, chunk);
    PieceInPiece(Table(data), 79 * k, Line(16 * k, chunk), 10,
      LJust(HexColumn(chunk), HexColumnWidth));
  }

  /** The selection clean-up and `fromhex` turn the padded hex column of a
      chunk back into the chunk, so the text view highlight is at `find`. */
  lemma ColumnSelectionIsFind(data: seq<byte>, chunk: seq<byte>)
    requires 1 <= |chunk| <= BytesPerLine && Find(data, chunk) != -1
    ensures HexSelectionHighlight(data, LJust(HexColumn(chunk), HexColumnWidth))
      == Some(Span(Find(data, chunk), |chunk|))
  {
    var selection := LJust(HexColumn(chunk), HexColumnWidth);
    SelectionCompacts(chunk);
    SelectionRoundTrip(chunk);
    assert |SelectedHex(selection)| == 2 * |chunk|;
  }

  /** Selecting the padded hex column of a chunk that occurs at `p` highlights
      the first occurrence of the chunk, at or before `p`, in the text view. */
  lemma ColumnSelectionFindsChunk(data: seq<byte>, chunk: seq<byte>, p: nat)
    requires 1 <= |chunk| <= BytesPerLine && OccursAt(data, chunk, p)
    ensures var r := HexSelectionHighlight(data, LJust(HexColumn(chunk), HexColumnWidth));
      && r.Some?
      && r.value.start <= p
      && r.value.length == |chunk|
      && TextShowsAt(data, chunk, r.value.start)
  {
    assert Find(data, chunk) != -1;
    ColumnSelectionIsFind(data, chunk);
    FoundSpanShows(data, chunk, HexSelectionHighlight(data, LJust(HexColumn(chunk), HexColumnWidth)));
  }

  /** The text view span of the first occurrence covers the characters that
      render the needle. */
  lemma FoundSpanShows(data: seq<byte>, needle: seq<byte>, r: Option<Span>)
    requires Find(data, needle) != -1 && r == Some(Span(Find(data, needle), |needle|))
    ensures TextShowsAt(data, needle, r.value.start)
  {
    TextHighlightCoversMatch(data, needle, Find(data, needle));
  }

  /** Selecting the hex column of line `k` of the hex view highlights, in the
      text view, the first place (at or before the line's own bytes) whose
      characters are those of the line's bytes. */
  lemma SelectingLineHexFindsChunk(data: seq<byte>, k: nat)
    requires 16 * k < |data| <= LabelLimit
    ensures 79 * k + 58 <= |Table(data)|
    ensures var chunk := Chunk(data, 16 * k);
      var r := HexSelectionHighlight(data, Table(data)[79 * k + 10 .. 79 * k + 58]);
      && r.Some?
      && r.value.start <= 16 * k
      && r.value.length == |chunk|
      && TextShowsAt(data, chunk, r.value.start)
  {
    var chunk := Chunk(data, 16 * k);
    LineHexColumnInDump(data, k);
    var selection := Table(data)[79 * k + 10 .. 79 * k + 58];
    assert selection == LJust(HexColumn(chunk), HexColumnWidth);
    assert OccursAt(data, chunk, 16 * k);
    ColumnSelectionFindsChunk(data, chunk, 16 * k);
  }

  /** Selecting ASCII text in the text view finds bytes that render as that
      text, at or before the place it was selected from. */
  lemma TextSelectionFindsAscii(data: seq<byte>, i: nat, n: nat)
    requires 0 < n && i + n <= |data|
    requires forall k :: i <= k < i + n ==> data[k] < 128
    ensures var r := TextSelectionHighlight(data, AsciiText(data)[i .. i + n]);
      && r.Some?
      && r.value.start <= 3 * i
      && r.value.length == 3 * n
  {
    var slice := data[i .. i + n];
    AsciiTextSlice(data, i, i + n);
    AsciiBytesRoundTrip(slice);
    assert OccursAt(data, slice, i);
  }

  /** The as-written hex highlight of byte `j` starts `10 + 31 * (j / 16)`
      characters before the byte's hex pair: it ignores the 10-character
      offset label and that a line of 16 bytes is 79 characters long, not 48. */
  lemma HexHighlightMisplaced(j: nat, n: nat)
    ensures HexHighlight(j, n).start + 10 + 31 * (j / 16) == HexCellStart(j)
    ensures HexHighlight(j, n).start < HexCellStart(j)
  {
    assert j == 16 * (j / 16) + j % 16;
  }

  /** In the buffer "xA" the selection "A" is found at byte 1. */
  lemma AsciiModeExample()
    ensures var data: seq<byte> := [0x78, 0x41];
      && TextSelectionHighlight(data, "A") == Some(Span(3, 3))
      && |AsciiText(data)| == 2
  {
    assert Utf8Encode("A") == [0x41];
    assert !OccursAt([0x78, 0x41], [0x41], 0) && OccursAt([0x78, 0x41], [0x41], 1);
  }

  /** A buffer holding the single byte 0x41: selecting "A" in the text view
      highlights characters 0 to 2 of the hex view, which belong to the offset
      label "00000000", while the byte's pair "41" is at characters 10 and 11.
      In ASCII mode the factor 3 is wrong as well: for the buffer "xA" the run
      of "A" is asked to start at character 3, past the end of the
      two-character view. */
  lemma HexHighlightExample()
    ensures var data: seq<byte> := [0x41];
      var r := TextSelectionHighlight(data, "A");
      && r == Some(Span(0, 3))
      && |Table(data)| >= 12
      && Table(data)[0..3] == "000"
      && Table(data)[HexCellStart(0) .. HexCellStart(0) + 2] == HexPair(0x41) == "41"
    ensures var data: seq<byte> := [0x78, 0x41];
      && TextSelectionHighlight(data, "A") == Some(Span(3, 3))
      && |AsciiText(data)| == 2
  {
    AsciiModeExample();
    var data: seq<byte> := [0x41];
    assert Utf8Encode("A") == [0x41];
    assert OccursAt(data, [0x41], 0);
    var l := Line(0, Chunk(data, 0));
    DumpLineAt(data, 0);
    LineSplit(0, Chunk(data, 0));
    assert Numeral(0) == "0";
    assert FormatHex(0, 8) == Repeat('0', 7) + "0";
    assert l[..3] == "000";
    assert Table(data)[0..3] == l[..3];
    HexCellShowsByte(data, 0);
    assert HexPair(0x41) == [Digit(4), Digit(1)];
  }

  /** The runs that do show the matched bytes in the hex view: one hex pair
      per byte, each in its own line at its own column. */
  function CellSpans(start: nat, length: nat): seq<Span> {
    seq(length, t requires 0 <= t => Span(HexCellStart(start + t), 2))
  }

  /** Each run marks exactly the two characters of `dump` that show the
      matching byte's value. */
  predicate CellsShowBytes(dump: string, spans: seq<Span>, bytes: seq<byte>) {
    && |spans| == |bytes|
    && forall t :: 0 <= t < |bytes| ==>
      && spans[t].length == 2
      && spans[t].start + 2 <= |dump|
      && dump[spans[t].start .. spans[t].start + 2] == HexPair(bytes[t])
  }

  /** The corrected run for byte `t` of a match shows that byte's hex pair. */
  lemma CellSpanShowsByte(data: seq<byte>, needle: seq<byte>, i: nat, t: nat)
    requires OccursAt(data, needle, i) && |data| <= LabelLimit && t < |needle|
    ensures var sp := CellSpans(i, |needle|)[t];
      && sp.length == 2
      && sp.start + 2 <= |Table(data)|
      && Table(data)[sp.start .. sp.start + 2] == HexPair(needle[t])
  {
    var j := i + t;
    assert CellSpans(i, |needle|)[t] == Span(HexCellStart(j), 2);
    assert needle[t] == data[j] by {
      assert data[i .. i + |needle|][t] == data[j];
    }
    HexCellShowsByte(data, j);
  }

  /** The corrected hex highlight of a match marks, for every matched byte,
      exactly the two characters that show that byte's value. */
  lemma CellSpansShowMatch(data: seq<byte>, needle: seq<byte>, i: nat)
    requires OccursAt(data, needle, i) && |data| <= LabelLimit
    ensures CellsShowBytes(Table(data), CellSpans(i, |needle|), needle)
  {
    var spans := CellSpans(i, |needle|);
    var dump := Table(data);
    forall t | 0 <= t < |needle|
      ensures spans[t].length == 2 && spans[t].start + 2 <= |dump|
      ensures dump[spans[t].start .. spans[t].start + 2] == HexPair(needle[t])
    {
      CellSpanShowsByte(data, needle, i, t);
    }
  }

  /** `on_text_selection` with a corrected hex-view highlight: the same match
      as the as-written handler, marked where the hex view really shows it.
      When the hex view shows the table, that is the cells of the matched
      bytes, each showing its byte's hex pair. When it shows the ASCII
      rendering, it is the one run of the matched characters. */
  function TextSelectionCells(data: seq<byte>, selection: string, hexMode: bool): (r: Option<seq<Span>>)
    ensures r.Some? <==> TextSelectionHighlight(data, selection).Some?
    ensures r.Some? && hexMode ==>
      r.value == CellSpans(TextSelectionHighlight(data, selection).value.start / 3, |Utf8Encode(selection)|)
    ensures r.Some? && hexMode && |data| <= LabelLimit ==>
      CellsShowBytes(Table(data), r.value, Utf8Encode(selection))
    ensures r.Some? && !hexMode ==>
      var i := TextSelectionHighlight(data, selection).value.start / 3;
      && r.value == [TextHighlight(i, |Utf8Encode(selection)|)]
      && TextShowsAt(data, Utf8Encode(selection), i)
  {
    if selection == [] then None
    else
      var b := Utf8Encode(selection);
      var i := Find(data, b);
      if i == -1 then None
      else
        assert TextSelectionHighlight(data, selection).value.start / 3 == i;
        if !hexMode then
          FoundSpanShows(data, b, Some(Span(i, |b|)));
          Some([TextHighlight(i, |b|)])
        else if |data| <= LabelLimit then
          CellSpansShowMatch(data, b, i);
          Some(CellSpans(i, |b|))
        else Some(CellSpans(i, |b|))
  }
}

/** The hex-table rendering of the byte buffer (`refresh_hex_view` in hex
    mode): one line per 16-byte chunk, each made of an 8-digit offset label,
    the chunk's bytes as hex pairs padded to 48 columns, and an ASCII bar. */
module HexDump {
  import opened HexText

  /** Bytes per line: the step of the rendering loop. */
  const BytesPerLine: nat := 16
  /** Width the hex column is padded to. */
  const HexColumnWidth: nat := 48
  /** Length of the line of a full chunk whose offset label has 8 digits. */
  const FullLineLength: nat := 79
  /** Offsets below this bound get an offset label of exactly 8 digits. */
  const LabelLimit: nat := 0x1_0000_0000

  /** The character a byte shows as in the ASCII bar. */
  function Printable(b: byte): (c: char)
    ensures (c as int == b) <==> 32 <= b <= 126
    ensures !(32 <= b <= 126) ==> c == '.'
  {
    if 32 <= b <= 126 then b as char else '.'
  }

  /** The two lower-case hex digits of a byte, high nibble first. */
  function HexPair(b: byte): string {
    [Digit(b / 16), Digit(b % 16)]
  }

  /** HexPair is what `f"{byte:02x}"` writes. */
  lemma HexPairIsFormat(b: byte)
    ensures HexPair(b) == FormatHex(b, 2)
  {
    if b < 16 {
      assert Numeral(b) == [Digit(b)];
      assert Repeat('0', 1) == [Digit(0)];
    } else {
      assert Numeral(b / 16) == [Digit(b / 16)];
      assert Numeral(b) == [Digit(b / 16), Digit(b % 16)];
    }
  }

  /** `' '.join(f"{byte:02x}" for byte in chunk)`. */
  function HexColumn(chunk: seq<byte>): (s: string)
    ensures |s| == if chunk == [] then 0 else 3 * |chunk| - 1
    ensures forall k :: 0 <= k < |s| ==> s[k] == ' ' || IsLowerHexDigit(s[k])
  {
    if chunk == [] then ""
    else if |chunk| == 1 then HexPair(chunk[0])
    else HexPair(chunk[0]) + " " + HexColumn(chunk[1..])
  }

  /** `''.join(chr(byte) if 32 <= byte <= 126 else '.' for byte in chunk)`. */
  function AsciiBar(chunk: seq<byte>): (s: string)
    ensures |s| == |chunk|
    ensures forall j :: 0 <= j < |chunk| ==> s[j] == Printable(chunk[j])
  {
    if chunk == [] then "" else [Printable(chunk[0])] + AsciiBar(chunk[1..])
  }

  /** One line of the table: the chunk of the buffer that starts at `offset`. */
  function Line(offset: nat, chunk: seq<byte>): string {
    FormatHex(offset, 8) + ": " + LJust(HexColumn(chunk), HexColumnWidth) + "  |" + AsciiBar(chunk) + "|\n"
  }

  /** `data[i:i+16]`: Python's slice stops at the end of the buffer. */
  function Chunk(data: seq<byte>, i: nat): seq<byte>
    requires i <= |data|
  {
    data[i..if i + BytesPerLine <= |data| then i + BytesPerLine else |data|]
  }

  /** The lines for the chunks that start at `i`, `i + 16`, ... */
  function DumpFrom(data: seq<byte>, i: nat): string
    decreases |data| - i
  {
    if i >= |data| then "" else Line(i, Chunk(data, i)) + DumpFrom(data, i + BytesPerLine)
  }

  /** The whole hex view of a buffer. */
  function Table(data: seq<byte>): string {
    DumpFrom(data, 0)
  }

  /** Builds the hex view the way `refresh_hex_view` does: one pass over the
      chunk starts 0, 16, 32, ..., appending each line's parts in turn. */
  method RenderHexTable(data: seq<byte>) returns (text: string)
    ensures text == Table(data)
  {
    text := "";
    var i: nat := 0;
    while i < |data|
      invariant text + DumpFrom(data, i) == Table(data)
      decreases |data| - i
    {
      ghost var before := text;
      var offsetLabel := FormatHex(i, 8);
      text := text + offsetLabel + ": ";
      var chunk := data[i..if i + BytesPerLine <= |data| then i + BytesPerLine else |data|];
      var hexChunk := LJust(HexColumn(chunk), HexColumnWidth);
      text := text + hexChunk;
      var asciiChunk := AsciiBar(chunk);
      text := text + "  |" + asciiChunk + "|\n";
      assert chunk == Chunk(data, i);
      LineParts(before, i, chunk);
      DumpFromStep(data, i);
      Assoc(before, Line(i, chunk), DumpFrom(data, i + BytesPerLine));
      i := i + BytesPerLine;
    }
  }

  lemma DumpFromStep(data: seq<byte>, i: nat)
    requires i < |data|
    ensures DumpFrom(data, i) == Line(i, Chunk(data, i)) + DumpFrom(data, i + BytesPerLine)
  {
  }

  lemma LineParts(before: string, i: nat, chunk: seq<byte>)
    ensures before + FormatHex(i, 8) + ": " + LJust(HexColumn(chunk), HexColumnWidth) + "  |" + AsciiBar(chunk) + "|\n"
         == before + Line(i, chunk)
  {
  }

  lemma Assoc(a: string, b: string, c: string)
    ensures (a + b) + c == a + (b + c)
  {
  }

  /** Where the hex pair of byte `j` of the buffer starts in the hex view. */
  function HexCellStart(j: nat): nat {
    79 * (j / 16) + 10 + 3 * (j % 16)
  }

  /** Where the ASCII-bar character of byte `j` of the buffer is in the hex view. */
  function BarCell(j: nat): nat {
    79 * (j / 16) + 61 + j % 16
  }

  /** Number of line breaks in a text. */
  function NewlineCount(s: string): nat {
    if s == [] then 0 else (if s[0] == '\n' then 1 else 0) + NewlineCount(s[1..])
  }

  predicate NoNewline(s: string) {
    forall k :: 0 <= k < |s| ==> s[k] != '\n'
  }

  // ----- the layout of one line -----

  lemma {:induction false} HexColumnCell(chunk: seq<byte>, j: nat)
    requires j < |chunk|
    ensures HexColumn(chunk)[3 * j .. 3 * j + 2] == HexPair(chunk[j])
    ensures j + 1 < |chunk| ==> HexColumn(chunk)[3 * j + 2] == ' '
    decreases j
  {
    if |chunk| > 1 {
      var rest := chunk[1..];
      var t := HexColumn(rest);
      JoinCell(HexPair(chunk[0]), t, j);
      if j > 0 {
        assert rest[j - 1] == chunk[j];
        HexColumnCell(rest, j - 1);
      }
    }
  }

  /** Where the cells of `p + " " + t` are, for a two-character first cell `p`. */
  lemma JoinCell(p: string, t: string, j: nat)
    requires |p| == 2 && 3 * j + 2 <= |t| + 3
    ensures j == 0 ==> (p + " " + t)[..2] == p && (p + " " + t)[2] == ' '
    ensures j > 0 ==> (p + " " + t)[3 * j .. 3 * j + 2] == t[3 * (j - 1) .. 3 * (j - 1) + 2]
    ensures j > 0 && 3 * j + 2 < |t| + 3 ==> (p + " " + t)[3 * j + 2] == t[3 * (j - 1) + 2]
  {
    if j > 0 {
      SliceAfter(p + " ", t, 3 * (j - 1), 3 * (j - 1) + 2);
    }
  }

  lemma SliceAfter(a: string, t: string, x: nat, y: nat)
    requires x <= y <= |t|
    ensures (a + t)[|a| + x .. |a| + y] == t[x .. y]
  {
    assert forall k :: 0 <= k < y - x ==> (a + t)[|a| + x .. |a| + y][k] == t[x .. y][k];
  }

  lemma SliceOfSlice(d: string, base: nat, len: nat, x: nat, y: nat)
    requires base + len <= |d| && x <= y <= len
    ensures d[base + x .. base + y] == d[base .. base + len][x .. y]
  {
    var direct := d[base + x .. base + y];
    var nested := d[base .. base + len][x .. y];
    assert |direct| == |nested|;
    forall k | 0 <= k < |direct|
      ensures direct[k] == nested[k]
    {
    }
  }

  /** Where each part of a six-part concatenation sits. */
  lemma Pieces(a: string, b: string, c: string, d: string, e: string, f: string)
    ensures var l := a + b + c + d + e + f;
      && |l| == |a| + |b| + |c| + |d| + |e| + |f|
      && l[..|a|] == a
      && l[|a| .. |a| + |b|] == b
      && l[|a| + |b| .. |a| + |b| + |c|] == c
      && l[|a| + |b| + |c| .. |a| + |b| + |c| + |d|] == d
      && l[|a| + |b| + |c| + |d| .. |a| + |b| + |c| + |d| + |e|] == e
      && l[|a| + |b| + |c| + |d| + |e| ..] == f
  {
  }

  /** The parts of a line for any offset: the offset label, `": "`, the
      padded hex column, `"  |"`, the ASCII bar and `"|\n"`, one after the
      other, where the label has `w` characters (at least 8) and reads back
      as the offset. */
  lemma LineFrame(offset: nat, chunk: seq<byte>)
    requires |chunk| <= BytesPerLine
    ensures var l, a := Line(offset, chunk), FormatHex(offset, 8);
      var w := |a|;
      && 8 <= w && AllHexDigits(a) && Value(a) == offset
      && |l| == w + 55 + |chunk|
      && l[..w] == a
      && l[w .. w + 2] == ": "
      && l[w + 2 .. w + 50] == LJust(HexColumn(chunk), HexColumnWidth)
      && l[w + 50 .. w + 53] == "  |"
      && l[w + 53 .. w + 53 + |chunk|] == AsciiBar(chunk)
      && l[w + 53 + |chunk| ..] == "|\n"
  {
    FormatHexRoundTrip(offset, 8);
    FrameParts(FormatHex(offset, 8), LJust(HexColumn(chunk), HexColumnWidth), AsciiBar(chunk));
  }

  /** Where the parts of a line sit once its label `a` and its bar `e` are known. */
  lemma FrameParts(a: string, c: string, e: string)
    requires |c| == 48
    ensures var l, w := a + ": " + c + "  |" + e + "|\n", |a|;
      && |l| == w + 55 + |e|
      && l[..w] == a
      && l[w .. w + 2] == ": "
      && l[w + 2 .. w + 50] == c
      && l[w + 50 .. w + 53] == "  |"
      && l[w + 53 .. w + 53 + |e|] == e
      && l[w + 53 + |e| ..] == "|\n"
  {
    Pieces(a, ": ", c, "  |", e, "|\n");
  }

  /** The parts of a line whose offset label has exactly 8 digits. */
  lemma LineSplit(offset: nat, chunk: seq<byte>)
    requires offset < LabelLimit && 1 <= |chunk| <= BytesPerLine
    ensures var l := Line(offset, chunk);
      && |l| == 63 + |chunk|
      && l[..8] == FormatHex(offset, 8)
      && l[8..10] == ": "
      && l[10..58] == LJust(HexColumn(chunk), HexColumnWidth)
      && l[58..61] == "  |"
      && l[61..61 + |chunk|] == AsciiBar(chunk)
      && l[61 + |chunk| ..] == "|\n"
  {
    FormatHexRoundTrip(offset, 8);
    assert Pow16(8) == LabelLimit;
    assert |FormatHex(offset, 8)| == 8;
    LineFrame(offset, chunk);
  }

  /** Every line of a chunk of 1 to 16 bytes whose offset has at most 8 hex
      digits is 63 characters plus one per byte, and its offset label reads
      back as the offset; the hex column is followed by padding and "  |". */
  lemma LineLayout(offset: nat, chunk: seq<byte>)
    requires offset < LabelLimit && 1 <= |chunk| <= BytesPerLine
    ensures var l := Line(offset, chunk);
      && |l| == 63 + |chunk|
      && AllLowerHexDigits(l[..8]) && AllHexDigits(l[..8]) && Value(l[..8]) == offset
      && l[8..10] == ": "
      && (forall k :: 9 + 3 * |chunk| <= k < 60 ==> l[k] == ' ')
      && l[60] == '|' && l[61 + |chunk| ..] == "|\n"
  {
    var l := Line(offset, chunk);
    LineSplit(offset, chunk);
    FormatHexRoundTrip(offset, 8);
    var c := LJust(HexColumn(chunk), HexColumnWidth);
    assert l[58..61] == "  |";
    forall k | 9 + 3 * |chunk| <= k < 60
      ensures l[k] == ' '
    {
      if k < 58 {
        assert l[k] == l[10..58][k - 10] == c[k - 10];
      } else {
        assert l[k] == l[58..61][k - 58];
      }
    }
    assert l[60] == l[58..61][2];
  }

  /** Where a cell of the hex column and of the ASCII bar land in a line
      holding the padded column at 10..58 and the bar from 61 on. */
  lemma CellsFromParts(l: string, h: string, c: string, e: string, p: string, j: nat)
    requires |h| <= |c| == 48 && c[..|h|] == h && 3 * j + 2 <= |h| && h[3 * j .. 3 * j + 2] == p
    requires 61 + |e| <= |l| && l[10..58] == c && l[61 .. 61 + |e|] == e && j < |e|
    ensures l[10 + 3 * j .. 12 + 3 * j] == p && l[61 + j] == e[j]
  {
    SliceOfSlice(c, 0, |h|, 3 * j, 3 * j + 2);
    SliceOfSlice(l, 10, 48, 3 * j, 3 * j + 2);
    assert l[61 + j] == l[61 .. 61 + |e|][j];
  }

  /** Byte `j` of a chunk shows in its line as its hex pair at column 10 + 3j
      and as its ASCII-bar character at column 61 + j. */
  lemma LineCells(offset: nat, chunk: seq<byte>, j: nat)
    requires offset < LabelLimit && j < |chunk| <= BytesPerLine
    ensures |Line(offset, chunk)| == 63 + |chunk|
    ensures Line(offset, chunk)[10 + 3 * j .. 12 + 3 * j] == HexPair(chunk[j])
    ensures Line(offset, chunk)[61 + j] == Printable(chunk[j])
  {
    LineSplit(offset, chunk);
    HexColumnCell(chunk, j);
    CellsFromParts(Line(offset, chunk), HexColumn(chunk), LJust(HexColumn(chunk), HexColumnWidth),
                   AsciiBar(chunk), HexPair(chunk[j]), j);
  }

  lemma {:induction false} NewlineCountAppend(a: string, b: string)
    ensures NewlineCount(a + b) == NewlineCount(a) + NewlineCount(b)
    decreases |a|
  {
    if a != [] {
      assert (a + b)[1..] == a[1..] + b;
      NewlineCountAppend(a[1..], b);
    } else {
      assert a + b == b;
    }
  }

  lemma {:induction false} NoNewlineCount(s: string)
    requires NoNewline(s)
    ensures NewlineCount(s) == 0
    decreases |s|
  {
    if s != [] {
      NoNewlineCount(s[1..]);
    }
  }

  lemma CountPieces(a: string, b: string, c: string, d: string, e: string, f: string)
    ensures NewlineCount(a + b + c + d + e + f) ==
      NewlineCount(a) + NewlineCount(b) + NewlineCount(c) + NewlineCount(d) + NewlineCount(e) + NewlineCount(f)
  {
    NewlineCountAppend(a, b);
    NewlineCountAppend(a + b, c);
    NewlineCountAppend(a + b + c, d);
    NewlineCountAppend(a + b + c + d, e);
    NewlineCountAppend(a + b + c + d + e, f);
  }

  /** Each line ends in the only line break it contains. */
  lemma LineHasOneNewline(offset: nat, chunk: seq<byte>)
    ensures NewlineCount(Line(offset, chunk)) == 1
  {
    var a := FormatHex(offset, 8);
    var c := LJust(HexColumn(chunk), HexColumnWidth);
    var e := AsciiBar(chunk);
    FormatHexRoundTrip(offset, 8);
    assert NoNewline(a);
    NoNewlineCount(a);
    assert NoNewline(c);
    NoNewlineCount(c);
    assert NoNewline(e);
    NoNewlineCount(e);
    CountPieces(a, ": ", c, "  |", e, "|\n");
  }

  // ----- the layout of the whole view -----

  /* The whole-view lemmas are proved for the concatenation of lines made by
     any line renderer with the lengths of Line, then carried over to Line.
     Stated for Line directly, the solver keeps unfolding the formatting
     functions and the proofs get too costly. */

  /** The chunk lines for the starts `i`, `i + 16`, ..., each made by `line`. */
  function DumpWith(data: seq<byte>, i: nat, line: (nat, seq<byte>) -> string): string
    decreases |data| - i
  {
    if i >= |data| then "" else line(i, Chunk(data, i)) + DumpWith(data, i + BytesPerLine, line)
  }

  /** `line` makes lines of 63 characters plus one per byte for offsets with an 8-digit label. */
  ghost predicate HasLineLengths(line: (nat, seq<byte>) -> string) {
    forall o: nat, c: seq<byte> :: o < LabelLimit && 1 <= |c| <= BytesPerLine ==> |line(o, c)| == 63 + |c|
  }

  /** Every line `line` makes has exactly one line break. */
  ghost predicate HasOneNewline(line: (nat, seq<byte>) -> string) {
    forall o: nat, c: seq<byte> :: NewlineCount(line(o, c)) == 1
  }

  lemma {:induction false} SameDump(data: seq<byte>, i: nat)
    ensures DumpFrom(data, i) == DumpWith(data, i, Line)
    decreases |data| - i
  {
    if i < |data| {
      SameDump(data, i + BytesPerLine);
    }
  }

  lemma LineLengths()
    ensures HasLineLengths(Line)
  {
    forall o: nat, c: seq<byte> | o < LabelLimit && 1 <= |c| <= BytesPerLine
      ensures |Line(o, c)| == 63 + |c|
    {
      LineSplit(o, c);
    }
  }

  lemma LinesHaveOneNewline()
    ensures HasOneNewline(Line)
  {
    forall o: nat, c: seq<byte>
      ensures NewlineCount(Line(o, c)) == 1
    {
      LineHasOneNewline(o, c);
    }
  }

  lemma {:induction false} DumpWithLineCount(data: seq<byte>, i: nat, line: (nat, seq<byte>) -> string)
    requires HasOneNewline(line)
    ensures NewlineCount(DumpWith(data, i, line)) == if i >= |data| then 0 else (|data| - i + 15) / 16
    decreases |data| - i
  {
    if i < |data| {
      DumpWithLineCount(data, i + 16, line);
      NewlineCountAppend(line(i, Chunk(data, i)), DumpWith(data, i + 16, line));
    }
  }

  lemma {:induction false} DumpWithLength(data: seq<byte>, i: nat, line: (nat, seq<byte>) -> string)
    requires i <= |data| <= LabelLimit && HasLineLengths(line)
    ensures var n := |data| - i;
      |DumpWith(data, i, line)| == 79 * (n / 16) + (if n % 16 == 0 then 0 else 63 + n % 16)
    decreases |data| - i
  {
    if i < |data| {
      var n := |data| - i;
      assert |line(i, Chunk(data, i))| == 63 + |Chunk(data, i)|;
      if i + 16 <= |data| {
        DumpWithLength(data, i + 16, line);
        assert (n - 16) / 16 == n / 16 - 1 && (n - 16) % 16 == n % 16;
      } else {
        assert n / 16 == 0 && n % 16 == n;
      }
    }
  }

  lemma DropAfter(a: string, t: string, x: nat)
    requires x <= |t|
    ensures (a + t)[|a| + x ..] == t[x..]
  {
    assert forall k :: 0 <= k < |t| - x ==> (a + t)[|a| + x ..][k] == t[x..][k];
  }

  /** Past its first m lines, the text is the lines from chunk m on. */
  lemma {:induction false} DumpWithSkip(data: seq<byte>, i: nat, m: nat, line: (nat, seq<byte>) -> string)
    requires i + 16 * m <= |data| <= LabelLimit && HasLineLengths(line)
    ensures 79 * m <= |DumpWith(data, i, line)|
    ensures DumpWith(data, i, line)[79 * m ..] == DumpWith(data, i + 16 * m, line)
    decreases m
  {
    if m > 0 {
      var head := line(i, Chunk(data, i));
      var rest := DumpWith(data, i + 16, line);
      DumpWithSkip(data, i + 16, m - 1, line);
      var d := DumpWith(data, i, line);
      assert d == head + rest;
      assert |head| == 79;
      DropAfter(head, rest, 79 * (m - 1));
      assert 79 * m == |head| + 79 * (m - 1);
    }
  }

  lemma DumpWithLineAt(data: seq<byte>, i: nat, m: nat, line: (nat, seq<byte>) -> string)
    requires i + 16 * m < |data| <= LabelLimit && HasLineLengths(line)
    ensures var l := line(i + 16 * m, Chunk(data, i + 16 * m));
      && 79 * m + |l| <= |DumpWith(data, i, line)|
      && DumpWith(data, i, line)[79 * m .. 79 * m + |l|] == l
  {
    DumpWithSkip(data, i, m, line);
    var d := DumpWith(data, i, line);
    var tail := DumpWith(data, i + 16 * m, line);
    var l := line(i + 16 * m, Chunk(data, i + 16 * m));
    assert tail == l + DumpWith(data, i + 16 * m + 16, line);
    assert d[79 * m ..] == tail;
    assert d[79 * m .. 79 * m + |l|] == tail[..|l|];
  }

  /** The hex view of a buffer has one line break per chunk, ceil(n / 16)
      of them, and is empty exactly when the buffer is. */
  lemma DumpLineCount(data: seq<byte>)
    ensures NewlineCount(Table(data)) == (|data| + BytesPerLine - 1) / 16
    ensures Table(data) == "" <==> data == []
  {
    SameDump(data, 0);
    LinesHaveOneNewline();
    DumpWithLineCount(data, 0, Line);
  }

  /** The length of the hex view: 79 characters per full chunk, and 63 plus
      one per byte for a final partial chunk. */
  lemma DumpLength(data: seq<byte>)
    requires |data| <= LabelLimit
    ensures |Table(data)| ==
      79 * (|data| / 16) + (if |data| % 16 == 0 then 0 else 63 + |data| % 16)
  {
    SameDump(data, 0);
    LineLengths();
    DumpWithLength(data, 0, Line);
  }

  /** Line k of the hex view starts at character 79k and is the line of the
      chunk at offset 16k: the lines come in ascending offset order. */
  lemma DumpLineAt(data: seq<byte>, k: nat)
    requires 16 * k < |data| <= LabelLimit
    ensures var l := Line(16 * k, Chunk(data, 16 * k));
      && 79 * k + |l| <= |Table(data)|
      && Table(data)[79 * k .. 79 * k + |l|] == l
  {
    LineLengths();
    DumpWithLineAt(data, 0, k, Line);
    SameDump(data, 0);
  }

  /** A piece of a piece of a text is a piece of the text. */
  lemma PieceInPiece(d: string, base: nat, l: string, off: nat, p: string)
    requires base + |l| <= |d| && d[base .. base + |l|] == l
    requires off + |p| <= |l| && l[off .. off + |p|] == p
    ensures d[base + off .. base + off + |p|] == p
  {
    SliceOfSlice(d, base, |l|, off, off + |p|);
  }

  /** Line `l` shows byte `r` of `chunk` as its hex pair at column 10 + 3r
      and as its ASCII-bar character at column 61 + r. */
  predicate CellsShown(l: string, chunk: seq<byte>) {
    forall r :: 0 <= r < |chunk| ==>
      && 62 + r <= |l| && 12 + 3 * r <= |l|
      && l[10 + 3 * r .. 12 + 3 * r] == HexPair(chunk[r])
      && l[61 + r] == Printable(chunk[r])
  }

  lemma LineShowsCells(o: nat, c: seq<byte>)
    requires o < LabelLimit && |c| <= BytesPerLine
    ensures CellsShown(Line(o, c), c)
  {
    forall r | 0 <= r < |c|
      ensures 62 + r <= |Line(o, c)| && 12 + 3 * r <= |Line(o, c)|
      ensures Line(o, c)[10 + 3 * r .. 12 + 3 * r] == HexPair(c[r])
      ensures Line(o, c)[61 + r] == Printable(c[r])
    {
      LineCells(o, c, r);
    }
  }

  /** A cell of a line shows at the same column past the line's start in the text holding it. */
  lemma CellInText(d: string, base: nat, l: string, chunk: seq<byte>, r: nat)
    requires base + |l| <= |d| && d[base .. base + |l|] == l
    requires CellsShown(l, chunk) && r < |chunk|
    ensures base + 62 + r <= |d| && base + 12 + 3 * r <= |d|
    ensures d[base + 10 + 3 * r .. base + 12 + 3 * r] == HexPair(chunk[r])
    ensures d[base + 61 + r] == Printable(chunk[r])
  {
    PieceInPiece(d, base, l, 10 + 3 * r, HexPair(chunk[r]));
    assert d[base + 61 + r] == d[base .. base + |l|][61 + r];
  }

  lemma DumpWithCellAt(data: seq<byte>, k: nat, r: nat, line: (nat, seq<byte>) -> string)
    requires 16 * k + r < |data| <= LabelLimit && r < 16 && HasLineLengths(line)
    requires CellsShown(line(16 * k, Chunk(data, 16 * k)), Chunk(data, 16 * k))
    ensures 79 * k + 62 + r <= |DumpWith(data, 0, line)| && 79 * k + 12 + 3 * r <= |DumpWith(data, 0, line)|
    ensures DumpWith(data, 0, line)[79 * k + 10 + 3 * r .. 79 * k + 12 + 3 * r] == HexPair(data[16 * k + r])
    ensures DumpWith(data, 0, line)[79 * k + 61 + r] == Printable(data[16 * k + r])
  {
    var chunk := Chunk(data, 16 * k);
    DumpWithLineAt(data, 0, k, line);
    CellInText(DumpWith(data, 0, line), 79 * k, line(16 * k, chunk), chunk, r);
    assert chunk[r] == data[16 * k + r];
  }

  /** Byte r of chunk k shows in the hex view at columns 10 + 3r and 61 + r of line k. */
  lemma CellAt(data: seq<byte>, k: nat, r: nat)
    requires 16 * k + r < |data| <= LabelLimit && r < 16
    ensures 79 * k + 62 + r <= |Table(data)| && 79 * k + 12 + 3 * r <= |Table(data)|
    ensures Table(data)[79 * k + 10 + 3 * r .. 79 * k + 12 + 3 * r] == HexPair(data[16 * k + r])
    ensures Table(data)[79 * k + 61 + r] == Printable(data[16 * k + r])
  {
    SameDump(data, 0);
    LineLengths();
    LineShowsCells(16 * k, Chunk(data, 16 * k));
    DumpWithCellAt(data, k, r, Line);
  }

  /** Byte `j` of the buffer shows in the hex view as its hex pair at
      HexCellStart(j) and as its ASCII-bar character at BarCell(j). */
  lemma HexCellShowsByte(data: seq<byte>, j: nat)
    requires j < |data| <= LabelLimit
    ensures HexCellStart(j) + 2 <= |Table(data)|
    ensures Table(data)[HexCellStart(j) .. HexCellStart(j) + 2] == HexPair(data[j])
    ensures BarCell(j) < |Table(data)| && Table(data)[BarCell(j)] == Printable(data[j])
  {
    var k, r := j / 16, j % 16;
    assert j == 16 * k + r;
    CellAt(data, k, r);
  }
}

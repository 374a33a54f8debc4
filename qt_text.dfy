/** What Qt's `QPlainTextEdit.toPlainText()` returns for a pane filled by
    `setPlainText(s)`. Qt 5 stores a CR LF pair, a lone CR, U+2029 and the
    frame markers U+FDD0 and U+FDD1 as block separators, and `toPlainText`
    writes every block separator and every U+2028 as LF and every U+00A0 as
    a space. This is the text `save_as_text` writes to the file. */
module QtText {
  import opened HexText
  import HexDump
  import opened AsciiView

  const CR: char := '\r'
  const LF: char := '\n'
  const NoBreakSpace: char := '\U{00A0}'

  /** A character `toPlainText` gives back as LF (other than LF itself). */
  predicate IsBreak(c: char) {
    c == CR || c == '\U{2028}' || c == '\U{2029}' || c == '\U{FDD0}' || c == '\U{FDD1}'
  }

  /** A character that does not come back from `toPlainText` as it went in. */
  predicate IsConverted(c: char) {
    IsBreak(c) || c == NoBreakSpace
  }

  /** The text holds no character that Qt converts. */
  predicate Unconverted(s: string) {
    forall k :: 0 <= k < |s| ==> !IsConverted(s[k])
  }

  /** `toPlainText()` of a pane whose text was set to `s`: CR LF becomes one
      LF, every other break character one LF, and U+00A0 a space; all other
      characters come back unchanged and in order. */
  function PlainText(s: string): (r: string)
    ensures |r| <= |s|
    ensures Unconverted(r)
    decreases |s|
  {
    if s == [] then []
    else if |s| >= 2 && s[0] == CR && s[1] == LF then [LF] + PlainText(s[2..])
    else if IsBreak(s[0]) then [LF] + PlainText(s[1..])
    else if s[0] == NoBreakSpace then [' '] + PlainText(s[1..])
    else [s[0]] + PlainText(s[1..])
  }

  /** What `toPlainText` gives back for a character that is not a CR. */
  function PlainChar(c: char): (r: char)
    ensures r == c <==> !IsConverted(c)
  {
    if IsBreak(c) then LF else if c == NoBreakSpace then ' ' else c
  }

  /** Reading back goes character by character: a CR LF pair and a lone CR
      each give one LF, and any other character `PlainChar` of it. With the
      empty text giving the empty text, this fixes `PlainText` everywhere. */
  lemma PlainTextStep(c: char, t: string)
    ensures c == CR && t != [] && t[0] == LF ==> PlainText([c] + t) == [LF] + PlainText(t[1..])
    ensures c == CR && (t == [] || t[0] != LF) ==> PlainText([c] + t) == [LF] + PlainText(t)
    ensures c != CR ==> PlainText([c] + t) == [PlainChar(c)] + PlainText(t)
  {
    assert ([c] + t)[1..] == t;
    if t != [] {
      assert ([c] + t)[2..] == t[1..];
    }
  }

  /** Text without CR keeps its length, and each character comes back as
      `PlainChar` of it: breaks as LF, U+00A0 as a space, the rest as is. */
  lemma {:induction false} PlainTextWithoutCr(s: string)
    requires forall k :: 0 <= k < |s| ==> s[k] != CR
    ensures |PlainText(s)| == |s|
    ensures forall k :: 0 <= k < |s| ==> PlainText(s)[k] == PlainChar(s[k])
    decreases |s|
  {
    if s != [] {
      PlainTextWithoutCr(s[1..]);
      assert PlainText(s) == [PlainChar(s[0])] + PlainText(s[1..]);
      forall k | 1 <= k < |s| ensures PlainText(s)[k] == PlainChar(s[k]) {
        assert s[1..][k - 1] == s[k];
      }
    }
  }

  /** Text without converted characters comes back exactly as it went in. */
  lemma {:induction false} PlainTextKeeps(s: string)
    requires Unconverted(s)
    ensures PlainText(s) == s
    decreases |s|
  {
    if s != [] {
      assert !IsConverted(s[0]);
      PlainTextKeeps(s[1..]);
    }
  }

  /** Reading the text back twice changes nothing more. */
  lemma PlainTextIdempotent(s: string)
    ensures PlainText(PlainText(s)) == PlainText(s)
  {
  }

  /** The buffer `61 0D 0A 62` shown in ASCII mode is `"a\r\nb"`, and Qt
      gives it back as `"a\nb"`: the CR of the buffer is not saved. */
  lemma CrLfFolds()
    ensures AsciiText([0x61, 0x0D, 0x0A, 0x62]) == "a\r\nb"
    ensures PlainText("a\r\nb") == "a\nb"
  {
  }

  lemma UnconvertedAppend(a: string, b: string)
    requires Unconverted(a) && Unconverted(b)
    ensures Unconverted(a + b)
  {
    forall k | 0 <= k < |a + b| ensures !IsConverted((a + b)[k]) {
      if k >= |a| {
        assert (a + b)[k] == b[k - |a|];
      }
    }
  }

  lemma ColumnUnconverted(chunk: seq<byte>)
    ensures Unconverted(LJust(HexDump.HexColumn(chunk), HexDump.HexColumnWidth))
  {
    var column := HexDump.HexColumn(chunk);
    var padded := LJust(column, HexDump.HexColumnWidth);
    forall k | 0 <= k < |padded| ensures !IsConverted(padded[k]) {
      if k < |column| {
        assert padded[k] == column[k];
      }
    }
  }

  lemma BarUnconverted(chunk: seq<byte>)
    ensures Unconverted(HexDump.AsciiBar(chunk))
  {
    var bar := HexDump.AsciiBar(chunk);
    forall k | 0 <= k < |bar| ensures !IsConverted(bar[k]) {
      assert bar[k] == HexDump.Printable(chunk[k]);
    }
  }

  lemma NumeralUnconverted(offset: nat)
    ensures Unconverted(FormatHex(offset, 8))
  {
    FormatHexRoundTrip(offset, 8);
  }

  /** Every character of a table line is printable ASCII or the final LF. */
  lemma LineUnconverted(offset: nat, chunk: seq<byte>)
    ensures Unconverted(HexDump.Line(offset, chunk))
  {
    var numeral := FormatHex(offset, 8);
    var padded := LJust(HexDump.HexColumn(chunk), HexDump.HexColumnWidth);
    var bar := HexDump.AsciiBar(chunk);
    NumeralUnconverted(offset);
    ColumnUnconverted(chunk);
    BarUnconverted(chunk);
    UnconvertedAppend(numeral, ": ");
    UnconvertedAppend(numeral + ": ", padded);
    UnconvertedAppend(numeral + ": " + padded, "  |");
    UnconvertedAppend(numeral + ": " + padded + "  |", bar);
    UnconvertedAppend(numeral + ": " + padded + "  |" + bar, "|\n");
  }

  lemma {:induction false} DumpFromUnconverted(data: seq<byte>, i: nat)
    ensures Unconverted(HexDump.DumpFrom(data, i))
    decreases |data| - i
  {
    if i < |data| {
      LineUnconverted(i, HexDump.Chunk(data, i));
      DumpFromUnconverted(data, i + HexDump.BytesPerLine);
      UnconvertedAppend(HexDump.Line(i, HexDump.Chunk(data, i)), HexDump.DumpFrom(data, i + HexDump.BytesPerLine));
    }
  }

  /** The hex table comes back from Qt exactly as it was rendered. */
  lemma TableRoundTrip(data: seq<byte>)
    ensures PlainText(HexDump.Table(data)) == HexDump.Table(data)
  {
    DumpFromUnconverted(data, 0);
    PlainTextKeeps(HexDump.Table(data));
  }

  /** The ASCII rendering comes back from Qt exactly as it was rendered iff
      the buffer holds no CR byte (0x0D); every other byte renders as a
      character below 128 that Qt keeps, or as U+FFFD. */
  lemma AsciiTextRoundTrip(data: seq<byte>)
    ensures PlainText(AsciiText(data)) == AsciiText(data) <==> forall k :: 0 <= k < |data| ==> data[k] != 0x0D
  {
    var t := AsciiText(data);
    if forall k :: 0 <= k < |data| ==> data[k] != 0x0D {
      assert Unconverted(t) by {
        forall k | 0 <= k < |t| ensures !IsConverted(t[k]) {
          assert data[k] < 128 ==> t[k] as int == data[k];
        }
      }
      PlainTextKeeps(t);
    } else {
      var k :| 0 <= k < |data| && data[k] == 0x0D;
      assert t[k] == CR;
      assert !Unconverted(t);
    }
  }
}

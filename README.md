# ByteCraft hex editor — a Dafny model

ByteCraft is a small PyQt5 hex editor. Its window has two panes:

- the **hex view**, the primary pane. It shows the loaded buffer either as a hex table or as its ASCII rendering.
- the **text view**. This secondary pane is shown only in split mode. It holds the ASCII rendering of the buffer as of its last refresh.

This project models the editor's logic, the part that does not depend on Qt. It proves what that logic does to the buffer and to the two panes' text. It covers:

- **The hex table** (`HexDump`). Each 16-byte chunk becomes one line, made of:
  - an 8-digit lower-case offset label and `": "`;
  - the chunk's bytes as hex pairs joined by spaces, padded to 48 columns;
  - `"  |"`, the ASCII bar (bytes 32..126 as themselves, `.` otherwise), and `"|\n"`.

  The table is specified by a recursive function. `RenderHexTable` builds it with the source's loop. Lemmas give its line count, its length and where each line starts, and they pin down, for every byte, the exact characters that show its hex pair and its ASCII-bar character.
- **Number formatting** (`HexText`): `f"{n:08x}"`, `f"{b:02x}"` and `str.ljust`. Each formatted numeral reads back as its value.
- **The ASCII rendering** (`AsciiView`): `bytes.decode('ascii')` and its `errors='replace'` fall-back, and `str.encode()` as UTF-8.
- **Hex input** (`HexParse`): `bytearray.fromhex` as a parser that returns bytes or the error it raises. It also models the selection clean-up `strip().replace(" ", "")`. Selecting the hex column of a line of the table, cleaning it up and decoding it gives back exactly that line's bytes.
- **Search and replace** (`ByteSearch`): Python's `bytes.find`, `count` and `replace`, including what they do with an empty pattern.
- **Cross-pane highlighting** (`Highlight`): which run of characters `on_text_selection` and `on_hex_selection` highlight.
- **Reading a pane back** (`QtText`): the text Qt's `toPlainText()` returns for a pane, which is what Save As Text writes. It turns line and paragraph breaks into LF and U+00A0 into a space. The hex table comes back unchanged; the ASCII rendering does iff the buffer holds no CR byte.
- **The session** (`Editor`): the class `HexEditor`. Its fields are the buffer, the current path, the three switches, both panes' text and highlights, and the hex view's cursor. Its methods are the menu actions and the handlers of the original.
  - Files and dialogs are parameters and results. A loaded file comes in as its bytes and, for a `.txt` file, its decoded text. A saved file goes out as a `SavedFile` value. A dialog answer is a string, empty when the dialog was cancelled.
  - `Synced()` says the panes show the buffer. The lemmas and `ensures` clauses state which actions keep it.

Three behaviours of the original are kept as written:

- A `.txt` load puts the raw text into the hex view even in hex mode. `Editor.TxtLoadInHexModeShowsRawText` proves that the pane then does not show the hex table of the new buffer.
- `perform_search` puts the hex view's cursor at the byte index of the match, whatever the view shows.
- `on_text_selection` highlights the run `highlight_hex` computes, three characters per byte from the top of the hex view. That run in general does not mark the match (see Findings). `Editor.HexEditor.OnTextSelectionCorrected` is the same handler with the highlight put where the match is shown.

Each pane is modelled as the string the original passes to `setPlainText`, and a highlight as a run of positions in that string; what is read back from a pane is `QtText.PlainText` of it.

## Model

| member | source | states |
|---|---|---|
| HexText.DigitRoundTrip | bytecraft.py:296 | the digit written for a nibble reads back as that nibble |
| HexText.LJust | bytecraft.py:297 | `ljust` keeps the string as a prefix, pads with spaces only, and reaches exactly the width unless the string is longer |
| HexText.FormatHexRoundTrip | bytecraft.py:293 | `FormatHex(n, w)`, Python's `f"{n:0{w}x}"`, is lower-case hex at least `w` long that reads back as `n`; it is exactly `w` long iff `n < 16^w`, and a longer result never starts with a padding zero |
| HexText.NumeralValue | bytecraft.py:293 | the hex numeral of `n` reads back as `n` |
| HexDump.Printable | bytecraft.py:300 | a byte shows as itself iff it is in 32..126, otherwise as `.` |
| HexDump.HexPairIsFormat | bytecraft.py:296 | the two-digit pair of a byte is what `f"{byte:02x}"` writes |
| HexDump.HexColumn | bytecraft.py:296 | the joined pairs are `3n-1` characters long (0 for no bytes) and hold only spaces and lower-case hex digits |
| HexDump.AsciiBar | bytecraft.py:300 | one character per byte, each the byte's printable form |
| HexDump.RenderHexTable | bytecraft.py:289-303 | the loop over chunk starts 0, 16, 32, … appending label, padded column and bar builds exactly the hex table of the buffer |
| HexDump.LineFrame | bytecraft.py:293-301 | `Line`, the text one pass of the loop appends, is for any offset the offset label (at least 8 digits, reading back as the offset), `": "`, the padded hex column, two spaces and the opening bar frame, the ASCII bar, and the closing frame and line break, so it is 55 characters plus the label plus one per byte |
| HexDump.LineSplit | bytecraft.py:293-301 | for an offset below 2^32, a line is 63 characters plus one per byte: the label at 0..8, then the colon and space, the padded column at 10..58, two spaces and the opening bar frame, the bar from 61 on, and the closing frame and line break |
| HexDump.LineLayout | bytecraft.py:293-301 | a line's label reads back as its chunk offset, and the column's padding is spaces up to the bar's frame |
| HexDump.LineCells | bytecraft.py:296-300 | byte `j` of a chunk shows as its hex pair at column `10+3j` and as its bar character at column `61+j` |
| HexDump.DumpLineCount | bytecraft.py:290-301 | `Table`, the whole hex table, has ceil(n/16) line breaks, and it is empty iff the buffer is |
| HexDump.DumpLength | bytecraft.py:290-301 | the table is 79 characters per full chunk plus `63 + n mod 16` for a final partial chunk |
| HexDump.DumpLineAt | bytecraft.py:290-301 | line `k` starts at character `79k` and is the line of the chunk at offset `16k`, so lines come in ascending offset order |
| HexDump.HexCellShowsByte | bytecraft.py:290-301 | byte `j` of the buffer shows in the table as its hex pair at `79(j/16)+10+3(j mod 16)` and as its printable character at `79(j/16)+61+j mod 16` |
| AsciiView.DecodeStrict | bytecraft.py:306 | the strict ASCII decode succeeds iff every byte is below 128, and then maps each byte to the character with that code |
| AsciiView.DecodeReplace | bytecraft.py:308 | the `'replace'` decode maps each byte below 128 to its character and each other byte to one U+FFFD |
| AsciiView.AsciiText | bytecraft.py:305-308 | the rendering has one character per byte: the byte's character if below 128, U+FFFD otherwise |
| AsciiView.StrictAgreesWithReplace | bytecraft.py:305-308 | the strict decode, when it succeeds, equals the fall-back, so the rendering is the fall-back decode either way |
| AsciiView.AsciiTextSlice | bytecraft.py:316-319 | rendering a slice of the buffer is the same slice of the rendering |
| AsciiView.EncodeChar | bytecraft.py:269 | a character's UTF-8 form is 1 to 4 bytes with the standard lead and continuation ranges, and is one byte iff the code point is below 0x80 |
| AsciiView.EncodeCharRoundTrip | bytecraft.py:269 | decoding a character's UTF-8 form gives back its code point, and its length follows the code-point ranges |
| AsciiView.Utf8Encode | bytecraft.py:269 | the encoding is never shorter than the text and is as long iff the text is ASCII |
| AsciiView.AsciiEncoding | bytecraft.py:269 | ASCII text encodes to one byte per character, each the character's code |
| AsciiView.AsciiRoundTrip | bytecraft.py:268-269 | ASCII text, encoded and rendered back, is the same text |
| AsciiView.AsciiBytesRoundTrip | bytecraft.py:316-319 | bytes below 128, rendered and encoded again, are the same bytes |
| HexParse.DecodePairs | bytecraft.py:324 | a decoded string holds only whitespace and hex digits, with two digits per byte; a non-hex error points at a character that is not a hex digit; an odd-digit error comes from an odd digit count; when it succeeds is stated by DecodesIff, and which bytes come out by DecodeIgnoresSpace with CompactValues |
| HexParse.DecodeIgnoresSpace | bytecraft.py:324 | whitespace between pairs does not change what `fromhex` decodes: a decodable string gives the same bytes as its digits written back to back, so with CompactValues each byte is `16*hi + lo` of its pair |
| HexParse.CompactDecodesIff | bytecraft.py:370 | a string without whitespace decodes iff it is an even number of hex digits |
| HexParse.FromHex | bytecraft.py:324 | `fromhex` succeeds only on ASCII with two digits per byte; on ASCII it is the pair decoder; non-ASCII input is rejected at its first non-ASCII character |
| HexParse.DecodesIff | bytecraft.py:324 | the pair decoder succeeds iff the string holds only whitespace and hex digits and every digit that starts a pair is directly followed by its second digit, so `"41 42"` decodes and `"4 1"` does not |
| HexParse.CompactValues | bytecraft.py:370 | each byte decoded from compact hex is `16*hi + lo` of its two digits |
| HexParse.StripStart | bytecraft.py:366 | the scan skips exactly the leading whitespace |
| HexParse.StripEnd | bytecraft.py:366 | the scan drops exactly the trailing whitespace |
| HexParse.Strip | bytecraft.py:366 | `strip()` returns a slice of the input with only whitespace before and after it, and the slice neither starts nor ends with whitespace |
| HexParse.RemoveSpaces | bytecraft.py:366 | `replace(" ", "")` leaves no space and changes nothing in a string without spaces; a single space becomes nothing and any other single character stays (with RemoveSpacesAppend, this fixes the result for every string) |
| HexParse.RemoveSpacesAppend | bytecraft.py:366 | removing spaces distributes over concatenation |
| HexParse.HexColumnDecodes | bytecraft.py:296 | decoding a hex column gives back its bytes |
| HexParse.HexColumnFromHex | bytecraft.py:296 | `fromhex` of a hex column gives back its bytes |
| HexParse.CompactFromHex | bytecraft.py:296 | `fromhex` of the pairs written without spaces gives back the bytes |
| HexParse.HexColumnCompacts | bytecraft.py:296 | removing the spaces of a hex column leaves the bytes' pairs back to back |
| HexParse.StripPadded | bytecraft.py:297 | stripping a padded string that has no whitespace at its ends gives back the string |
| HexParse.SelectionCompacts | bytecraft.py:296-297 | cleaning up a line's padded hex column gives the chunk's pairs back to back |
| HexParse.SelectionRoundTrip | bytecraft.py:296-297 | selecting a line's padded hex column, cleaning it up and decoding it gives back exactly that chunk |
| ByteSearch.FindFrom | bytecraft.py:325 | scanning from `i` finds the least occurrence at or after `i`, or -1 iff there is none |
| ByteSearch.Find | bytecraft.py:325 | `find` is the least index where the pattern occurs, or -1 iff it occurs nowhere |
| ByteSearch.ReplaceNoOccurrence | bytecraft.py:338 | replacing an absent pattern leaves the buffer unchanged and counts no occurrence |
| ByteSearch.ReplaceAtFind | bytecraft.py:338 | `Replace`, the model of `bytes.replace` with a non-empty pattern, keeps everything before the first occurrence, puts the new bytes there and goes on after the occurrence; the count is one more than that of the rest |
| ByteSearch.CountZeroIffNotFound | bytecraft.py:338 | a pattern has no counted occurrence iff `find` returns -1; an empty pattern has both a count and a find at 0 |
| ByteSearch.ReplaceLength | bytecraft.py:338 | the result is `old length + count·(new length − pattern length)` long |
| ByteSearch.InsertLength | bytecraft.py:338 | with an empty pattern and `m` new bytes the result is `n + (n+1)·m` long, one copy of the new bytes for each of the `n+1` positions |
| ByteSearch.InsertAt | bytecraft.py:338 | with an empty pattern and `m` new bytes, copy `k` of the new bytes starts at `k·(m+1)` and data byte `k` comes right after it |
| ByteSearch.InsertEnds | bytecraft.py:338 | with an empty pattern the result ends with the last copy of the new bytes, after the last data byte |
| ByteSearch.ReplaceSame | bytecraft.py:338 | replacing a pattern with itself leaves the buffer unchanged |
| ByteSearch.InsertNothing | bytecraft.py:338 | inserting nothing everywhere leaves the buffer unchanged |
| Highlight.HexSelectionHighlight | bytecraft.py:363-375 | a hex selection highlights the text view iff it cleans up to non-empty hex that decodes and occurs in the buffer; the run starts at the first occurrence and is as long as the decoded bytes |
| Highlight.TextSelectionHighlight | bytecraft.py:351-360 | a non-empty text selection highlights the hex view iff its UTF-8 bytes occur; the run, `HexHighlight` of the first occurrence, starts at three times that index and is three characters per byte |
| Highlight.TextHighlightCoversMatch | bytecraft.py:388-393 | `TextHighlight`, the text-view run of a match at the byte index unchanged, covers exactly the characters that render the matched bytes |
| Highlight.LineHexColumnInDump | bytecraft.py:293-297 | characters `79k+10 .. 79k+58` of the table are line `k`'s padded hex column |
| Highlight.ColumnSelectionIsFind | bytecraft.py:363-375 | selecting a padded hex column highlights the first occurrence of its bytes |
| Highlight.ColumnSelectionFindsChunk | bytecraft.py:363-375 | selecting the padded hex column of bytes found at `p` highlights a run at or before `p` that shows those bytes |
| Highlight.SelectingLineHexFindsChunk | bytecraft.py:290-297 | selecting line `k`'s hex column in the table highlights, at or before offset `16k`, text that shows that line's bytes |
| Highlight.TextSelectionFindsAscii | bytecraft.py:351-360 | selecting ASCII text from the rendering always highlights, at or before three times where it was taken, three characters per byte |
| Highlight.HexHighlightMisplaced | bytecraft.py:377-382 | `HexHighlight`, the as-written run of `highlight_hex`, for byte `j` starts `10 + 31(j/16)` characters before that byte's hex pair |
| Highlight.HexHighlightExample | bytecraft.py:377-382 | for the buffer `[0x41]`, selecting `A` highlights characters 0..3, which read `000` of the offset label, while `41` sits at characters 10..12; in ASCII mode, for the buffer `xA`, the run of `A` is asked to start at character 3, past the end of the two-character pane |
| Highlight.CellSpansShowMatch | bytecraft.py:290-301 | the corrected runs, one per matched byte, each cover exactly the two characters of that byte's hex pair |
| Highlight.TextSelectionCells | bytecraft.py:351-360 | the corrected text-selection highlight finds the same match as the original; in hex mode it marks the hex pair of each matched byte, in ASCII mode the one run of the matched characters |
| Editor.PrimaryView | bytecraft.py:289-309 | the hex view is empty iff the buffer is; in ASCII mode it has one character per byte, in hex mode more characters than bytes |
| Editor.Needle | bytecraft.py:324 | only hex mode can fail to decode a needle; a text needle is at least as long as the text, and as long iff the text is ASCII; a hex needle has one byte per two hex digits of ASCII input |
| Editor.SearchResult | bytecraft.py:322-331 | a search fails with the `fromhex` error iff hex mode rejects the input; a match is the first occurrence of the needle; "no match" means it occurs nowhere |
| Editor.ReplaceResult | bytecraft.py:333-338 | replacement fails iff either argument fails to decode, which only happens in hex mode, reporting the find string's error first; otherwise the new length follows the count formula |
| Editor.ReplaceWithItselfKeepsData | bytecraft.py:333-338 | replacing a string with itself leaves the buffer unchanged |
| Editor.ReplaceAbsentKeepsData | bytecraft.py:333-338 | replacing a string the search does not find leaves the buffer unchanged |
| Editor.HexSearchForShownBytes | bytecraft.py:296 | in hex mode, searching for bytes typed as the table writes them finds exactly those bytes' first occurrence |
| Editor.AsciiSearchForShownText | bytecraft.py:316-331 | in ASCII mode, searching for ASCII text copied from the rendering finds it at or before where it was copied |
| Editor.TxtLoadRendersBack | bytecraft.py:265-269 | an ASCII `.txt` file loads into a buffer whose ASCII rendering is the file's text |
| Editor.TxtLoadInHexModeShowsRawText | bytecraft.py:265-269 | in hex mode a non-empty `.txt` load leaves the hex view showing text that is not the table of the loaded buffer |
| QtText.PlainText | bytecraft.py:284 | `toPlainText()` of a pane set to `s` is never longer than `s` and holds no CR, U+2028, U+2029, U+FDD0, U+FDD1 or U+00A0; what each character becomes is stated by PlainTextStep |
| QtText.PlainChar | bytecraft.py:284 | a character other than CR comes back unchanged iff it is not a break character or U+00A0 (breaks come back as LF, U+00A0 as a space) |
| QtText.PlainTextStep | bytecraft.py:284 | reading back goes left to right: a CR LF pair and a lone CR each give one LF, any other character its `PlainChar`; with the empty text this fixes the result for every text |
| QtText.PlainTextWithoutCr | bytecraft.py:284 | text without CR comes back just as long, character `k` becoming `PlainChar` of character `k` |
| QtText.PlainTextKeeps | bytecraft.py:284 | text without any of those characters comes back exactly as it was set |
| QtText.PlainTextIdempotent | bytecraft.py:284 | reading back text that was already read back changes nothing |
| QtText.CrLfFolds | bytecraft.py:284 | the buffer `61 0D 0A 62` shows in ASCII mode as `a` CR LF `b`, which `toPlainText()` gives back as `a` LF `b` |
| QtText.TableRoundTrip | bytecraft.py:284 | the hex table comes back from `toPlainText()` exactly as it was rendered |
| QtText.AsciiTextRoundTrip | bytecraft.py:284 | the ASCII rendering comes back exactly as it was rendered iff the buffer holds no CR byte |
| Editor.SavedViewIsView | bytecraft.py:281-285 | Save As Text writes exactly the primary pane's rendering of the buffer iff the pane is in hex mode or the buffer holds no CR byte |
| Editor.HexEditor.constructor | bytecraft.py:19-24 | a new window has an empty buffer and no path, is in hex mode with dark mode and split mode off, the text view hidden and no style sheet set, and its panes show the buffer |
| Editor.HexEditor.RefreshTextView | bytecraft.py:314-320 | the text view holds the ASCII rendering of the buffer, with no highlight |
| Editor.HexEditor.RefreshHexView | bytecraft.py:287-312 | the hex view holds the table or the rendering as the mode says, its cursor goes back to 0, and in split mode the text view is refreshed too |
| Editor.HexEditor.NewFile | bytecraft.py:148-152 | buffer and both panes are emptied and the hex view's cursor goes back to 0; the path and the split state are kept |
| Editor.HexEditor.Close | bytecraft.py:188-193 | as New, and the path becomes empty |
| Editor.HexEditor.ToggleAsciiHex | bytecraft.py:241-244 | the mode flips and the hex view is redrawn in the new mode with its cursor at 0; the panes stay in step with the buffer |
| Editor.HexEditor.ApplyCssTheme | bytecraft.py:341-348 | both panes get the dark style iff dark mode is on, the light style otherwise |
| Editor.HexEditor.ToggleLightDarkMode | bytecraft.py:247-250 | the theme flips and both panes get its style |
| Editor.HexEditor.ToggleSplitView | bytecraft.py:253-260 | split mode flips; turning it on shows a refreshed text view, turning it off hides it unchanged |
| Editor.HexEditor.LoadFile | bytecraft.py:262-273 | the path is recorded; a `.txt` file's text goes to the hex view and its UTF-8 bytes become the buffer; any other file's bytes become the buffer and are displayed; either way the hex view's cursor goes back to 0 |
| Editor.HexEditor.OpenFile | bytecraft.py:155-159 | a cancelled dialog changes nothing; otherwise the chosen file is loaded, with everything `LoadFile` states about the buffer, both panes, their highlights and the cursor |
| Editor.HexEditor.SaveFile | bytecraft.py:275-279 | the buffer is written unchanged to the path, which becomes the current path |
| Editor.HexEditor.SaveAsText | bytecraft.py:281-285 | the hex view's text as Qt's `toPlainText()` returns it is written to the path, which becomes the current path; when the view shows the buffer, that is exactly the view's text iff it is in hex mode or the buffer holds no CR byte |
| Editor.HexEditor.SaveAs | bytecraft.py:170-177 | a cancelled dialog writes nothing; a `.txt` name gets the hex view's text as `toPlainText()` returns it, any other name the raw buffer |
| Editor.HexEditor.Save | bytecraft.py:162-167 | with a current path the raw buffer goes there, whatever its extension; without one it behaves as Save As, writing the `toPlainText()` text for a `.txt` name |
| Editor.HexEditor.PerformSearch | bytecraft.py:322-331 | the outcome is the search result; only on a match does the cursor move, to the match's byte index; the buffer is not touched |
| Editor.HexEditor.FindAndReplace | bytecraft.py:333-339 | on a decode error nothing changes; otherwise the buffer is the replacement result and is redrawn, with the hex view's cursor at 0; panes in step stay in step |
| Editor.HexEditor.OnHexSelection | bytecraft.py:363-375 | the text view's highlight becomes the selection's highlight when there is one, and is left alone otherwise |
| Editor.HexEditor.OnTextSelection | bytecraft.py:351-360 | the hex view's highlight becomes the as-written run of the match, three characters per byte from the top, when there is one, and is left alone otherwise |
| Editor.HexEditor.OnTextSelectionCorrected | bytecraft.py:351-360 | as `on_text_selection`, but when the hex view shows the buffer the highlight marks each matched byte's hex pair in hex mode, and the matched characters in ASCII mode |
| Editor.ToggleAsciiHexTwice | bytecraft.py:241-244 | toggling the mode twice, from any state, restores the mode and the split switches, leaves the path and the theme alone, leaves the hex view showing the buffer with no highlight and its cursor at 0; when the panes were in step, the hex view shows what it showed before |
| Editor.ToggleSplitViewTwice | bytecraft.py:253-260 | toggling split mode twice, from any state, restores the split switch, leaves the buffer, the path, the theme and the hex view alone, and leaves the text view showing the buffer's rendering with no highlight; when the text view's visibility matched the switch, it is restored too |

## Left out

- The Qt window, menus, fonts, splitter, message boxes, the About box and Quit (bytecraft.py:13-145, 195-198, 406-427) are user-interface plumbing with no logic to prove.
- Cut, copy, paste, undo and redo (bytecraft.py:200-222) are handled by the Qt text widget and never touch the buffer.
- Edits the user makes in the hex view are not modelled. Only the text view is made read-only (bytecraft.py:30), so typing, cutting, pasting, undo and redo can change the hex view's text, and with it what Save As Text writes, without changing the buffer. In the model the hex view changes only through the editor's own actions.
- Printing (bytecraft.py:180-185) is output through a foreign library.
- The search and replace dialogs (bytecraft.py:225-238) are left out: they are dialogs. Their non-empty guard is not modelled either, so the model also covers an input that decodes to no bytes, with Python's semantics for an empty pattern.
- Reading and writing files is I/O. A load takes the file's bytes, and for `.txt` its decoded text, as parameters. A save returns what would be written. I/O errors, the platform text encoding and newline translation are not modelled.
- Qt's handling of cursors and char formats is not modelled:
  - a position past the end of the document: Qt's `setPosition` refuses it with a warning and leaves the cursor where it was, and `movePosition` stops at the end. The model keeps the computed position (`OnTextSelection` in ASCII mode, `PerformSearch` after a `.txt` load);
  - painting of the highlight colours;
  - `clear_highlights` (bytecraft.py:399-404), modelled only as "the new highlight replaces the old one";
  - `setPlainText` dropping formats, modelled only as "redrawing a pane clears its highlight".
- Qt's `selectedText()` writes a line break as U+2029. The model takes the selection as given.
- The signal wiring (bytecraft.py:41-42) that runs the selection handlers on every cursor move is not modelled. The handlers are methods called with the selection.
- A `ValueError` from `fromhex` in search or replace is not caught by the original (bytecraft.py:324, 335-336). The handlers run as Qt slots, and from PyQt5 5.5 on an exception left unhandled in a slot calls `qFatal`, which ends the program. The model returns the error and leaves the buffer as it was.
- Python strings may hold lone surrogates, which `str.encode()` rejects. Dafny `char`s are Unicode scalar values, so the model has none.
- Each pane is modelled as the string given to `setPlainText`. Qt stores a CR LF pair of that string as one block separator, so after a CR LF byte pair the positions in the Qt document lag the positions modelled here by one. This folding is not modelled for positions, so the highlight and cursor positions are positions in the string. It is modelled for what Save As Text writes: `QtText.PlainText` is the text `toPlainText()` gives back.
- HexDump.LineSplit: assumes an offset below 2^32, where the label has exactly 8 digits. HexDump.LineFrame states the layout for every offset.
- HexDump.LineLayout: assumes an offset below 2^32, for the same reason.
- HexDump.LineCells: assumes an offset below 2^32, for the same reason.
- HexDump.DumpLength: assumes a buffer of at most 4 GiB. Past that the offset labels have more than 8 digits and the line arithmetic shifts.
- HexDump.DumpLineAt: assumes a buffer of at most 4 GiB, for the same reason.
- HexDump.HexCellShowsByte: assumes a buffer of at most 4 GiB, for the same reason.
- Highlight.LineHexColumnInDump: assumes a buffer of at most 4 GiB, for the same reason.
- Highlight.SelectingLineHexFindsChunk: assumes a buffer of at most 4 GiB, for the same reason.
- Highlight.CellSpansShowMatch: assumes a buffer of at most 4 GiB, for the same reason.
- Highlight.TextSelectionCells: in hex mode, assumes a buffer of at most 4 GiB, for the same reason.
- Editor.HexEditor.OnTextSelectionCorrected: in hex mode, assumes a buffer of at most 4 GiB, for the same reason.
- Editor.PrimaryView: says the table is longer than the buffer only for buffers of at most 4 GiB.
- Editor.TxtLoadInHexModeShowsRawText: assumes an encoding of at most 4 GiB, for the same reason.
- Editor.HexEditor.PerformSearch: keeps the original's cursor position, the byte index of the match. In hex mode that is not where the match is displayed. No corrected variant is modelled.

## Findings

| source | as written | input that shows it | evidently intended | confidence | as-written member | corrected member |
|---|---|---|---|---|---|---|
| bytecraft.py:381-382 | `highlight_hex` highlights characters `[3*start, 3*start + 3*length)` counted from the top of the hex view. In hex mode it ignores the 10-character offset label and the 79-character lines. In ASCII mode the view has one character per byte, not three. | A buffer holding the byte 0x41; select `A` in the text view. Characters 0..3 (`000` of the label) are highlighted, but the pair `41` is at characters 10..12. In ASCII mode, the buffer `xA` with `A` selected: the requested start, 3, lies past the end of the two-character view, so the match is not the run that gets marked. | In hex mode, highlight for each matched byte `j` the two characters of its pair at `79*(j/16) + 10 + 3*(j mod 16)`. In ASCII mode, highlight the matched characters `[start, start + length)`. | not executed | Highlight.HexHighlightExample | Highlight.TextSelectionCells |

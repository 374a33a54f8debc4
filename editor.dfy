/** The editor session: the buffer being edited, the path it came from or
    goes to, the three view switches, and what the two panes show. The
    primary pane ("hex view") shows either the hex table or the ASCII
    rendering of the buffer. The secondary pane ("text view") shows the
    ASCII rendering in split mode. Menu actions are the methods of
    `HexEditor`. Files and dialogs are parameters and results: a loaded
    file arrives as its bytes (and, for a `.txt` file, as its decoded text),
    a saved file leaves as a `SavedFile` value, and a dialog answer is a
    string that is empty when the dialog was cancelled. */
module Editor {
  import opened Wrappers
  import opened HexText
  import HexDump
  import opened AsciiView
  import opened HexParse
  import opened ByteSearch
  import opened Highlight
  import opened QtText

  /** The text Qt gives back from the primary pane is what was rendered
      into it, except in ASCII mode for a buffer holding a CR byte, whose CR
      LF pairs and lone CRs come back as LF. */
  lemma SavedViewIsView(data: seq<byte>, hexMode: bool)
    ensures PlainText(PrimaryView(data, hexMode)) == PrimaryView(data, hexMode) <==>
              hexMode || forall k :: 0 <= k < |data| ==> data[k] != 0x0D
  {
    if hexMode {
      TableRoundTrip(data);
    } else {
      AsciiTextRoundTrip(data);
    }
  }

  /** What the primary pane shows for a buffer: the hex table in hex mode,
      the ASCII rendering otherwise. The pane is empty exactly when the buffer
      is; the rendering has one character per byte, the table more. */
  function PrimaryView(data: seq<byte>, hexMode: bool): (r: string)
    ensures r == [] <==> data == []
    ensures !hexMode ==> |r| == |data|
    ensures hexMode && data != [] && |data| <= HexDump.LabelLimit ==> |r| > |data|
  {
    if hexMode then
      HexDump.DumpLineCount(data);
      if |data| <= HexDump.LabelLimit then
        HexDump.DumpLength(data);
        HexDump.Table(data)
      else HexDump.Table(data)
    else AsciiText(data)
  }

  /** How a search or replacement argument becomes bytes: `fromhex` in hex
      mode, UTF-8 encoding otherwise. */
  function Needle(s: string, hexMode: bool): (r: Result<seq<byte>, HexError>)
    ensures r.Err? ==> hexMode
    ensures !hexMode ==> r.Ok? && |r.value| >= |s| && (|r.value| == |s| <==> IsAscii(s))
    ensures hexMode && r.Ok? ==> IsAscii(s) && 2 * |r.value| == HexDigitCount(s)
  {
    if hexMode then FromHex(s) else Ok(Utf8Encode(s))
  }

  /** What `perform_search` ends with: the cursor moved to a match, the
      "No match found." message, or the `ValueError` of `fromhex`. */
  datatype SearchOutcome = Found(index: nat) | NoMatch | InvalidHex(error: HexError)

  /** A file the editor writes: the raw buffer, or the primary pane's text. */
  datatype SavedFile = BinaryFile(path: string, bytes: seq<byte>) | TextFile(path: string, text: string)

  /** Python's `path.endswith('.txt')` (case-sensitive). */
  predicate EndsWithTxt(path: string) {
    |path| >= 4 && path[|path| - 4..] == ".txt"
  }

  const LightStyle: string := "background-color: white; color: black;"
  const DarkStyle: string := "background-color: #1e1e1e; color: #d4d4d4;"

  /** The style sheet `apply_css_theme` gives both panes. */
  function StyleFor(dark: bool): string {
    if dark then DarkStyle else LightStyle
  }

  /** The outcome of searching the buffer for the typed string. */
  function SearchResult(data: seq<byte>, query: string, hexMode: bool): (r: SearchOutcome)
    ensures r.InvalidHex? <==> hexMode && FromHex(query).Err?
    ensures r.InvalidHex? ==> r.error == FromHex(query).error
    ensures r.Found? ==>
      && Needle(query, hexMode).Ok?
      && OccursAt(data, Needle(query, hexMode).value, r.index)
      && forall j: nat :: j < r.index ==> !OccursAt(data, Needle(query, hexMode).value, j)
    ensures r.NoMatch? ==>
      && Needle(query, hexMode).Ok?
      && forall j: nat :: !OccursAt(data, Needle(query, hexMode).value, j)
  {
    match Needle(query, hexMode) {
      case Err(e) => InvalidHex(e)
      case Ok(b) =>
        var i := Find(data, b);
        if i == -1 then NoMatch else Found(i)
    }
  }

  /** The buffer after `find_and_replace`, or the `ValueError` that stops it
      before the buffer is touched (the find string is decoded first). */
  function ReplaceResult(data: seq<byte>, findStr: string, replaceStr: string, hexMode: bool)
    : (r: Result<seq<byte>, HexError>)
    ensures r.Err? <==> Needle(findStr, hexMode).Err? || Needle(replaceStr, hexMode).Err?
    ensures r.Err? ==> hexMode
    ensures r.Err? ==> r.error == (if Needle(findStr, hexMode).Err? then Needle(findStr, hexMode).error
                                   else Needle(replaceStr, hexMode).error)
    ensures r.Ok? ==>
      var f, w := Needle(findStr, hexMode).value, Needle(replaceStr, hexMode).value;
      |r.value| == |data| + Count(data, f) * (|w| - |f|)
  {
    match Needle(findStr, hexMode) {
      case Err(e) => Err(e)
      case Ok(f) =>
        match Needle(replaceStr, hexMode) {
          case Err(e) => Err(e)
          case Ok(w) =>
            ReplaceLength(data, f, w);
            Ok(Replace(data, f, w))
        }
    }
  }

  /** Replacing a string by itself never changes the buffer. */
  lemma ReplaceWithItselfKeepsData(data: seq<byte>, s: string, hexMode: bool)
    ensures ReplaceResult(data, s, s, hexMode) ==
      if Needle(s, hexMode).Ok? then Ok(data) else Err(Needle(s, hexMode).error)
  {
    if Needle(s, hexMode).Ok? {
      ReplaceSame(data, Needle(s, hexMode).value);
    }
  }

  /** Replacing something the buffer does not contain changes nothing. */
  lemma ReplaceAbsentKeepsData(data: seq<byte>, findStr: string, replaceStr: string, hexMode: bool)
    requires SearchResult(data, findStr, hexMode).NoMatch? && Needle(replaceStr, hexMode).Ok?
    ensures ReplaceResult(data, findStr, replaceStr, hexMode) == Ok(data)
  {
    var f := Needle(findStr, hexMode).value;
    assert Find(data, f) == -1;
    ReplaceNoOccurrence(data, f, Needle(replaceStr, hexMode).value);
  }

  /** In hex mode, typing bytes the way the hex view writes them (pairs
      separated by spaces) searches for exactly those bytes. */
  lemma HexSearchForShownBytes(data: seq<byte>, needle: seq<byte>)
    ensures SearchResult(data, HexDump.HexColumn(needle), true) ==
      if Find(data, needle) == -1 then NoMatch else Found(Find(data, needle))
  {
    HexColumnFromHex(needle);
  }

  /** In ASCII mode, searching for a piece of ASCII text copied from the
      rendering finds it, at or before the place it was copied from. */
  lemma AsciiSearchForShownText(data: seq<byte>, i: nat, n: nat)
    requires i + n <= |data|
    requires forall k :: i <= k < i + n ==> data[k] < 128
    ensures var r := SearchResult(data, AsciiText(data)[i .. i + n], false);
      r.Found? && r.index <= i
  {
    var slice := data[i .. i + n];
    AsciiTextSlice(data, i, i + n);
    AsciiBytesRoundTrip(slice);
    assert OccursAt(data, slice, i);
  }

  /** A `.txt` file with ASCII content loads into a buffer whose ASCII
      rendering is the file's text again. */
  lemma TxtLoadRendersBack(text: string)
    requires IsAscii(text)
    ensures PrimaryView(Utf8Encode(text), false) == text
  {
    AsciiRoundTrip(text);
  }

  /** In hex mode a non-empty `.txt` load leaves the primary pane showing the
      file's text, which is never the hex table of the loaded buffer: the
      table is longer than the buffer, and the buffer is at least as long as
      the text. */
  lemma TxtLoadInHexModeShowsRawText(text: string)
    requires text != [] && |Utf8Encode(text)| <= HexDump.LabelLimit
    ensures PrimaryView(Utf8Encode(text), true) != text
  {
    var data := Utf8Encode(text);
    HexDump.DumpLength(data);
    assert |HexDump.Table(data)| > |data|;
  }

  class HexEditor {
    /** The buffer being edited. */
    var fileData: seq<byte>
    /** Where the buffer was loaded from or last saved to; "" for none. */
    var currentFilePath: string
    var isHexMode: bool
    var darkModeEnabled: bool
    var isSplitViewEnabled: bool
    /** The text of the primary pane. */
    var hexView: string
    /** The text of the secondary pane. */
    var textView: string
    var textViewShown: bool
    var hexViewStyle: string
    var textViewStyle: string
    /** The highlighted cells of the primary pane; none when empty. */
    var hexHighlight: seq<Span>
    /** The highlighted run of the secondary pane, if any. */
    var textHighlight: Option<Span>
    /** The cursor position in the primary pane; replacing or clearing the
        pane's text puts it back at 0. */
    var hexCursor: nat

    /** The panes show the buffer: the primary pane always, the secondary
        pane while it is shown. */
    ghost predicate Synced()
      reads this
    {
      && hexView == PrimaryView(fileData, isHexMode)
      && (isSplitViewEnabled ==> textView == AsciiText(fileData))
      && textViewShown == isSplitViewEnabled
    }

    /** A fresh window: empty buffer, no path, hex mode, light theme,
        secondary pane hidden. */
    constructor ()
      ensures fileData == [] && currentFilePath == ""
      ensures isHexMode && !darkModeEnabled && !isSplitViewEnabled
      ensures hexView == "" && textView == "" && !textViewShown
      ensures hexViewStyle == "" && textViewStyle == ""
      ensures hexHighlight == [] && textHighlight == None && hexCursor == 0
      ensures Synced()
    {
      fileData := [];
      currentFilePath := "";
      isHexMode := true;
      darkModeEnabled := false;
      isSplitViewEnabled := false;
      hexView := "";
      textView := "";
      textViewShown := false;
      hexViewStyle := "";
      textViewStyle := "";
      hexHighlight := [];
      textHighlight := None;
      hexCursor := 0;
      HexDump.DumpLineCount([]);
    }

    /** `refresh_text_view`: the secondary pane shows the ASCII rendering;
        replacing the text drops its highlight. */
    method RefreshTextView()
      modifies this`textView, this`textHighlight
      ensures textView == AsciiText(fileData) && textHighlight == None
    {
      textView := AsciiText(fileData);
      textHighlight := None;
    }

    /** `refresh_hex_view`: the primary pane shows the buffer in the current
        mode, and in split mode the secondary pane is refreshed too. */
    method RefreshHexView()
      modifies this`hexView, this`textView, this`hexHighlight, this`textHighlight, this`hexCursor
      ensures hexView == PrimaryView(fileData, isHexMode) && hexHighlight == [] && hexCursor == 0
      ensures isSplitViewEnabled ==> textView == AsciiText(fileData) && textHighlight == None
      ensures !isSplitViewEnabled ==> textView == old(textView) && textHighlight == old(textHighlight)
    {
      if isHexMode {
        hexView := HexDump.RenderHexTable(fileData);
      } else {
        hexView := AsciiText(fileData);
      }
      hexHighlight := [];
      hexCursor := 0;
      if isSplitViewEnabled {
        RefreshTextView();
      }
    }

    /** New: both panes and the buffer are emptied; the path is kept. */
    method NewFile()
      modifies this`hexView, this`textView, this`fileData, this`hexHighlight, this`textHighlight, this`hexCursor
      ensures fileData == [] && hexView == "" && textView == "" && hexCursor == 0
      ensures hexHighlight == [] && textHighlight == None
      ensures textViewShown == old(textViewShown) && isSplitViewEnabled == old(isSplitViewEnabled)
      ensures old(textViewShown) == old(isSplitViewEnabled) ==> Synced()
    {
      hexView := "";
      textView := "";
      hexHighlight := [];
      textHighlight := None;
      hexCursor := 0;
      fileData := [];
      HexDump.DumpLineCount([]);
    }

    /** Close: as New, and the path is forgotten. */
    method Close()
      modifies this`hexView, this`textView, this`fileData, this`currentFilePath
      modifies this`hexHighlight, this`textHighlight, this`hexCursor
      ensures fileData == [] && hexView == "" && textView == "" && currentFilePath == "" && hexCursor == 0
      ensures hexHighlight == [] && textHighlight == None
      ensures textViewShown == old(textViewShown) && isSplitViewEnabled == old(isSplitViewEnabled)
      ensures old(textViewShown) == old(isSplitViewEnabled) ==> Synced()
    {
      NewFile();
      currentFilePath := "";
    }

    /** Switches the primary pane between the hex table and the ASCII
        rendering and redraws it. */
    method ToggleAsciiHex()
      modifies this`isHexMode, this`hexView, this`textView, this`hexHighlight, this`textHighlight, this`hexCursor
      ensures isHexMode == !old(isHexMode)
      ensures hexView == PrimaryView(fileData, isHexMode) && hexHighlight == [] && hexCursor == 0
      ensures isSplitViewEnabled ==> textView == AsciiText(fileData) && textHighlight == None
      ensures !isSplitViewEnabled ==> textView == old(textView) && textHighlight == old(textHighlight)
      ensures old(textViewShown) == old(isSplitViewEnabled) ==> Synced()
    {
      isHexMode := !isHexMode;
      RefreshHexView();
    }

    /** `apply_css_theme`: both panes get the style of the current theme. */
    method ApplyCssTheme()
      modifies this`hexViewStyle, this`textViewStyle
      ensures hexViewStyle == StyleFor(darkModeEnabled) && textViewStyle == StyleFor(darkModeEnabled)
    {
      if darkModeEnabled {
        hexViewStyle := DarkStyle;
        textViewStyle := DarkStyle;
      } else {
        hexViewStyle := LightStyle;
        textViewStyle := LightStyle;
      }
    }

    method ToggleLightDarkMode()
      modifies this`darkModeEnabled, this`hexViewStyle, this`textViewStyle
      ensures darkModeEnabled == !old(darkModeEnabled)
      ensures hexViewStyle == StyleFor(darkModeEnabled) && textViewStyle == StyleFor(darkModeEnabled)
    {
      darkModeEnabled := !darkModeEnabled;
      ApplyCssTheme();
    }

    /** Shows the secondary pane, refreshed, or hides it. */
    method ToggleSplitView()
      modifies this`isSplitViewEnabled, this`textViewShown, this`textView, this`textHighlight
      ensures isSplitViewEnabled == !old(isSplitViewEnabled) && textViewShown == isSplitViewEnabled
      ensures isSplitViewEnabled ==> textView == AsciiText(fileData) && textHighlight == None
      ensures !isSplitViewEnabled ==> textView == old(textView) && textHighlight == old(textHighlight)
      ensures old(hexView == PrimaryView(fileData, isHexMode)) ==> Synced()
    {
      isSplitViewEnabled := !isSplitViewEnabled;
      if isSplitViewEnabled {
        textViewShown := true;
        RefreshTextView();
      } else {
        textViewShown := false;
      }
    }

    /** `load_file`: the path is recorded first. A `.txt` file is read as
        text: the primary pane shows the text itself (in either mode) and
        the buffer becomes its UTF-8 encoding, with the secondary pane left
        as it was. Any other file is read as bytes and displayed. */
    method LoadFile(path: string, contents: seq<byte>, decodedText: string)
      modifies this`currentFilePath, this`fileData, this`hexView, this`textView
      modifies this`hexHighlight, this`textHighlight, this`hexCursor
      ensures currentFilePath == path && hexCursor == 0
      ensures EndsWithTxt(path) ==>
        && fileData == Utf8Encode(decodedText) && hexView == decodedText && hexHighlight == []
        && textView == old(textView) && textHighlight == old(textHighlight)
      ensures !EndsWithTxt(path) ==>
        && fileData == contents && hexView == PrimaryView(contents, isHexMode) && hexHighlight == []
        && (isSplitViewEnabled ==> textView == AsciiText(contents) && textHighlight == None)
        && (!isSplitViewEnabled ==> textView == old(textView) && textHighlight == old(textHighlight))
      ensures !EndsWithTxt(path) && old(textViewShown) == old(isSplitViewEnabled) ==> Synced()
    {
      currentFilePath := path;
      if EndsWithTxt(path) {
        hexView := decodedText;
        hexHighlight := [];
        hexCursor := 0;
        fileData := Utf8Encode(decodedText);
      } else {
        fileData := contents;
        RefreshHexView();
      }
    }

    /** Open: a cancelled dialog (empty path) does nothing. */
    method OpenFile(dialogPath: string, contents: seq<byte>, decodedText: string)
      modifies this`currentFilePath, this`fileData, this`hexView, this`textView
      modifies this`hexHighlight, this`textHighlight, this`hexCursor
      ensures dialogPath == "" ==> currentFilePath == old(currentFilePath) && fileData == old(fileData)
      ensures hexCursor == if dialogPath == "" then old(hexCursor) else 0
      ensures dialogPath == "" ==> hexView == old(hexView) && textView == old(textView)
      ensures dialogPath == "" ==> hexHighlight == old(hexHighlight) && textHighlight == old(textHighlight)
      ensures dialogPath != "" ==> currentFilePath == dialogPath
      ensures dialogPath != "" && EndsWithTxt(dialogPath) ==>
        && fileData == Utf8Encode(decodedText) && hexView == decodedText && hexHighlight == []
        && textView == old(textView) && textHighlight == old(textHighlight)
      ensures dialogPath != "" && !EndsWithTxt(dialogPath) ==>
        && fileData == contents && hexView == PrimaryView(contents, isHexMode) && hexHighlight == []
        && (isSplitViewEnabled ==> textView == AsciiText(contents) && textHighlight == None)
        && (!isSplitViewEnabled ==> textView == old(textView) && textHighlight == old(textHighlight))
      ensures dialogPath != "" && !EndsWithTxt(dialogPath) && old(textViewShown) == old(isSplitViewEnabled) ==>
        Synced()
      ensures dialogPath == "" ==> (old(Synced()) ==> Synced())
    {
      if dialogPath != "" {
        LoadFile(dialogPath, contents, decodedText);
      }
    }

    /** `save_file`: the buffer is written as it is, and the path recorded. */
    method SaveFile(path: string) returns (written: SavedFile)
      modifies this`currentFilePath
      ensures written == BinaryFile(path, fileData) && currentFilePath == path
    {
      written := BinaryFile(path, fileData);
      currentFilePath := path;
    }

    /** `save_as_text`: the primary pane's text, as Qt's `toPlainText()` gives
        it back, is written, and the path recorded. When the pane shows the
        buffer, that is the pane's text itself unless ASCII mode shows a CR. */
    method SaveAsText(path: string) returns (written: SavedFile)
      modifies this`currentFilePath
      ensures written == TextFile(path, PlainText(hexView)) && currentFilePath == path
      ensures hexView == PrimaryView(fileData, isHexMode) ==>
                (written.text == hexView <==> isHexMode || forall k :: 0 <= k < |fileData| ==> fileData[k] != 0x0D)
    {
      written := TextFile(path, PlainText(hexView));
      currentFilePath := path;
      SavedViewIsView(fileData, isHexMode);
    }

    /** Save As: a `.txt` name saves the primary pane's text as `toPlainText()`
        gives it back, any other name
        the raw buffer; a cancelled dialog saves nothing. */
    method SaveAs(dialogPath: string) returns (written: Option<SavedFile>)
      modifies this`currentFilePath
      ensures dialogPath == "" ==> written == None && currentFilePath == old(currentFilePath)
      ensures dialogPath != "" ==> currentFilePath == dialogPath
      ensures dialogPath != "" && EndsWithTxt(dialogPath) ==>
                written == Some(TextFile(dialogPath, PlainText(hexView)))
      ensures dialogPath != "" && !EndsWithTxt(dialogPath) ==> written == Some(BinaryFile(dialogPath, fileData))
    {
      if dialogPath == "" {
        written := None;
      } else if EndsWithTxt(dialogPath) {
        var w := SaveAsText(dialogPath);
        written := Some(w);
      } else {
        var w := SaveFile(dialogPath);
        written := Some(w);
      }
    }

    /** Save: with a recorded path the raw buffer goes there (whatever its
        extension); without one, as Save As. */
    method Save(dialogPath: string) returns (written: Option<SavedFile>)
      modifies this`currentFilePath
      ensures old(currentFilePath) != "" ==>
        written == Some(BinaryFile(old(currentFilePath), fileData)) && currentFilePath == old(currentFilePath)
      ensures old(currentFilePath) == "" && dialogPath == "" ==> written == None && currentFilePath == ""
      ensures old(currentFilePath) == "" && dialogPath != "" ==> currentFilePath == dialogPath
      ensures old(currentFilePath) == "" && dialogPath != "" && EndsWithTxt(dialogPath) ==>
        written == Some(TextFile(dialogPath, PlainText(hexView)))
      ensures old(currentFilePath) == "" && dialogPath != "" && !EndsWithTxt(dialogPath) ==>
        written == Some(BinaryFile(dialogPath, fileData))
    {
      if currentFilePath != "" {
        var w := SaveFile(currentFilePath);
        written := Some(w);
      } else {
        written := SaveAs(dialogPath);
      }
    }

    /** `perform_search`: on a match the primary pane's cursor is put at the
        match's byte index; the buffer and the panes are left alone. */
    method PerformSearch(query: string) returns (outcome: SearchOutcome)
      modifies this`hexCursor
      ensures outcome == SearchResult(fileData, query, isHexMode)
      ensures outcome.Found? ==> hexCursor == outcome.index
      ensures !outcome.Found? ==> hexCursor == old(hexCursor)
    {
      var needle: seq<byte>;
      if isHexMode {
        var decoded := FromHex(query);
        if decoded.Err? {
          return InvalidHex(decoded.error);
        }
        needle := decoded.value;
      } else {
        needle := Utf8Encode(query);
      }
      var index := Find(fileData, needle);
      if index != -1 {
        hexCursor := index;
        outcome := Found(index);
      } else {
        outcome := NoMatch;
      }
    }

    /** `find_and_replace`: every non-overlapping occurrence is replaced and
        the panes redrawn; an undecodable argument leaves everything as it was. */
    method FindAndReplace(findStr: string, replaceStr: string) returns (failure: Option<HexError>)
      modifies this`fileData, this`hexView, this`textView, this`hexHighlight, this`textHighlight, this`hexCursor
      ensures var r := ReplaceResult(old(fileData), findStr, replaceStr, isHexMode);
        && (r.Err? ==> failure == Some(r.error) && fileData == old(fileData) && hexView == old(hexView))
        && hexCursor == (if r.Err? then old(hexCursor) else 0)
        && (r.Err? ==> textView == old(textView) && hexHighlight == old(hexHighlight))
        && (r.Err? ==> textHighlight == old(textHighlight))
        && (r.Ok? ==> failure == None && fileData == r.value && hexView == PrimaryView(r.value, isHexMode))
        && (r.Ok? ==> hexHighlight == [])
        && (r.Ok? && isSplitViewEnabled ==> textView == AsciiText(r.value) && textHighlight == None)
        && (r.Ok? && !isSplitViewEnabled ==> textView == old(textView) && textHighlight == old(textHighlight))
      ensures old(textViewShown) == old(isSplitViewEnabled) && failure == None ==> Synced()
      ensures old(Synced()) ==> Synced()
    {
      ghost var r := ReplaceResult(fileData, findStr, replaceStr, isHexMode);
      var findBytes := Needle(findStr, isHexMode);
      if findBytes.Err? {
        assert r == Err(findBytes.error);
        return Some(findBytes.error);
      }
      var replaceBytes := Needle(replaceStr, isHexMode);
      if replaceBytes.Err? {
        assert r == Err(replaceBytes.error);
        return Some(replaceBytes.error);
      }
      fileData := Replace(fileData, findBytes.value, replaceBytes.value);
      assert r == Ok(fileData);
      RefreshHexView();
      failure := None;
    }

    /** `on_hex_selection`: a selection in the primary pane that decodes to
        bytes of the buffer highlights their first occurrence in the
        secondary pane; otherwise nothing changes. */
    method OnHexSelection(selection: string)
      modifies this`textHighlight
      ensures var h := HexSelectionHighlight(fileData, selection);
        textHighlight == if h.Some? then h else old(textHighlight)
    {
      var h := HexSelectionHighlight(fileData, selection);
      if h.Some? {
        textHighlight := h;
      }
    }

    /** `on_text_selection`: a selection in the secondary pane whose UTF-8
        bytes occur in the buffer highlights, in the primary pane, the run
        `highlight_hex` computes for their first occurrence: three characters
        per byte from the top of the pane. */
    method OnTextSelection(selection: string)
      modifies this`hexHighlight
      ensures var h := TextSelectionHighlight(fileData, selection);
        hexHighlight == if h.Some? then [h.value] else old(hexHighlight)
    {
      var h := TextSelectionHighlight(fileData, selection);
      if h.Some? {
        hexHighlight := [h.value];
      }
    }

    /** `on_text_selection` with the highlight put where the primary pane
        shows the match: the hex pairs of the matched bytes in hex mode, the
        matched characters in ASCII mode. */
    method OnTextSelectionCorrected(selection: string)
      modifies this`hexHighlight
      ensures var h := TextSelectionCells(fileData, selection, isHexMode);
        hexHighlight == if h.Some? then h.value else old(hexHighlight)
      ensures hexView == PrimaryView(fileData, isHexMode) && TextSelectionHighlight(fileData, selection).Some? ==>
        && (isHexMode && |fileData| <= HexDump.LabelLimit ==>
              CellsShowBytes(hexView, hexHighlight, Utf8Encode(selection)))
        && (!isHexMode ==>
              |hexHighlight| == 1 && TextShowsAt(fileData, Utf8Encode(selection), hexHighlight[0].start))
    {
      var h := TextSelectionCells(fileData, selection, isHexMode);
      if h.Some? {
        hexHighlight := h.value;
      }
    }
  }

  /** Toggling the display mode twice restores the mode and leaves the
      primary pane showing the buffer; when the panes were in step with the
      buffer, the primary pane shows what it showed before. */
  method ToggleAsciiHexTwice(e: HexEditor)
    modifies e`isHexMode, e`hexView, e`textView, e`hexHighlight, e`textHighlight, e`hexCursor
    ensures e.isHexMode == old(e.isHexMode) && e.fileData == old(e.fileData)
    ensures e.textViewShown == old(e.textViewShown) && e.isSplitViewEnabled == old(e.isSplitViewEnabled)
    ensures e.hexView == PrimaryView(e.fileData, e.isHexMode) && e.hexHighlight == [] && e.hexCursor == 0
    ensures e.isSplitViewEnabled ==> e.textView == AsciiText(e.fileData) && e.textHighlight == None
    ensures !e.isSplitViewEnabled ==> e.textView == old(e.textView) && e.textHighlight == old(e.textHighlight)
    ensures old(e.Synced()) ==> e.hexView == old(e.hexView) && e.Synced()
    ensures old(e.textViewShown == e.isSplitViewEnabled) ==> e.Synced()
  {
    e.ToggleAsciiHex();
    e.ToggleAsciiHex();
  }

  /** Toggling split view twice restores the switch and leaves the buffer and
      the primary pane alone; when the secondary pane's visibility matched the
      switch, it is restored too. Either way the secondary pane was refreshed
      once on the way, so it holds the rendering with no highlight. */
  method ToggleSplitViewTwice(e: HexEditor)
    modifies e`isSplitViewEnabled, e`textViewShown, e`textView, e`textHighlight
    ensures e.isSplitViewEnabled == old(e.isSplitViewEnabled) && e.textViewShown == e.isSplitViewEnabled
    ensures e.fileData == old(e.fileData) && e.hexView == old(e.hexView) && e.isHexMode == old(e.isHexMode)
    ensures e.textView == AsciiText(e.fileData) && e.textHighlight == None
    ensures old(e.textViewShown == e.isSplitViewEnabled) ==> e.textViewShown == old(e.textViewShown)
    ensures old(e.hexView == PrimaryView(e.fileData, e.isHexMode)) ==> e.Synced()
  {
    e.ToggleSplitView();
    e.ToggleSplitView();
  }
}

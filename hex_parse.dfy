/** Turning typed or selected hex text into bytes: Python's
    `bytearray.fromhex` (pairs of hex digits, ASCII whitespace allowed between
    pairs), and the clean-up `on_hex_selection` applies to a selection first,
    `str.strip()` followed by `replace(" ", "")`. */
module HexParse {
  import opened Wrappers
  import opened HexText
  import opened HexDump

  /** Why `fromhex` raises `ValueError`: a character that is not a hex digit
      where a digit is due (its index in the argument), or a lone final digit. */
  datatype HexError = NonHexAt(position: nat) | OddDigitCount

  /** The whitespace `fromhex` skips between pairs: space, tab, line feed,
      vertical tab, form feed, carriage return. */
  predicate IsAsciiSpace(c: char) {
    c == ' ' || c == '\t' || c == '\n' || c == '\U{000B}' || c == '\U{000C}' || c == '\r'
  }

  predicate NoAsciiSpace(s: string) {
    forall k :: 0 <= k < |s| ==> !IsAsciiSpace(s[k])
  }

  /** How many characters of `s` are hex digits. */
  function HexDigitCount(s: string): (n: nat)
    ensures n <= |s|
    ensures AllHexDigits(s) ==> n == |s|
  {
    if s == [] then 0 else (if IsHexDigit(s[0]) then 1 else 0) + HexDigitCount(s[1..])
  }

  /** An error found after `d` characters were consumed, reported against the whole argument. */
  function Shift(e: HexError, d: nat): HexError {
    match e
    case NonHexAt(p) => NonHexAt(p + d)
    case OddDigitCount => OddDigitCount
  }

  /** The pair scanner of `fromhex` on an ASCII argument: skip whitespace,
      then read two hex digits into one byte, until the end. */
  function DecodePairs(s: string): (r: Result<seq<byte>, HexError>)
    ensures r.Ok? ==> 2 * |r.value| == HexDigitCount(s)
    ensures r.Ok? ==> SpacesAndDigits(s)
    ensures r.Err? && r.error.NonHexAt? ==>
      r.error.position < |s| && !IsHexDigit(s[r.error.position])
    ensures r == Err(OddDigitCount) ==> HexDigitCount(s) % 2 == 1
    decreases |s|
  {
    if s == [] then Ok([])
    else if IsAsciiSpace(s[0]) then
      var rest := DecodePairs(s[1..]);
      SpaceStep(s);
      if rest.Ok? then rest
      else
        ShiftStep(s, 1, rest.error);
        Err(Shift(rest.error, 1))
    else if !IsHexDigit(s[0]) then Err(NonHexAt(0))
    else if |s| == 1 then
      assert s[1..] == [];
      Err(OddDigitCount)
    else if !IsHexDigit(s[1]) then Err(NonHexAt(1))
    else
      var rest := DecodePairs(s[2..]);
      PairStep(s);
      if rest.Ok? then Ok([16 * DigitValue(s[0]) + DigitValue(s[1])] + rest.value)
      else
        ShiftStep(s, 2, rest.error);
        Err(Shift(rest.error, 2))
  }

  /** An error position in a suffix of `s`, moved back to count from the start of `s`. */
  lemma ShiftStep(s: string, d: nat, e: HexError)
    requires d <= |s|
    requires e.NonHexAt? ==> e.position < |s[d..]| && !IsHexDigit(s[d..][e.position])
    ensures Shift(e, d).NonHexAt? ==> Shift(e, d).position < |s| && !IsHexDigit(s[Shift(e, d).position])
    ensures Shift(e, d) == OddDigitCount <==> e == OddDigitCount
  {
  }

  /** Every character of `s` is whitespace or a hex digit. */
  predicate SpacesAndDigits(s: string) {
    forall k :: 0 <= k < |s| ==> IsAsciiSpace(s[k]) || IsHexDigit(s[k])
  }

  lemma SpaceStep(s: string)
    requires s != [] && IsAsciiSpace(s[0])
    ensures HexDigitCount(s) == HexDigitCount(s[1..])
    ensures SpacesAndDigits(s[1..]) ==> SpacesAndDigits(s)
  {
    if SpacesAndDigits(s[1..]) {
      forall k | 1 <= k < |s| ensures IsAsciiSpace(s[k]) || IsHexDigit(s[k]) {
        assert s[k] == s[1..][k - 1];
      }
    }
  }

  lemma PairStep(s: string)
    requires |s| >= 2 && IsHexDigit(s[0]) && IsHexDigit(s[1])
    ensures HexDigitCount(s) == 2 + HexDigitCount(s[2..])
    ensures SpacesAndDigits(s[2..]) ==> SpacesAndDigits(s)
  {
    assert s[1..][1..] == s[2..];
    if SpacesAndDigits(s[2..]) {
      forall k | 2 <= k < |s| ensures IsAsciiSpace(s[k]) || IsHexDigit(s[k]) {
        assert s[k] == s[2..][k - 2];
      }
    }
  }

  /** Without whitespace, `fromhex` succeeds exactly on an even number of hex digits. */
  lemma {:induction false} CompactDecodesIff(s: string)
    requires NoAsciiSpace(s)
    ensures DecodePairs(s).Ok? <==> |s| % 2 == 0 && AllHexDigits(s)
    decreases |s|
  {
    if |s| >= 2 && IsHexDigit(s[0]) && IsHexDigit(s[1]) {
      var rest := s[2..];
      assert NoAsciiSpace(rest) by {
        forall k | 0 <= k < |rest| ensures !IsAsciiSpace(rest[k]) {
          assert rest[k] == s[k + 2];
        }
      }
      CompactDecodesIff(rest);
      PairOk(s);
      if AllHexDigits(s) {
        assert AllHexDigits(rest) by {
          forall k | 0 <= k < |rest| ensures IsHexDigit(rest[k]) {
            assert rest[k] == s[k + 2];
          }
        }
      }
      if AllHexDigits(rest) {
        assert forall k :: 2 <= k < |s| ==> s[k] == rest[k - 2];
      }
    } else if s != [] {
      NoPairNoDecode(s);
    }
  }

  /** After a leading pair, the scanner succeeds iff it succeeds on the rest. */
  lemma PairOk(s: string)
    requires |s| >= 2 && IsHexDigit(s[0]) && IsHexDigit(s[1])
    ensures DecodePairs(s).Ok? <==> DecodePairs(s[2..]).Ok?
  {
    HexDigitNotSpace(s[0]);
  }

  /** A string that starts with neither whitespace nor a pair of hex digits does not decode. */
  lemma NoPairNoDecode(s: string)
    requires s != [] && !IsAsciiSpace(s[0]) && !(|s| >= 2 && IsHexDigit(s[0]) && IsHexDigit(s[1]))
    ensures DecodePairs(s).Err?
    ensures !(|s| % 2 == 0 && AllHexDigits(s))
  {
  }

  /** The scanner after a pair of hex digits: that pair's byte, then the rest. */
  lemma DecodeAfterPair(s: string)
    requires |s| >= 2 && IsHexDigit(s[0]) && IsHexDigit(s[1]) && DecodePairs(s[2..]).Ok?
    ensures DecodePairs(s) == Ok([16 * DigitValue(s[0]) + DigitValue(s[1])] + DecodePairs(s[2..]).value)
  {
  }

  /** The scanner skips a leading whitespace character. */
  lemma DecodeAfterSpace(s: string)
    requires s != [] && IsAsciiSpace(s[0]) && DecodePairs(s[1..]).Ok?
    ensures DecodePairs(s) == DecodePairs(s[1..])
  {
  }

  /** A pair of hex digits in front of decodable text adds its byte in front. */
  lemma DecodePrefixPair(p: string, t: string)
    requires |p| == 2 && IsHexDigit(p[0]) && IsHexDigit(p[1]) && DecodePairs(t).Ok?
    ensures DecodePairs(p + t) == Ok([16 * DigitValue(p[0]) + DigitValue(p[1])] + DecodePairs(t).value)
  {
    var s := p + t;
    assert s[0] == p[0] && s[1] == p[1] && s[2..] == t;
    DecodeAfterPair(s);
  }

  /** A pair and a space in front of decodable text add the pair's byte in front. */
  lemma DecodeJoin(p: string, t: string)
    requires |p| == 2 && IsHexDigit(p[0]) && IsHexDigit(p[1]) && DecodePairs(t).Ok?
    ensures DecodePairs(p + " " + t) == Ok([16 * DigitValue(p[0]) + DigitValue(p[1])] + DecodePairs(t).value)
  {
    DecodePrefixSpace(t);
    DecodePrefixPair(p, " " + t);
    assert p + " " + t == p + (" " + t);
  }

  /** A space in front of decodable text changes nothing. */
  lemma DecodePrefixSpace(t: string)
    requires DecodePairs(t).Ok?
    ensures DecodePairs(" " + t) == DecodePairs(t)
  {
    var s := " " + t;
    assert s[0] == ' ' && s[1..] == t;
    DecodeAfterSpace(s);
  }

  /** The index of the first character outside ASCII, if any. */
  function FirstNonAscii(s: string): (r: Option<nat>)
    ensures r.None? <==> IsAscii(s)
    ensures r.Some? ==>
      r.value < |s| && s[r.value] as int >= 128 && IsAscii(s[..r.value])
  {
    if s == [] then None
    else if s[0] as int >= 128 then Some(0)
    else match FirstNonAscii(s[1..]) {
      case None => None
      case Some(p) =>
        assert s[..p + 1] == [s[0]] + s[1..][..p];
        Some(p + 1)
    }
  }

  /** `bytearray.fromhex(s)`: a non-ASCII argument is reported at its first
      non-ASCII character before any pair is read. */
  function FromHex(s: string): (r: Result<seq<byte>, HexError>)
    ensures r.Ok? ==> IsAscii(s) && 2 * |r.value| == HexDigitCount(s)
    ensures r.Err? && r.error.NonHexAt? ==>
      r.error.position < |s| && !IsHexDigit(s[r.error.position])
    ensures IsAscii(s) ==> r == DecodePairs(s)
    ensures !IsAscii(s) ==>
              r.Err? && r.error.NonHexAt? && r.error.position < |s| &&
              s[r.error.position] as int >= 128 && IsAscii(s[..r.error.position])
  {
    match FirstNonAscii(s) {
      case Some(p) => Err(NonHexAt(p))
      case None => DecodePairs(s)
    }
  }

  /** A hex string without whitespace decodes to one byte per digit pair:
      byte k is the value of digits 2k and 2k + 1. */
  lemma {:induction false} CompactValues(s: string)
    requires NoAsciiSpace(s) && DecodePairs(s).Ok?
    ensures |DecodePairs(s).value| * 2 == |s|
    ensures forall k :: 0 <= k < |s| / 2 ==>
      DecodePairs(s).value[k] == 16 * DigitValue(s[2 * k]) + DigitValue(s[2 * k + 1])
    decreases |s|
  {
    if s != [] {
      var rest := s[2..];
      assert NoAsciiSpace(rest) by {
        forall k | 0 <= k < |rest| ensures !IsAsciiSpace(rest[k]) {
          assert rest[k] == s[k + 2];
        }
      }
      CompactValues(rest);
      DecodeAfterPair(s);
      var b := DecodePairs(s).value;
      forall k | 0 < k < |s| / 2
        ensures b[k] == 16 * DigitValue(s[2 * k]) + DigitValue(s[2 * k + 1])
      {
        assert b[k] == DecodePairs(rest).value[k - 1];
        assert rest[2 * (k - 1)] == s[2 * k] && rest[2 * (k - 1) + 1] == s[2 * k + 1];
      }
    }
  }

  /** `s` with every character `fromhex` skips taken out, the rest kept in order. */
  function RemoveAsciiSpace(s: string): (r: string)
    ensures |r| <= |s| && NoAsciiSpace(r)
    ensures NoAsciiSpace(s) ==> r == s
  {
    if s == [] then [] else (if IsAsciiSpace(s[0]) then [] else [s[0]]) + RemoveAsciiSpace(s[1..])
  }

  /** Whitespace between pairs does not change what `fromhex` decodes: a string
      that decodes gives the same bytes as its digits written back to back, so
      with CompactValues every decoded byte is `16*hi + lo` of its pair. */
  lemma {:induction false} DecodeIgnoresSpace(s: string)
    requires DecodePairs(s).Ok?
    ensures DecodePairs(RemoveAsciiSpace(s)) == DecodePairs(s)
    decreases |s|
  {
    if s != [] {
      if IsAsciiSpace(s[0]) {
        SkipSpace(s);
      } else {
        SkipPair(s);
      }
    }
  }

  lemma {:induction false} SkipSpace(s: string)
    requires s != [] && IsAsciiSpace(s[0]) && DecodePairs(s).Ok?
    ensures DecodePairs(RemoveAsciiSpace(s)) == DecodePairs(s)
    decreases |s|, 0
  {
    assert DecodePairs(s[1..]).Ok?;
    DecodeIgnoresSpace(s[1..]);
    assert RemoveAsciiSpace(s) == RemoveAsciiSpace(s[1..]);
    DecodeAfterSpace(s);
  }

  lemma {:induction false} SkipPair(s: string)
    requires s != [] && !IsAsciiSpace(s[0]) && DecodePairs(s).Ok?
    ensures DecodePairs(RemoveAsciiSpace(s)) == DecodePairs(s)
    decreases |s|, 0
  {
    PairAhead(s);
    DecodeIgnoresSpace(s[2..]);
    KeepPair(s);
    SamePairHead(RemoveAsciiSpace(s), s, DecodePairs(s[2..]).value);
  }

  /** Two strings with the same leading pair and tails that decode alike decode alike. */
  lemma SamePairHead(r: string, s: string, x: seq<byte>)
    requires |r| >= 2 && |s| >= 2 && r[0] == s[0] && r[1] == s[1] && IsHexDigit(s[0]) && IsHexDigit(s[1])
    requires DecodePairs(r[2..]) == Ok(x) && DecodePairs(s[2..]) == Ok(x)
    ensures DecodePairs(r) == DecodePairs(s)
  {
    DecodeAfterPair(r);
    DecodeAfterPair(s);
  }

  /** A decodable string that does not start with whitespace starts with a pair. */
  lemma PairAhead(s: string)
    requires s != [] && !IsAsciiSpace(s[0]) && DecodePairs(s).Ok?
    ensures |s| >= 2 && IsHexDigit(s[0]) && IsHexDigit(s[1]) && DecodePairs(s[2..]).Ok?
  {
  }

  /** A leading pair of hex digits survives whitespace removal. */
  lemma KeepPair(s: string)
    requires |s| >= 2 && IsHexDigit(s[0]) && IsHexDigit(s[1])
    ensures var r := RemoveAsciiSpace(s);
      |r| >= 2 && r[0] == s[0] && r[1] == s[1] && r[2..] == RemoveAsciiSpace(s[2..])
  {
    HexDigitNotSpace(s[0]);
    HexDigitNotSpace(s[1]);
    var u := s[1..];
    assert u[0] == s[1] && u[1..] == s[2..];
    assert RemoveAsciiSpace(u) == [s[1]] + RemoveAsciiSpace(s[2..]);
    assert RemoveAsciiSpace(s) == [s[0]] + RemoveAsciiSpace(u);
    assert RemoveAsciiSpace(s) == [s[0], s[1]] + RemoveAsciiSpace(s[2..]);
  }

  lemma HexDigitNotSpace(c: char)
    requires IsHexDigit(c)
    ensures !IsAsciiSpace(c)
  {
  }

  /** Every hex digit that starts a pair (an even number of digits before
      it) is directly followed by the second digit of its pair: `fromhex`
      allows whitespace between pairs but not inside one. */
  predicate PairsAligned(s: string) {
    forall k :: 0 <= k < |s| && IsHexDigit(s[k]) && HexDigitCount(s[..k]) % 2 == 0 ==>
      k + 1 < |s| && IsHexDigit(s[k + 1])
  }

  /** When `fromhex` succeeds: exactly when the argument holds only whitespace
      and hex digits, and the digits come in adjacent pairs. So `"41 42"`
      decodes and `"4 1"` or `"414"` does not. */
  lemma {:induction false} DecodesIff(s: string)
    ensures DecodePairs(s).Ok? <==> SpacesAndDigits(s) && PairsAligned(s)
    decreases |s|
  {
    if s == [] {
    } else if IsAsciiSpace(s[0]) {
      DecodesIff(s[1..]);
      SpaceOk(s);
      SpacesDrop(s, 1);
      AlignedAfterSpace(s);
    } else if |s| >= 2 && IsHexDigit(s[0]) && IsHexDigit(s[1]) {
      DecodesIff(s[2..]);
      PairOk(s);
      SpacesDrop(s, 2);
      AlignedAfterPair(s);
    } else {
      NoPairNoDecode(s);
      if IsHexDigit(s[0]) {
        assert s[..0] == [];
        assert !PairsAligned(s);
      }
    }
  }

  /** After leading whitespace, the scanner succeeds iff it succeeds on the rest. */
  lemma SpaceOk(s: string)
    requires s != [] && IsAsciiSpace(s[0])
    ensures DecodePairs(s).Ok? <==> DecodePairs(s[1..]).Ok?
  {
  }

  /** Dropping a prefix of whitespace and hex digits keeps SpacesAndDigits either way. */
  lemma SpacesDrop(s: string, d: nat)
    requires d <= |s| && forall k :: 0 <= k < d ==> IsAsciiSpace(s[k]) || IsHexDigit(s[k])
    ensures SpacesAndDigits(s) <==> SpacesAndDigits(s[d..])
  {
    if SpacesAndDigits(s[d..]) {
      forall k | d <= k < |s| ensures IsAsciiSpace(s[k]) || IsHexDigit(s[k]) {
        assert s[k] == s[d..][k - d];
      }
    }
  }

  /** The digits before position `k` are those of the first character and
      those of the rest before position `k - 1`. */
  lemma CountDrop(s: string, k: nat)
    requires 1 <= k <= |s|
    ensures HexDigitCount(s[..k]) == (if IsHexDigit(s[0]) then 1 else 0) + HexDigitCount(s[1..][..k - 1])
  {
    assert s[..k][0] == s[0] && s[..k][1..] == s[1..][..k - 1];
  }

  lemma AlignedAfterSpace(s: string)
    requires s != [] && IsAsciiSpace(s[0])
    ensures PairsAligned(s) <==> PairsAligned(s[1..])
  {
    var t := s[1..];
    if PairsAligned(t) {
      forall k | 0 <= k < |s| && IsHexDigit(s[k]) && HexDigitCount(s[..k]) % 2 == 0
        ensures k + 1 < |s| && IsHexDigit(s[k + 1])
      {
        HexDigitNotSpace(s[k]);
        CountDrop(s, k);
        assert t[k - 1] == s[k];
        assert k < |t| && IsHexDigit(t[k]);
        assert t[k] == s[k + 1];
      }
    }
    if PairsAligned(s) {
      forall k | 0 <= k < |t| && IsHexDigit(t[k]) && HexDigitCount(t[..k]) % 2 == 0
        ensures k + 1 < |t| && IsHexDigit(t[k + 1])
      {
        CountDrop(s, k + 1);
        assert s[k + 1] == t[k];
        assert k + 2 < |s| && IsHexDigit(s[k + 2]);
        assert s[k + 2] == t[k + 1];
      }
    }
  }

  /** The digits before position `k` of a string that opens with a digit
      pair are those two and the digits of the rest before `k - 2`. */
  lemma PairCountDrop(s: string, k: nat)
    requires |s| >= 2 && IsHexDigit(s[0]) && IsHexDigit(s[1]) && 2 <= k <= |s|
    ensures HexDigitCount(s[..k]) == 2 + HexDigitCount(s[2..][..k - 2])
  {
    CountDrop(s, k);
    CountDrop(s[1..], k - 1);
    assert s[1..][1..] == s[2..];
    assert s[1..][0] == s[1];
  }

  lemma AlignedAfterPair(s: string)
    requires |s| >= 2 && IsHexDigit(s[0]) && IsHexDigit(s[1])
    ensures PairsAligned(s) <==> PairsAligned(s[2..])
  {
    if PairsAligned(s[2..]) {
      AlignedBeforePair(s);
    }
    if PairsAligned(s) {
      AlignedPastPair(s);
    }
  }

  lemma AlignedBeforePair(s: string)
    requires |s| >= 2 && IsHexDigit(s[0]) && IsHexDigit(s[1]) && PairsAligned(s[2..])
    ensures PairsAligned(s)
  {
    var t := s[2..];
    CountDrop(s, 1);
    assert s[1..][..0] == [];
    forall k | 0 <= k < |s| && IsHexDigit(s[k]) && HexDigitCount(s[..k]) % 2 == 0
      ensures k + 1 < |s| && IsHexDigit(s[k + 1])
    {
      if k >= 2 {
        PairCountDrop(s, k);
        assert t[k - 2] == s[k];
        assert k - 1 < |t| && IsHexDigit(t[k - 1]);
        assert t[k - 1] == s[k + 1];
      }
    }
  }

  lemma AlignedPastPair(s: string)
    requires |s| >= 2 && IsHexDigit(s[0]) && IsHexDigit(s[1]) && PairsAligned(s)
    ensures PairsAligned(s[2..])
  {
    var t := s[2..];
    forall k | 0 <= k < |t| && IsHexDigit(t[k]) && HexDigitCount(t[..k]) % 2 == 0
      ensures k + 1 < |t| && IsHexDigit(t[k + 1])
    {
      PairCountDrop(s, k + 2);
      assert s[k + 2] == t[k];
      assert k + 3 < |s| && IsHexDigit(s[k + 3]);
      assert s[k + 3] == t[k + 1];
    }
  }

  /** Characters Python's `str.isspace()` accepts, the ones `str.strip()` removes. */
  predicate IsPyWhitespace(c: char) {
    ('\t' <= c <= '\r') || ('\U{001C}' <= c <= ' ') || c == '\U{0085}' || c == '\U{00A0}'
    || c == '\U{1680}' || ('\U{2000}' <= c <= '\U{200A}') || c == '\U{2028}' || c == '\U{2029}'
    || c == '\U{202F}' || c == '\U{205F}' || c == '\U{3000}'
  }

  /** Every character of `s` from `lo` up to `hi` is whitespace. */
  predicate WhitespaceIn(s: string, lo: nat, hi: nat) {
    forall k :: lo <= k < hi && k < |s| ==> IsPyWhitespace(s[k])
  }

  /** The left end of `s.strip()`: the first index from `i` on that does not
      hold whitespace, or `|s|`. */
  function StripStart(s: string, i: nat): (j: nat)
    requires i <= |s|
    ensures i <= j <= |s| && WhitespaceIn(s, i, j)
    ensures j == |s| || !IsPyWhitespace(s[j])
    decreases |s| - i
  {
    if i < |s| && IsPyWhitespace(s[i]) then StripStart(s, i + 1) else i
  }

  /** The right end of `s.strip()`: going left from `j`, the end of the last
      character that is not whitespace, but never left of `lo`. */
  function StripEnd(s: string, lo: nat, j: nat): (e: nat)
    requires lo <= j <= |s|
    ensures lo <= e <= j && WhitespaceIn(s, e, j)
    ensures e == lo || !IsPyWhitespace(s[e - 1])
    decreases j
  {
    if j > lo && IsPyWhitespace(s[j - 1]) then StripEnd(s, lo, j - 1) else j
  }

  /** `s.strip()`: the whitespace at both ends removed. What remains neither
      starts nor ends with whitespace, and all that was removed is whitespace. */
  function Strip(s: string): (r: string)
    ensures |r| <= |s|
    ensures r == [] || (!IsPyWhitespace(r[0]) && !IsPyWhitespace(r[|r| - 1]))
    ensures exists i, e :: 0 <= i <= e <= |s| && r == s[i .. e] && WhitespaceIn(s, 0, i) && WhitespaceIn(s, e, |s|)
  {
    var i := StripStart(s, 0);
    var e := StripEnd(s, i, |s|);
    s[i .. e]
  }

  /** `s.replace(" ", "")`: every space removed, everything else kept in order. */
  function RemoveSpaces(s: string): (r: string)
    ensures |r| <= |s|
    ensures forall k :: 0 <= k < |r| ==> r[k] != ' '
    ensures (forall k :: 0 <= k < |s| ==> s[k] != ' ') ==> r == s
    ensures |s| == 1 ==> r == if s[0] == ' ' then [] else s
  {
    if s == [] then [] else (if s[0] == ' ' then [] else [s[0]]) + RemoveSpaces(s[1..])
  }

  lemma {:induction false} RemoveSpacesAppend(a: string, b: string)
    ensures RemoveSpaces(a + b) == RemoveSpaces(a) + RemoveSpaces(b)
    decreases |a|
  {
    if a != [] {
      var s := a + b;
      assert s[0] == a[0] && s[1..] == a[1..] + b;
      RemoveSpacesAppend(a[1..], b);
      assert RemoveSpaces(s) == (if a[0] == ' ' then [] else [a[0]]) + RemoveSpaces(a[1..] + b);
    } else {
      assert a + b == b;
    }
  }

  /** The hex text `on_hex_selection` hands to `fromhex`. */
  function SelectedHex(selection: string): string {
    RemoveSpaces(Strip(selection))
  }

  /** The chunk's hex pairs written back to back. */
  function Compact(chunk: seq<byte>): (s: string)
    ensures |s| == 2 * |chunk| && AllLowerHexDigits(s)
  {
    if chunk == [] then [] else HexPair(chunk[0]) + Compact(chunk[1..])
  }

  /** A byte's hex pair reads back as the byte. */
  lemma HexPairValue(b: byte)
    ensures IsHexDigit(HexPair(b)[0]) && IsHexDigit(HexPair(b)[1])
    ensures 16 * DigitValue(HexPair(b)[0]) + DigitValue(HexPair(b)[1]) == b
  {
    DigitRoundTrip(b / 16);
    DigitRoundTrip(b % 16);
  }

  /** The pairs of a chunk written back to back decode to the chunk. */
  lemma {:induction false} CompactDecodes(chunk: seq<byte>)
    ensures DecodePairs(Compact(chunk)) == Ok(chunk)
  {
    if chunk != [] {
      var p := HexPair(chunk[0]);
      HexPairValue(chunk[0]);
      CompactDecodes(chunk[1..]);
      assert Compact(chunk) == p + Compact(chunk[1..]);
      DecodePrefixPair(p, Compact(chunk[1..]));
      var v: byte := 16 * DigitValue(p[0]) + DigitValue(p[1]);
      assert v == chunk[0];
      assert [v] + chunk[1..] == chunk;
    }
  }

  /** The hex column of a line decodes to the chunk it shows. */
  lemma {:induction false} HexColumnDecodes(chunk: seq<byte>)
    ensures DecodePairs(HexColumn(chunk)) == Ok(chunk)
  {
    if chunk != [] {
      var p := HexPair(chunk[0]);
      HexPairValue(chunk[0]);
      var v: byte := 16 * DigitValue(p[0]) + DigitValue(p[1]);
      assert v == chunk[0];
      if |chunk| == 1 {
        assert HexColumn(chunk) == p + "";
        DecodePrefixPair(p, "");
        assert [v] + [] == chunk;
      } else {
        var t := HexColumn(chunk[1..]);
        HexColumnDecodes(chunk[1..]);
        DecodeJoin(p, t);
        assert [v] + chunk[1..] == chunk;
      }
    }
  }

  /** `fromhex` reads a hex column back as its chunk. */
  lemma HexColumnFromHex(chunk: seq<byte>)
    ensures FromHex(HexColumn(chunk)) == Ok(chunk)
  {
    HexColumnDecodes(chunk);
    assert IsAscii(HexColumn(chunk));
  }

  /** `fromhex` reads the compact pairs back as their chunk. */
  lemma CompactFromHex(chunk: seq<byte>)
    ensures FromHex(Compact(chunk)) == Ok(chunk)
  {
    CompactDecodes(chunk);
    assert IsAscii(Compact(chunk));
  }

  /** A non-empty hex column starts and ends with a digit. */
  lemma HexColumnEnds(chunk: seq<byte>)
    requires chunk != []
    ensures var h := HexColumn(chunk);
      |h| >= 2 && IsLowerHexDigit(h[0]) && IsLowerHexDigit(h[|h| - 1])
  {
    var h := HexColumn(chunk);
    var n := |chunk|;
    HexColumnCell(chunk, 0);
    HexColumnCell(chunk, n - 1);
    assert h[0] == h[0..2][0] == HexPair(chunk[0])[0];
    assert h[|h| - 1] == h[3 * (n - 1) .. 3 * (n - 1) + 2][1] == HexPair(chunk[n - 1])[1];
  }

  /** Deleting the separators of a hex column leaves the compact pairs. */
  lemma {:induction false} HexColumnCompacts(chunk: seq<byte>)
    ensures RemoveSpaces(HexColumn(chunk)) == Compact(chunk)
  {
    if |chunk| == 1 {
      assert Compact(chunk) == HexPair(chunk[0]) + Compact([]);
    } else if |chunk| > 1 {
      var p, rest := HexPair(chunk[0]), HexColumn(chunk[1..]);
      assert HexColumn(chunk) == p + " " + rest;
      HexPairValue(chunk[0]);
      RemoveSpacesAfterPair(p, rest);
      HexColumnCompacts(chunk[1..]);
      assert Compact(chunk) == p + Compact(chunk[1..]);
    }
  }

  /** A pair of non-spaces and a space in front: the pair stays, the space goes. */
  lemma RemoveSpacesAfterPair(p: string, rest: string)
    requires |p| == 2 && IsHexDigit(p[0]) && IsHexDigit(p[1])
    ensures RemoveSpaces(p + " " + rest) == p + RemoveSpaces(rest)
  {
    RemoveSpacesAppend(p + " ", rest);
    RemoveSpacesAppend(p, " ");
    assert RemoveSpaces(p) == p;
  }

  /** Stripping a string that starts and ends with a non-space, padded with spaces on the right, gives it back. */
  lemma StripPadded(h: string, width: nat)
    requires h != [] && !IsPyWhitespace(h[0]) && !IsPyWhitespace(h[|h| - 1])
    ensures Strip(LJust(h, width)) == h
  {
    var s := LJust(h, width);
    assert s[0] == h[0] && s[|h| - 1] == h[|h| - 1];
    assert StripStart(s, 0) == 0;
    var e := StripEnd(s, 0, |s|);
    assert !IsPyWhitespace(s[|h| - 1]);
    assert e == |h|;
    assert s[..|h|] == h;
  }

  /** The selection clean-up turns a whole padded hex column into its compact pairs. */
  lemma {:induction false} SelectionCompacts(chunk: seq<byte>)
    requires 1 <= |chunk| <= BytesPerLine
    ensures SelectedHex(LJust(HexColumn(chunk), HexColumnWidth)) == Compact(chunk)
  {
    var h := HexColumn(chunk);
    HexColumnEnds(chunk);
    StripPadded(h, HexColumnWidth);
    HexColumnCompacts(chunk);
  }

  /** Selecting the whole hex column of a line and running it through the
      selection clean-up and `fromhex` gives back exactly that line's chunk. */
  lemma SelectionRoundTrip(chunk: seq<byte>)
    requires 1 <= |chunk| <= BytesPerLine
    ensures FromHex(SelectedHex(LJust(HexColumn(chunk), HexColumnWidth))) == Ok(chunk)
  {
    SelectionCompacts(chunk);
    CompactFromHex(chunk);
  }
}

/** Python's byte-string search and substitution as the editor uses them:
    `bytearray.find` (leftmost occurrence or -1) and `bytearray.replace`
    (every non-overlapping occurrence, scanning left to right), with
    `bytearray.count`, which counts the occurrences `replace` substitutes. */
module ByteSearch {
  import opened HexText

  /** The pattern occurs in `data` starting at index `i`. */
  predicate OccursAt(data: seq<byte>, pattern: seq<byte>, i: nat) {
    i + |pattern| <= |data| && data[i .. i + |pattern|] == pattern
  }

  /** The first index from `i` on where the pattern occurs, or -1. */
  function FindFrom(data: seq<byte>, pattern: seq<byte>, i: nat): (r: int)
    ensures r == -1 <==> forall j: nat :: i <= j ==> !OccursAt(data, pattern, j)
    ensures r != -1 ==> i <= r && OccursAt(data, pattern, r)
    ensures r != -1 ==> forall j: nat :: i <= j < r ==> !OccursAt(data, pattern, j)
    decreases |data| - i
  {
    if i + |pattern| > |data| then -1
    else if data[i .. i + |pattern|] == pattern then
      assert OccursAt(data, pattern, i);
      i
    else FindFrom(data, pattern, i + 1)
  }

  /** `data.find(pattern)`: the leftmost index where the pattern occurs, or
      -1 when it occurs nowhere. The empty pattern occurs at 0. */
  function Find(data: seq<byte>, pattern: seq<byte>): (r: int)
    ensures r == -1 || 0 <= r <= |data| - |pattern|
    ensures r == -1 <==> forall j: nat :: !OccursAt(data, pattern, j)
    ensures r != -1 ==> OccursAt(data, pattern, r) && forall j: nat :: j < r ==> !OccursAt(data, pattern, j)
  {
    FindFrom(data, pattern, 0)
  }

  /** `data.replace(b"", with)`: the replacement before every byte and at the end. */
  function InsertEverywhere(data: seq<byte>, with: seq<byte>): seq<byte>
  {
    if data == [] then with else with + [data[0]] + InsertEverywhere(data[1..], with)
  }

  /** The substitution scan for a non-empty pattern: at each position, either
      the pattern starts there and is replaced, or one byte is kept. */
  function ReplaceScan(data: seq<byte>, pattern: seq<byte>, with: seq<byte>): seq<byte>
    requires pattern != []
    decreases |data|
  {
    if |data| < |pattern| then data
    else if data[..|pattern|] == pattern then with + ReplaceScan(data[|pattern|..], pattern, with)
    else [data[0]] + ReplaceScan(data[1..], pattern, with)
  }

  /** `data.replace(pattern, with)`. */
  function Replace(data: seq<byte>, pattern: seq<byte>, with: seq<byte>): seq<byte> {
    if pattern == [] then InsertEverywhere(data, with) else ReplaceScan(data, pattern, with)
  }

  /** The number of substitutions the scan makes. */
  function CountScan(data: seq<byte>, pattern: seq<byte>): (n: nat)
    requires pattern != []
    ensures n * |pattern| <= |data|
    decreases |data|
  {
    if |data| < |pattern| then 0
    else if data[..|pattern|] == pattern then 1 + CountScan(data[|pattern|..], pattern)
    else CountScan(data[1..], pattern)
  }

  /** `data.count(pattern)`: non-overlapping occurrences; the empty pattern
      is counted once per gap, `len(data) + 1` times. */
  function Count(data: seq<byte>, pattern: seq<byte>): nat {
    if pattern == [] then |data| + 1 else CountScan(data, pattern)
  }

  /** An occurrence one byte further into `data` is an occurrence in `data[1..]`. */
  lemma OccursShift(data: seq<byte>, pattern: seq<byte>, j: nat)
    requires data != []
    ensures OccursAt(data, pattern, j + 1) <==> OccursAt(data[1..], pattern, j)
  {
    if j + 1 + |pattern| <= |data| {
      assert data[1..][j .. j + |pattern|] == data[j + 1 .. j + 1 + |pattern|];
    }
  }

  /** Where the pattern does not start, the scan keeps one byte and moves on. */
  lemma ScanStep(data: seq<byte>, pattern: seq<byte>, with: seq<byte>)
    requires pattern != [] && |data| >= |pattern| && !OccursAt(data, pattern, 0)
    ensures ReplaceScan(data, pattern, with) == [data[0]] + ReplaceScan(data[1..], pattern, with)
    ensures CountScan(data, pattern) == CountScan(data[1..], pattern)
  {
  }

  lemma NoOccurrenceShift(data: seq<byte>, pattern: seq<byte>, i: nat)
    requires data != [] && 0 < i
    requires forall j: nat :: j < i ==> !OccursAt(data, pattern, j)
    ensures forall j: nat :: j < i - 1 ==> !OccursAt(data[1..], pattern, j)
  {
    forall j: nat | j < i - 1
      ensures !OccursAt(data[1..], pattern, j)
    {
      OccursShift(data, pattern, j);
    }
  }

  /** Before the first occurrence, the scan copies bytes unchanged. */
  lemma {:induction false} ScanPrefix(data: seq<byte>, pattern: seq<byte>, with: seq<byte>, i: nat)
    requires pattern != [] && i <= |data|
    requires forall j: nat :: j < i ==> !OccursAt(data, pattern, j)
    ensures ReplaceScan(data, pattern, with) == data[..i] + ReplaceScan(data[i..], pattern, with)
    ensures CountScan(data, pattern) == CountScan(data[i..], pattern)
    decreases i
  {
    if i > 0 {
      if |data| < |pattern| {
        assert data[..i] + data[i..] == data;
      } else {
        var rest := data[1..];
        ScanStep(data, pattern, with);
        NoOccurrenceShift(data, pattern, i);
        ScanPrefix(rest, pattern, with, i - 1);
        assert rest[i - 1..] == data[i..];
        assert [data[0]] + rest[..i - 1] == data[..i];
      }
    }
  }

  /** Without any occurrence, replacing changes nothing. */
  lemma ReplaceNoOccurrence(data: seq<byte>, pattern: seq<byte>, with: seq<byte>)
    requires Find(data, pattern) == -1
    ensures Replace(data, pattern, with) == data
    ensures Count(data, pattern) == 0
  {
    assert !OccursAt(data, pattern, 0);
    ScanPrefix(data, pattern, with, |data|);
    assert data[|data|..] == [];
    assert data[..|data|] == data;
  }

  /** The scan substitutes the leftmost occurrence first and then carries on
      right after it, so occurrences never overlap. */
  lemma ReplaceAtFind(data: seq<byte>, pattern: seq<byte>, with: seq<byte>)
    requires pattern != [] && Find(data, pattern) != -1
    ensures var i := Find(data, pattern);
      && Replace(data, pattern, with) == data[..i] + with + Replace(data[i + |pattern|..], pattern, with)
      && Count(data, pattern) == 1 + Count(data[i + |pattern|..], pattern)
  {
    var i := Find(data, pattern);
    ScanPrefix(data, pattern, with, i);
    var tail := data[i..];
    assert tail[..|pattern|] == pattern;
    assert tail[|pattern|..] == data[i + |pattern|..];
  }

  /** `count` is 0 exactly when `find` gives -1. An empty pattern is counted
      at every one of the n + 1 gaps and found at 0, so neither side holds. */
  lemma CountZeroIffNotFound(data: seq<byte>, pattern: seq<byte>)
    ensures Count(data, pattern) == 0 <==> Find(data, pattern) == -1
  {
    if pattern == [] {
      assert OccursAt(data, pattern, 0);
    } else if Find(data, pattern) == -1 {
      ReplaceNoOccurrence(data, pattern, []);
    } else {
      ReplaceAtFind(data, pattern, []);
    }
  }

  /** Each substitution changes the length by the difference of the two lengths. */
  lemma {:induction false} ReplaceLength(data: seq<byte>, pattern: seq<byte>, with: seq<byte>)
    ensures |Replace(data, pattern, with)| == |data| + Count(data, pattern) * (|with| - |pattern|)
    decreases |data|
  {
    if pattern == [] {
      InsertLength(data, with);
    } else if |data| >= |pattern| {
      if data[..|pattern|] == pattern {
        var n := Count(data[|pattern|..], pattern);
        ReplaceLength(data[|pattern|..], pattern, with);
        assert (1 + n) * (|with| - |pattern|) == n * (|with| - |pattern|) + (|with| - |pattern|);
      } else {
        ReplaceLength(data[1..], pattern, with);
      }
    }
  }

  lemma {:induction false} InsertLength(data: seq<byte>, with: seq<byte>)
    ensures |InsertEverywhere(data, with)| == |data| + (|data| + 1) * |with|
    decreases |data|
  {
    if data != [] {
      InsertLength(data[1..], with);
      assert (|data| + 1) * |with| == |data| * |with| + |with|;
    }
  }

  /** Where an empty-pattern replace puts things: the data byte `k` comes
      right after the `k`-th copy of the new bytes, and each copy starts at
      `k * (|with| + 1)`. */
  lemma {:induction false} InsertAt(data: seq<byte>, with: seq<byte>, k: nat)
    requires k < |data|
    ensures var r, p := InsertEverywhere(data, with), k * (|with| + 1);
      p + |with| < |r| && r[p .. p + |with|] == with && r[p + |with|] == data[k]
    decreases k
  {
    var r, w := InsertEverywhere(data, with), |with|;
    var rest := InsertEverywhere(data[1..], with);
    assert r == with + [data[0]] + rest;
    if k == 0 {
      assert r[..w] == with;
    } else {
      InsertAt(data[1..], with, k - 1);
      var q := (k - 1) * (w + 1);
      assert k * (w + 1) == q + w + 1;
      assert r[q + w + 1 .. q + w + 1 + w] == rest[q .. q + w];
      assert r[q + w + 1 + w] == rest[q + w];
      assert data[1..][k - 1] == data[k];
    }
  }

  /** An empty-pattern replace ends with the new bytes: the `n+1`-th copy
      goes after the last data byte. */
  lemma {:induction false} InsertEnds(data: seq<byte>, with: seq<byte>)
    ensures var r := InsertEverywhere(data, with);
      |with| <= |r| && r[|r| - |with|..] == with
    decreases |data|
  {
    if data != [] {
      InsertEnds(data[1..], with);
      var rest := InsertEverywhere(data[1..], with);
      var r := InsertEverywhere(data, with);
      assert r == with + [data[0]] + rest;
      assert r[|r| - |with|..] == rest[|rest| - |with|..];
    }
  }

  /** Replacing a pattern with itself leaves the data unchanged. */
  lemma {:induction false} ReplaceSame(data: seq<byte>, pattern: seq<byte>)
    ensures Replace(data, pattern, pattern) == data
    decreases |data|
  {
    if pattern == [] {
      InsertNothing(data);
    } else if |data| >= |pattern| {
      if data[..|pattern|] == pattern {
        ReplaceSame(data[|pattern|..], pattern);
        assert data[..|pattern|] + data[|pattern|..] == data;
      } else {
        ReplaceSame(data[1..], pattern);
        assert [data[0]] + data[1..] == data;
      }
    }
  }

  lemma {:induction false} InsertNothing(data: seq<byte>)
    ensures InsertEverywhere(data, []) == data
    decreases |data|
  {
    if data != [] {
      InsertNothing(data[1..]);
      assert [] + [data[0]] + data[1..] == data;
    }
  }
}

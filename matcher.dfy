// The pattern matcher of pdfencryption.go: Boyer-Moore-Horspool search
// (bad-character rule only) of a keyword inside a byte buffer.

module Matcher {

  /** A byte, 0..255; both the buffer and the keyword are sequences of them. */
  type byte = b: int | 0 <= b < 256

  /** Number of entries of the bad-character table: one per byte value. */
  const TableSize: nat := 256

  // ---------------------------------------------------------------------------
  // Reference definitions

  /** `keyword` occurs in `buffer` starting at position `p`. */
  ghost predicate MatchesAt(buffer: seq<byte>, keyword: seq<byte>, p: int)
  {
    0 <= p && p + |keyword| <= |buffer| && buffer[p..p + |keyword|] == keyword
  }

  /** `keyword` is a contiguous subsequence of `buffer`. */
  ghost predicate Occurs(buffer: seq<byte>, keyword: seq<byte>)
  {
    exists p :: MatchesAt(buffer, keyword, p)
  }

  /** The last index j < n with keyword[j] == b, or -1 when there is none. */
  function LastBefore(keyword: seq<byte>, b: byte, n: int): (j: int)
    requires n <= |keyword|
    ensures j == -1 || 0 <= j < n
    ensures j >= 0 ==> keyword[j] == b
    ensures forall t :: j < t < n ==> keyword[t] != b
    decreases n
  {
    if n <= 0 then -1
    else if keyword[n - 1] == b then n - 1
    else LastBefore(keyword, b, n - 1)
  }

  /** The shift the bad-character table holds for byte `b`: the distance from
      the last occurrence of `b` before the keyword's final position to that
      final position, or the keyword's length when there is none. */
  function Shift(keyword: seq<byte>, b: byte): int
  {
    var j := LastBefore(keyword, b, |keyword| - 1);
    if j < 0 then |keyword| else |keyword| - 1 - j
  }

  // ---------------------------------------------------------------------------
  // Properties of the bad-character table

  /** For a non-empty keyword every shift lies in [1, |keyword|], and it is
      exactly |keyword| iff the byte does not occur in keyword[..|keyword|-1]. */
  lemma ShiftBounds(keyword: seq<byte>, b: byte)
    requires |keyword| > 0
    ensures 1 <= Shift(keyword, b) <= |keyword|
    ensures Shift(keyword, b) == |keyword| <==>
              forall j :: 0 <= j < |keyword| - 1 ==> keyword[j] != b
  {
  }

  /** A byte occurring at index j < |keyword|-1 with no later occurrence
      before the final position shifts by |keyword| - 1 - j: later writes to
      the table overwrite earlier ones. */
  lemma ShiftOfLastOccurrence(keyword: seq<byte>, b: byte, j: int)
    requires 0 <= j < |keyword| - 1 && keyword[j] == b
    requires forall t :: j < t < |keyword| - 1 ==> keyword[t] != b
    ensures Shift(keyword, b) == |keyword| - 1 - j
  {
  }

  /** Horspool's safety argument: for any cursor `i`, no alignment ending
      at a cursor strictly between `i` and `i + Shift(keyword, buffer[i])`
      matches, because each of them would put an occurrence of buffer[i]
      after the last one the table records. */
  lemma ShiftSkipsNoMatch(buffer: seq<byte>, keyword: seq<byte>, i: int, p: int)
    requires |keyword| > 0 && |keyword| - 1 <= i < |buffer|
    requires i - |keyword| + 1 < p < i + Shift(keyword, buffer[i]) - |keyword| + 1
    ensures !MatchesAt(buffer, keyword, p)
  {
  }

  /** An alignment matches exactly when the keyword agrees with the buffer at
      every one of its positions. */
  lemma AlignmentMatches(buffer: seq<byte>, keyword: seq<byte>, p: int)
    requires 0 <= p && p + |keyword| <= |buffer|
    ensures MatchesAt(buffer, keyword, p) <==>
              forall t :: 0 <= t < |keyword| ==> keyword[t] == buffer[p + t]
  {
  }

  // ---------------------------------------------------------------------------
  // The search

  /** Builds the 256-entry bad-character table: every entry starts at
      |keyword|, then each position i < |keyword|-1 writes |keyword|-1-i
      at the entry of keyword[i]. */
  method BuildBadCharTable(keyword: seq<byte>) returns (table: array<int>)
    ensures fresh(table) && table.Length == TableSize
    ensures forall b: byte :: table[b] == Shift(keyword, b)
  {
    var n := |keyword|;
    table := new int[TableSize];
    for b := 0 to TableSize
      invariant forall c :: 0 <= c < b ==> table[c] == n
    {
      table[b] := n;
    }
    for i := 0 to if n > 0 then n - 1 else 0
      invariant forall b: byte ::
        table[b] == (var j := LastBefore(keyword, b, i); if j < 0 then n else n - 1 - j)
    {
      table[keyword[i]] := n - i - 1;
    }
  }

  /** The Horspool search. `found` says whether `keyword` occurs in `buffer`;
      when it does, the ghost `at` is the first occurrence, the one the
      search stops at. An empty keyword is found at position 0. */
  method ContainsKeyword(buffer: seq<byte>, keyword: seq<byte>) returns (found: bool, ghost at: int)
    ensures found <==> Occurs(buffer, keyword)
    ensures found ==> MatchesAt(buffer, keyword, at) &&
                      forall q :: 0 <= q < at ==> !MatchesAt(buffer, keyword, q)
    ensures |buffer| < |keyword| ==> !found
  {
    var keywordLen := |keyword|;
    var bufferLen := |buffer|;
    var table := BuildBadCharTable(keyword);

    var i := keywordLen - 1;
    while i < bufferLen
      invariant i >= keywordLen - 1
      invariant forall b: byte :: table[b] == Shift(keyword, b)
      invariant forall q :: 0 <= q <= i - keywordLen ==> !MatchesAt(buffer, keyword, q)
      decreases bufferLen - i
    {
      var k := 0;
      ghost var p := i - keywordLen + 1;
      while k < keywordLen && keyword[keywordLen - k - 1] == buffer[i - k]
        invariant 0 <= k <= keywordLen
        invariant forall t :: keywordLen - k <= t < keywordLen ==> keyword[t] == buffer[p + t]
      {
        k := k + 1;
      }
      AlignmentMatches(buffer, keyword, p);
      if k == keywordLen {
        found, at := true, p;
        return;
      }
      assert keyword[keywordLen - k - 1] != buffer[p + (keywordLen - k - 1)];
      var s := table[buffer[i]];
      ShiftBounds(keyword, buffer[i]);
      forall q | i - keywordLen + 1 < q <= i + s - keywordLen
        ensures !MatchesAt(buffer, keyword, q)
      {
        ShiftSkipsNoMatch(buffer, keyword, i, q);
      }
      i := i + s;
    }
    found, at := false, -1;
  }
}

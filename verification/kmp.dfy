/** Knuth-Morris-Pratt search over sequences of arbitrary tokens compared by
    equality (Python `mytrie.KnuthMorrisPratt`, a generator). */
module Kmp {

  /** `pattern` occurs in `text` starting at `i`. */
  predicate OccursAt<T(==)>(text: seq<T>, pattern: seq<T>, i: int) {
    0 <= i && i + |pattern| <= |text| && text[i..i + |pattern|] == pattern
  }

  /** `s` is a shift of the first `i` tokens of `pattern`: moving that prefix
      `s` places to the right lines it up with itself, i.e. its first `i - s`
      tokens are also its last `i - s` tokens. */
  ghost predicate IsShift<T>(pattern: seq<T>, i: int, s: int) {
    0 <= i <= |pattern| && 1 <= s <= i && forall k :: s <= k < i ==> pattern[k] == pattern[k - s]
  }

  /** No shift of the first `i` tokens is smaller than `bound`. */
  ghost predicate NoShiftBelow<T>(pattern: seq<T>, i: int, bound: int) {
    forall s :: 1 <= s < bound ==> !IsShift(pattern, i, s)
  }

  /** `s` is the smallest shift of the first `i` tokens. */
  ghost predicate IsLeastShift<T>(pattern: seq<T>, i: int, s: int) {
    IsShift(pattern, i, s) && NoShiftBelow(pattern, i, s)
  }

  /** The table `shifts` of Python `mytrie.KnuthMorrisPratt`: one entry per prefix length, the least
      shift of each non-empty prefix, and 1 for the empty prefix. */
  ghost predicate IsShiftTable<T>(pattern: seq<T>, shifts: seq<int>) {
    && |shifts| == |pattern| + 1
    && shifts[0] == 1
    && forall i :: 1 <= i <= |pattern| ==> IsLeastShift(pattern, i, shifts[i])
  }

  /** The last `len` tokens of `text[..j]` are the first `len` tokens of
      `pattern`. */
  ghost predicate MatchesAt<T>(text: seq<T>, pattern: seq<T>, j: int, len: int) {
    0 <= len <= j <= |text| && len <= |pattern| &&
    forall k :: 0 <= k < len ==> pattern[k] == text[j - len + k]
  }

  /** A shift of a longer prefix that is no shift of a shorter one can never
      become one again. */
  lemma ShiftOfLonger<T>(pattern: seq<T>, i: int, s: int)
    requires IsShift(pattern, i + 1, s) && s <= i
    ensures IsShift(pattern, i, s)
  {
  }

  /** Composing shifts: `shift` for `pos` tokens and `t` for the remaining
      overlap of `pos - shift` tokens give the shift `shift + t` for `pos`. */
  lemma ShiftCompose<T>(pattern: seq<T>, pos: int, shift: int, t: int)
    requires IsShift(pattern, pos, shift) && IsShift(pattern, pos - shift, t)
    ensures IsShift(pattern, pos, shift + t)
  {
    forall k | shift + t <= k < pos
      ensures pattern[k] == pattern[k - (shift + t)]
    {
      assert pattern[k] == pattern[k - shift];
      assert pattern[k - shift] == pattern[k - shift - t];
    }
  }

  /** No shift of `pos` tokens lies strictly between `shift` and
      `shift + t` when `t` is the least shift of the overlap. */
  lemma NoShiftBetween<T>(pattern: seq<T>, pos: int, shift: int, t: int, s: int)
    requires IsShift(pattern, pos, shift) && IsLeastShift(pattern, pos - shift, t)
    requires shift < s < shift + t
    ensures !IsShift(pattern, pos, s)
  {
    if IsShift(pattern, pos, s) {
      var u := s - shift;
      forall k | u <= k < pos - shift
        ensures pattern[k] == pattern[k - u]
      {
        assert pattern[k + shift] == pattern[k];
        assert pattern[k + shift] == pattern[k + shift - s];
      }
      assert IsShift(pattern, pos - shift, u);
    }
  }

  /** Builds the shift table the way Python `mytrie.KnuthMorrisPratt` does: the shift for one more
      token is found by following the table's shifts for shorter prefixes
      from the previous shift. */
  method ComputeShifts<T(==)>(pattern: seq<T>) returns (shifts: seq<int>)
    ensures IsShiftTable(pattern, shifts)
  {
    shifts := seq(|pattern| + 1, _ => 1);
    var shift := 1;
    var pos := 0;
    while pos < |pattern|
      invariant 0 <= pos <= |pattern|
      invariant |shifts| == |pattern| + 1 && shifts[0] == 1
      invariant forall i :: 1 <= i <= pos ==> IsLeastShift(pattern, i, shifts[i])
      invariant shift == shifts[pos]
    {
      var next := pos + 1;
      forall s | 1 <= s < shift && IsShift(pattern, next, s)
        ensures false
      {
        ShiftOfLonger(pattern, pos, s);
      }
      while shift <= pos && pattern[pos] != pattern[pos - shift]
        invariant 1 <= shift <= next
        invariant shift <= pos ==> IsShift(pattern, pos, shift)
        invariant NoShiftBelow(pattern, next, shift)
        decreases next - shift
      {
        var t := shifts[pos - shift];
        if pos - shift > 0 {
          ShiftCompose(pattern, pos, shift, t);
          forall s | shift <= s < shift + t && IsShift(pattern, next, s)
            ensures false
          {
            if s > shift {
              NoShiftBetween(pattern, pos, shift, t, s);
            }
            ShiftOfLonger(pattern, pos, s);
          }
        }
        shift := shift + t;
      }
      shifts := shifts[pos + 1 := shift];
      pos := pos + 1;
    }
  }

  /** The match of `len` tokens ending before `j` can be extended by the token
      at `j`. */
  ghost predicate Extends<T>(text: seq<T>, pattern: seq<T>, j: int, len: int) {
    0 <= j < |text| && len < |pattern| && MatchesAt(text, pattern, j, len) && pattern[len] == text[j]
  }

  /** A match ending at `j` is an occurrence starting `|pattern|` tokens
      earlier. */
  lemma MatchIsOccurrence<T>(text: seq<T>, pattern: seq<T>, i: int)
    requires 0 <= i
    ensures MatchesAt(text, pattern, i + |pattern|, |pattern|) <==> OccursAt(text, pattern, i)
  {
    var m := |pattern|;
    if MatchesAt(text, pattern, i + m, m) {
      assert text[i..i + m] == pattern by {
        forall k | 0 <= k < m
          ensures text[i..i + m][k] == pattern[k]
        {
          assert pattern[k] == text[i + m - m + k];
        }
      }
    }
    if OccursAt(text, pattern, i) {
      forall k | 0 <= k < m
        ensures pattern[k] == text[i + m - m + k]
      {
        assert text[i..i + m][k] == pattern[k];
      }
    }
  }

  /** A match of `len` tokens and a shift `s` of them leave a match of
      `len - s` tokens at the same place. */
  lemma MatchAfterShift<T>(text: seq<T>, pattern: seq<T>, j: int, len: int, s: int)
    requires MatchesAt(text, pattern, j, len) && IsShift(pattern, len, s)
    ensures MatchesAt(text, pattern, j, len - s)
  {
    forall k | 0 <= k < len - s
      ensures pattern[k] == text[j - (len - s) + k]
    {
      assert pattern[k + s] == pattern[k + s - s];
      assert pattern[k + s] == text[j - len + (k + s)];
    }
  }

  /** Two matches at the same place, of lengths `short < len`, make
      `len - short` a shift of the first `len` tokens. */
  lemma ShorterMatchIsShift<T>(text: seq<T>, pattern: seq<T>, j: int, len: int, short: int)
    requires MatchesAt(text, pattern, j, len) && MatchesAt(text, pattern, j, short)
    requires 0 <= short < len
    ensures IsShift(pattern, len, len - short)
  {
    var s := len - short;
    forall k | s <= k < len
      ensures pattern[k] == pattern[k - s]
    {
      assert pattern[k] == text[j - len + k];
      assert pattern[k - s] == text[j - short + (k - s)];
    }
  }

  /** A match ending after `j` is a match ending at `j` extended by the token
      at `j`. */
  lemma MatchSplitsLast<T>(text: seq<T>, pattern: seq<T>, j: int, len: int)
    requires 0 <= j < |text| && 1 <= len
    ensures MatchesAt(text, pattern, j + 1, len) <==> Extends(text, pattern, j, len - 1)
  {
    if MatchesAt(text, pattern, j + 1, len) {
      forall k | 0 <= k < len - 1
        ensures pattern[k] == text[j - (len - 1) + k]
      {
        assert pattern[k] == text[j + 1 - len + k];
      }
      assert pattern[len - 1] == text[j + 1 - len + (len - 1)];
    }
    if Extends(text, pattern, j, len - 1) {
      forall k | 0 <= k < len
        ensures pattern[k] == text[j + 1 - len + k]
      {
        if k < len - 1 {
          assert pattern[k] == text[j - (len - 1) + k];
        }
      }
    }
  }

  /** `len` is the longest prefix of `pattern` ending just before `j`. */
  ghost predicate LongestMatch<T>(text: seq<T>, pattern: seq<T>, j: int, len: int) {
    MatchesAt(text, pattern, j, len) && forall l :: len < l <= |pattern| ==> !MatchesAt(text, pattern, j, l)
  }

  /** The inner loop of the search, for the token at `j`: shorten the longest
      match ending before `j` along the shift table until the token extends
      it (or no match is left), moving the start position along. Adding the
      token then gives the longest match ending after `j`. */
  method Advance<T(==)>(text: seq<T>, pattern: seq<T>, shifts: seq<int>, j: int, startPos: int, matchLen: int)
    returns (startPos': int, matchLen': int)
    requires IsShiftTable(pattern, shifts) && 0 <= j < |text|
    requires 0 <= matchLen <= |pattern| && startPos == j - matchLen
    requires LongestMatch(text, pattern, j, matchLen)
    ensures 0 <= matchLen' <= |pattern| && startPos' == j + 1 - matchLen'
    ensures LongestMatch(text, pattern, j + 1, matchLen')
  {
    var m := |pattern|;
    var c := text[j];
    startPos', matchLen' := startPos, matchLen;
    while matchLen' == m || (matchLen' >= 0 && pattern[matchLen'] != c)
      invariant -1 <= matchLen' <= m && startPos' == j - matchLen'
      invariant matchLen' >= 0 ==> MatchesAt(text, pattern, j, matchLen')
      invariant forall len :: matchLen' < len <= m ==> !Extends(text, pattern, j, len)
      decreases matchLen' + 1
    {
      var s := shifts[matchLen'];
      forall len | matchLen' - s < len < matchLen' && MatchesAt(text, pattern, j, len)
        ensures false
      {
        ShorterMatchIsShift(text, pattern, j, matchLen', len);
      }
      if matchLen' > 0 {
        MatchAfterShift(text, pattern, j, matchLen', s);
      }
      startPos' := startPos' + s;
      matchLen' := matchLen' - s;
    }
    var next := j + 1;
    forall len | matchLen' + 1 < len <= m && MatchesAt(text, pattern, next, len)
      ensures false
    {
      MatchSplitsLast(text, pattern, j, len);
    }
    if matchLen' >= 0 {
      MatchSplitsLast(text, pattern, j, matchLen' + 1);
    }
    matchLen' := matchLen' + 1;
  }

  /** The search loop of Python `mytrie.KnuthMorrisPratt`: reads `text` token by token, keeping the
      length of the longest prefix of `pattern` that ends at the current
      token, and reports a start position whenever that prefix is the whole
      pattern. A match of the empty pattern is reported after every token
      but never before the first one. */
  method KnuthMorrisPratt<T(==)>(text: seq<T>, pattern: seq<T>) returns (positions: seq<nat>)
    ensures forall a, b :: 0 <= a < b < |positions| ==> positions[a] < positions[b]
    ensures forall i :: i in positions <==> OccursAt(text, pattern, i) && 1 <= i + |pattern|
    ensures |pattern| > 0 ==> forall i :: i in positions <==> OccursAt(text, pattern, i)
    ensures |pattern| == 0 ==> forall i :: i in positions <==> 1 <= i <= |text|
  {
    var m := |pattern|;
    var shifts := ComputeShifts(pattern);
    positions := [];
    var startPos := 0;
    var matchLen := 0;
    var j := 0;
    while j < |text|
      invariant 0 <= j <= |text|
      invariant 0 <= matchLen <= m && startPos == j - matchLen
      invariant LongestMatch(text, pattern, j, matchLen)
      invariant forall a, b :: 0 <= a < b < |positions| ==> positions[a] < positions[b]
      invariant forall a :: 0 <= a < |positions| ==> positions[a] + m <= j
      invariant forall i :: i in positions <==> 0 <= i && 1 <= i + m <= j && MatchesAt(text, pattern, i + m, m)
    {
      startPos, matchLen := Advance(text, pattern, shifts, j, startPos, matchLen);
      j := j + 1;
      if matchLen == m {
        positions := positions + [startPos];
      }
    }
    forall i
      ensures i in positions <==> OccursAt(text, pattern, i) && 1 <= i + m
    {
      if 0 <= i {
        MatchIsOccurrence(text, pattern, i);
      }
    }
  }

  /** The empty pattern occurs at the very start of every text, a position
      the search above never reports. */
  lemma EmptyPatternOccursAtStart<T>(text: seq<T>)
    ensures OccursAt(text, [], 0)
  {
  }

  /** Every start position of `pattern` in `text`, in increasing order,
      including position 0 for the empty pattern. */
  method Occurrences<T(==)>(text: seq<T>, pattern: seq<T>) returns (positions: seq<nat>)
    ensures forall a, b :: 0 <= a < b < |positions| ==> positions[a] < positions[b]
    ensures forall i :: i in positions <==> OccursAt(text, pattern, i)
  {
    positions := KnuthMorrisPratt(text, pattern);
    if pattern == [] {
      forall a | 0 <= a < |positions|
        ensures 0 < positions[a]
      {
        assert positions[a] in positions;
      }
      positions := [0] + positions;
    }
  }
}

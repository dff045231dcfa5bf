/** `StringLike`: an immutable token string with Python's indexing, slicing,
    concatenation and substring test, so that tries can be keyed by sequences
    of arbitrary tokens. */
module StringLike {
  import opened Results
  import opened Kmp

  /** A string of tokens (the `tokens` tuple of Python `mytrie.StringLike`). */
  datatype StringLike<T> = StringLike(tokens: seq<T>)

  /** The empty string (`StringLike.Empty`). */
  function Empty<T>(): StringLike<T> {
    StringLike([])
  }

  /** `other` is a contiguous piece of `s`. */
  predicate IsSubstring<T(==)>(other: seq<T>, s: seq<T>) {
    exists i :: 0 <= i <= |s| && OccursAt(s, other, i)
  }

  /** `a + b`: the tokens of `a` followed by those of `b`. */
  function Concat<T>(a: StringLike<T>, b: StringLike<T>): (r: StringLike<T>)
    ensures |r.tokens| == |a.tokens| + |b.tokens|
    ensures r.tokens[..|a.tokens|] == a.tokens && r.tokens[|a.tokens|..] == b.tokens
  {
    StringLike(a.tokens + b.tokens)
  }

  /** The empty string is the unit of concatenation, and concatenation is
      associative. */
  lemma ConcatMonoid<T>(a: StringLike<T>, b: StringLike<T>, c: StringLike<T>)
    ensures Concat(Empty(), a) == a && Concat(a, Empty()) == a
    ensures Concat(Concat(a, b), c) == Concat(a, Concat(b, c))
  {
    assert [] + a.tokens == a.tokens;
    assert a.tokens + [] == a.tokens;
    assert (a.tokens + b.tokens) + c.tokens == a.tokens + (b.tokens + c.tokens);
  }

  /** Both operands of a concatenation are substrings of the result. */
  lemma ConcatContainsParts<T>(a: StringLike<T>, b: StringLike<T>)
    ensures IsSubstring(a.tokens, Concat(a, b).tokens)
    ensures IsSubstring(b.tokens, Concat(a, b).tokens)
  {
    var r := Concat(a, b).tokens;
    assert OccursAt(r, a.tokens, 0);
    assert OccursAt(r, b.tokens, |a.tokens|);
  }

  /** Python's resolution of one slice bound against a length `n`: a missing
      bound takes its default, a negative one counts from the end, and the
      result is clamped into `0..n`. */
  function SliceBound(bound: Option<int>, default: nat, n: nat): (r: nat)
    requires default <= n
    ensures r <= n
    ensures bound.None? ==> r == default
    ensures bound.Some? && 0 <= bound.value <= n ==> r == bound.value
    ensures bound.Some? && bound.value < 0 <= bound.value + n ==> r == bound.value + n
    ensures bound.Some? && bound.value > n ==> r == n
    ensures bound.Some? && bound.value + n < 0 ==> r == 0
  {
    match bound
    case None => default
    case Some(b) =>
      var b' := if b < 0 then b + n else b;
      if b' < 0 then 0 else if b' > n then n else b'
  }

  /** `s[start:stop]`: the tokens between the resolved bounds, or nothing when
      the start lies at or after the stop. */
  function Slice<T>(s: StringLike<T>, start: Option<int>, stop: Option<int>): (r: StringLike<T>)
    ensures exists lo, hi :: 0 <= lo <= hi <= |s.tokens| && r.tokens == s.tokens[lo..hi]
    ensures start.Some? && stop.Some? && 0 <= start.value <= stop.value <= |s.tokens| ==>
              r.tokens == s.tokens[start.value..stop.value]
    ensures start.None? && stop.None? ==> r == s
    ensures start.None? && stop.Some? && 0 <= stop.value <= |s.tokens| ==> r.tokens == s.tokens[..stop.value]
    ensures start.Some? && stop.None? && 0 <= start.value <= |s.tokens| ==> r.tokens == s.tokens[start.value..]
    ensures start.Some? && stop.Some? && 0 <= stop.value <= start.value ==> r.tokens == []
    // Every other form, negative and out-of-range bounds included: the
    // bounds are resolved one by one, and a start at or past the stop gives
    // the empty string.
    ensures var lo, hi := SliceBound(start, 0, |s.tokens|), SliceBound(stop, |s.tokens|, |s.tokens|);
              (lo < hi ==> r.tokens == s.tokens[lo..hi]) && (hi <= lo ==> r.tokens == [])
  {
    var n := |s.tokens|;
    var lo := SliceBound(start, 0, n);
    var hi := SliceBound(stop, n, n);
    if lo < hi then
      StringLike(s.tokens[lo..hi])
    else
      assert s.tokens[lo..lo] == [];
      StringLike([])
  }

  /** `s[:]` is `s`, and cutting anywhere and concatenating the two halves
      gives `s` back. */
  lemma SliceSplit<T>(s: StringLike<T>, k: int)
    ensures Slice(s, None, None) == s
    ensures Concat(Slice(s, None, Some(k)), Slice(s, Some(k), None)) == s
  {
    assert s.tokens[0..|s.tokens|] == s.tokens;
    var n := |s.tokens|;
    var c := SliceBound(Some(k), 0, n);
    assert SliceBound(Some(k), n, n) == c;
    assert s.tokens[0..c] + s.tokens[c..n] == s.tokens;
  }

  /** Negative and out-of-range bounds behave as in Python: `s[-k:]` is the
      last `k` tokens, a stop past the end is the end, and a start before
      `-len(s)` is the start. */
  lemma SliceOutOfRange<T>(s: StringLike<T>, k: int, m: int)
    requires 0 < k <= |s.tokens| && m > |s.tokens|
    ensures Slice(s, Some(-k), None).tokens == s.tokens[|s.tokens| - k..]
    ensures Slice(s, Some(k), Some(m)) == Slice(s, Some(k), None)
    ensures Slice(s, Some(-m), None) == s
  {
  }

  /** `s[i]`: the one-token string at index `i`, counting from the end when
      `i` is negative; an index outside the string is an `IndexError`. */
  function GetItem<T>(s: StringLike<T>, i: int): (r: Result<StringLike<T>>)
    ensures r.Ok? <==> -|s.tokens| <= i < |s.tokens|
    ensures r.Err? ==> r.error == IndexError
    ensures r.Ok? ==> |r.value.tokens| == 1
    ensures 0 <= i < |s.tokens| ==> r == Ok(StringLike([s.tokens[i]]))
    ensures -|s.tokens| <= i < 0 ==> r == Ok(StringLike([s.tokens[|s.tokens| + i]]))
  {
    var n := |s.tokens|;
    var k := if i < 0 then i + n else i;
    if 0 <= k < n then Ok(StringLike([s.tokens[k]])) else Err(IndexError)
  }

  /** Indexing agrees with slicing: `s[i]` is the one-token slice starting at
      `i` (for `-1`, the slice must run to the end, since `s[-1:0]` is
      empty). */
  lemma GetItemIsUnitSlice<T>(s: StringLike<T>, i: int)
    requires -|s.tokens| <= i < |s.tokens|
    ensures i != -1 ==> GetItem(s, i) == Ok(Slice(s, Some(i), Some(i + 1)))
    ensures i == -1 ==> GetItem(s, i) == Ok(Slice(s, Some(i), None))
  {
    var k := if i < 0 then i + |s.tokens| else i;
    assert s.tokens[k..k + 1] == [s.tokens[k]];
  }

  /** `other in s`: the empty string is in every string; otherwise the
      Knuth-Morris-Pratt search is asked for a first occurrence. */
  method Contains<T(==)>(s: StringLike<T>, other: StringLike<T>) returns (b: bool)
    ensures b <==> IsSubstring(other.tokens, s.tokens)
  {
    if other == Empty() {
      assert OccursAt(s.tokens, other.tokens, 0);
      return true;
    }
    var positions := KnuthMorrisPratt(s.tokens, other.tokens);
    if |positions| > 0 {
      assert positions[0] in positions;
      return true;
    }
    return false;
  }
}

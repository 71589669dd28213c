/** Text helpers used by the recommender: ASCII lower-casing, Python-style
    whitespace stripping, query normalisation and case-insensitive
    substring search. */
module Text {

  /** An ASCII upper-case letter; only these are folded by `Lower`. */
  predicate IsUpper(c: char) {
    'A' <= c <= 'Z'
  }

  /** The code points Python's `str.isspace` accepts, which are the ones
      `str.strip()` removes when called without arguments. */
  predicate IsSpace(c: char) {
    var n := c as int;
    || 0x09 <= n <= 0x0D
    || 0x1C <= n <= 0x20
    || n == 0x85 || n == 0xA0 || n == 0x1680
    || 0x2000 <= n <= 0x200A
    || n == 0x2028 || n == 0x2029 || n == 0x202F || n == 0x205F || n == 0x3000
  }

  predicate NoUpper(s: string) {
    forall i :: 0 <= i < |s| ==> !IsUpper(s[i])
  }

  predicate AllSpace(s: string) {
    forall i :: 0 <= i < |s| ==> IsSpace(s[i])
  }

  /** Neither the first nor the last character is whitespace. */
  predicate Trimmed(s: string) {
    s == [] || (!IsSpace(s[0]) && !IsSpace(s[|s| - 1]))
  }

  function LowerChar(c: char): (d: char)
    ensures !IsUpper(d)
    ensures IsUpper(c) ==> d as int == c as int + 32
    ensures !IsUpper(c) ==> d == c
  {
    if IsUpper(c) then (c as int + 32) as char else c
  }

  /** `str.lower()`, restricted to ASCII letters. */
  function Lower(s: string): (r: string)
    ensures |r| == |s|
    ensures forall i :: 0 <= i < |s| ==> r[i] == LowerChar(s[i])
    ensures NoUpper(r)
  {
    seq(|s|, i requires 0 <= i < |s| => LowerChar(s[i]))
  }

  /** Removes leading whitespace: the result is a suffix of `s`, everything
      cut off is whitespace, and the result does not start with whitespace. */
  function TrimStart(s: string): (r: string)
    ensures |r| <= |s| && r == s[|s| - |r|..]
    ensures AllSpace(s[..|s| - |r|])
    ensures r == [] || !IsSpace(r[0])
  {
    if |s| > 0 && IsSpace(s[0]) then
      var r := TrimStart(s[1..]);
      var k := |s| - |r|;
      assert s[1..][k - 1..] == s[k..];
      assert forall i :: 1 <= i < k ==> s[1..][..k - 1][i - 1] == s[i];
      r
    else
      s
  }

  /** Removes trailing whitespace: the result is a prefix of `s`, everything
      cut off is whitespace, and the result does not end with whitespace. */
  function TrimEnd(s: string): (r: string)
    ensures |r| <= |s| && r == s[..|r|]
    ensures AllSpace(s[|r|..])
    ensures r == [] || !IsSpace(r[|r| - 1])
  {
    if |s| > 0 && IsSpace(s[|s| - 1]) then
      var r := TrimEnd(s[..|s| - 1]);
      assert forall i :: |r| <= i < |s| - 1 ==> s[i] == s[..|s| - 1][i];
      r
    else
      s
  }

  /** `r` sits at offset `k` of `s` with only whitespace around it. */
  predicate PaddedAt(s: string, r: string, k: int) {
    && 0 <= k <= |s| - |r|
    && s[k..k + |r|] == r
    && AllSpace(s[..k])
    && AllSpace(s[k + |r|..])
  }

  /** `str.strip()`: drops whitespace at both ends and nothing else. */
  function Strip(s: string): (r: string)
    ensures Trimmed(r)
    ensures exists k :: PaddedAt(s, r, k)
    ensures r == [] <==> AllSpace(s)
  {
    var t := TrimStart(s);
    var r := TrimEnd(t);
    StripPadding(s, t, r);
    r
  }

  lemma StripPadding(s: string, t: string, r: string)
    requires |t| <= |s| && t == s[|s| - |t|..] && AllSpace(s[..|s| - |t|])
    requires |r| <= |t| && r == t[..|r|] && AllSpace(t[|r|..])
    requires t == [] || !IsSpace(t[0])
    requires r == [] || !IsSpace(r[|r| - 1])
    ensures Trimmed(r)
    ensures PaddedAt(s, r, |s| - |t|)
    ensures r == [] <==> AllSpace(s)
  {
    var k := |s| - |t|;
    assert s[k..k + |r|] == r;
    assert s[k + |r|..] == t[|r|..];
    if r == [] {
      assert t[|r|..] == t;
      assert t == [];
      assert s[..k] == s;
    } else {
      assert s[k + |r| - 1] == r[|r| - 1];
      assert r[0] == t[0];
    }
  }

  /** The query clean-up `user_ingredients.lower().strip()`: the lower-cased
      query with the whitespace at both ends cut off. */
  function Normalize(query: string): (r: string)
    ensures exists k :: PaddedAt(Lower(query), r, k)
    ensures NoUpper(r)
    ensures Trimmed(r)
    ensures r == [] <==> AllSpace(query)
  {
    var lowered := Lower(query);
    assert forall i :: 0 <= i < |query| ==> (IsSpace(lowered[i]) <==> IsSpace(query[i]));
    Strip(lowered)
  }

  lemma {:induction false} LowerOfNoUpper(s: string)
    requires NoUpper(s)
    ensures Lower(s) == s
  {
    assert forall i :: 0 <= i < |s| ==> Lower(s)[i] == s[i];
  }

  lemma {:induction false} StripOfTrimmed(s: string)
    requires Trimmed(s)
    ensures Strip(s) == s
  {
    assert TrimStart(s) == s;
    assert TrimEnd(s) == s;
  }

  /** Normalising a query twice is the same as normalising it once. */
  lemma {:induction false} NormalizeIdempotent(query: string)
    ensures Normalize(Normalize(query)) == Normalize(query)
  {
    var once := Normalize(query);
    LowerOfNoUpper(once);
    StripOfTrimmed(once);
  }

  /** `pattern` occurs in `text` starting at offset `i`. */
  predicate OccursAt(text: string, pattern: string, i: int) {
    0 <= i <= |text| - |pattern| && text[i..i + |pattern|] == pattern
  }

  lemma OccursShift(text: string, pattern: string)
    requires |text| > 0
    ensures forall i :: OccursAt(text[1..], pattern, i) ==> OccursAt(text, pattern, i + 1)
    ensures forall i :: i != 0 && OccursAt(text, pattern, i) ==> OccursAt(text[1..], pattern, i - 1)
  {
    forall i | OccursAt(text[1..], pattern, i)
      ensures OccursAt(text, pattern, i + 1)
    {
      assert text[1..][i..i + |pattern|] == text[i + 1..i + 1 + |pattern|];
    }
    forall i | i != 0 && OccursAt(text, pattern, i)
      ensures OccursAt(text[1..], pattern, i - 1)
    {
      assert text[1..][i - 1..i - 1 + |pattern|] == text[i..i + |pattern|];
    }
  }

  /** Plain substring search. */
  function Contains(text: string, pattern: string): (r: bool)
    ensures r <==> exists i :: OccursAt(text, pattern, i)
    decreases |text|
  {
    if |pattern| > |text| then
      false
    else if text[..|pattern|] == pattern then
      assert OccursAt(text, pattern, 0);
      true
    else
      var r := Contains(text[1..], pattern);
      OccursShift(text, pattern);
      assert !OccursAt(text, pattern, 0);
      r
  }

  /** The case-insensitive substring test of `str.contains(p, case=False)`
      for a literal pattern, with ASCII case folding. */
  function ContainsIgnoreCase(text: string, pattern: string): (r: bool)
    ensures r <==> exists i :: OccursAt(Lower(text), Lower(pattern), i)
  {
    Contains(Lower(text), Lower(pattern))
  }

  /** The empty pattern occurs in every text. */
  lemma EmptyPatternEverywhere(text: string)
    ensures ContainsIgnoreCase(text, "")
  {
    assert OccursAt(Lower(text), Lower(""), 0);
  }

  /** Case does not matter on either side of the test. */
  lemma {:induction false} ContainsIgnoreCaseOfLower(text: string, pattern: string)
    ensures ContainsIgnoreCase(text, pattern) <==> ContainsIgnoreCase(Lower(text), Lower(pattern))
  {
    LowerOfNoUpper(Lower(text));
    LowerOfNoUpper(Lower(pattern));
  }
}

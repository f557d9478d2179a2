/** Character classes and the Python string operations the pipeline uses,
    restricted to ASCII. */
module Text {

  /** `str.isspace` on ASCII: space, tab through carriage return, and the
      four information separators 0x1C-0x1F. */
  predicate IsSpace(c: char) {
    c == ' ' || 9 <= c as int <= 13 || 28 <= c as int <= 31
  }

  /** `str.isdigit` and the regular-expression class `\d` on ASCII. */
  predicate IsDigit(c: char) {
    '0' <= c <= '9'
  }

  predicate IsLetter(c: char) {
    'a' <= c <= 'z' || 'A' <= c <= 'Z'
  }

  /** The regular-expression class `\w` on ASCII. */
  predicate IsWordChar(c: char) {
    IsLetter(c) || IsDigit(c) || c == '_'
  }

  /** `str.lower` on one ASCII character. */
  function LowerChar(c: char): char {
    if 'A' <= c <= 'Z' then (c as int + 32) as char else c
  }

  /** `str.lower` on ASCII: each upper-case letter becomes the lower-case
      letter at the same place in the alphabet, no upper-case letter is
      left, and every other character, digits included, stays where it was. */
  function Lower(s: string): (r: string)
    ensures |r| == |s|
    ensures forall i :: 0 <= i < |s| && 'A' <= s[i] <= 'Z' ==>
      'a' <= r[i] <= 'z' && r[i] as int - 'a' as int == s[i] as int - 'A' as int
    ensures forall i :: 0 <= i < |s| ==> !('A' <= r[i] <= 'Z')
    ensures forall i :: 0 <= i < |s| ==> !('A' <= s[i] <= 'Z') ==> r[i] == s[i]
  {
    seq(|s|, i requires 0 <= i < |s| => LowerChar(s[i]))
  }

  lemma LowerIdempotent(s: string)
    ensures Lower(Lower(s)) == Lower(s)
  {
  }

  /** Every character of s satisfies p. */
  predicate All(s: string, p: char -> bool) {
    forall i :: 0 <= i < |s| ==> p(s[i])
  }

  /** s neither starts nor ends with a character satisfying p. */
  predicate Bare(s: string, p: char -> bool) {
    s == [] || (!p(s[0]) && !p(s[|s| - 1]))
  }

  /** Drops the characters satisfying p from the front of s. */
  function TrimStart(s: string, p: char -> bool): (r: string)
    ensures |r| <= |s| && r == s[|s| - |r|..]
    ensures All(s[..|s| - |r|], p)
    ensures r == [] || !p(r[0])
  {
    if s != [] && p(s[0]) then TrimStart(s[1..], p) else s
  }

  /** Drops the characters satisfying p from the back of s. */
  function TrimEnd(s: string, p: char -> bool): (r: string)
    ensures |r| <= |s| && r == s[..|r|]
    ensures All(s[|r|..], p)
    ensures r == [] || !p(r[|r| - 1])
  {
    if s != [] && p(s[|s| - 1]) then TrimEnd(s[..|s| - 1], p) else s
  }

  /** r is what remains of s once runs of p-characters are cut from both
      ends: a contiguous slice with only p-characters outside it. */
  predicate IsTrimOf(r: string, s: string, p: char -> bool) {
    exists i :: 0 <= i <= |s| - |r| && s[i..i + |r|] == r && All(s[..i], p) && All(s[i + |r|..], p)
  }

  /** `str.strip`, with the characters to strip given by p. */
  function Strip(s: string, p: char -> bool): (r: string)
    ensures Bare(r, p)
    ensures |r| <= |s|
  {
    TrimEnd(TrimStart(s, p), p)
  }

  /** What Strip returns is a slice of its input with only p-characters
      cut away on either side. */
  lemma StripIsTrim(s: string, p: char -> bool)
    ensures IsTrimOf(Strip(s, p), s, p)
  {
    var t := TrimStart(s, p);
    var r := TrimEnd(t, p);
    var i := |s| - |t|;
    SliceOfSuffix(s, t, r, i);
    assert 0 <= i <= |s| - |r| && s[i..i + |r|] == r && All(s[..i], p) && All(s[i + |r|..], p);
  }

  lemma SliceOfSuffix(s: string, t: string, r: string, i: nat)
    requires i <= |s| && t == s[i..] && |r| <= |t| && r == t[..|r|]
    ensures s[i..i + |r|] == r && s[i + |r|..] == t[|r|..]
  {
  }

  /** `str.strip()` with no argument. */
  function StripSpace(s: string): string {
    Strip(s, IsSpace)
  }

  lemma {:induction false} TrimStartPast(a: string, t: string, p: char -> bool)
    requires All(a, p)
    requires t == [] || !p(t[0])
    ensures TrimStart(a + t, p) == t
    decreases |a|
  {
    if a != [] {
      assert (a + t)[1..] == a[1..] + t;
      TrimStartPast(a[1..], t, p);
    }
  }

  lemma {:induction false} TrimEndPast(t: string, b: string, p: char -> bool)
    requires All(b, p)
    requires t == [] || !p(t[|t| - 1])
    ensures TrimEnd(t + b, p) == t
    decreases |b|
  {
    if b != [] {
      assert (t + b)[..|t + b| - 1] == t + b[..|b| - 1];
      TrimEndPast(t, b[..|b| - 1], p);
    }
  }

  /** Strip is determined by its contract: whatever the decomposition of s
      into a p-only prefix, a bare middle and a p-only suffix, Strip returns
      that middle. */
  lemma StripUnique(a: string, r: string, b: string, p: char -> bool)
    requires All(a, p) && All(b, p) && Bare(r, p)
    ensures Strip(a + r + b, p) == r
  {
    if r == [] {
      assert a + r + b == a + b;
      assert All(a + b, p);
    } else {
      assert a + r + b == a + (r + b);
      TrimStartPast(a, r + b, p);
      TrimEndPast(r, b, p);
    }
  }

  /** A string with nothing to strip is its own strip. */
  lemma StripBare(s: string, p: char -> bool)
    requires Bare(s, p)
    ensures Strip(s, p) == s
  {
    StripUnique([], s, [], p);
    assert [] + s + [] == s;
  }

  lemma StripIdempotent(s: string, p: char -> bool)
    ensures Strip(Strip(s, p), p) == Strip(s, p)
  {
    StripBare(Strip(s, p), p);
  }

  /** Stripping keeps a property every character of the input has. */
  lemma StripKeepsAll(s: string, p: char -> bool, q: char -> bool)
    requires All(s, q)
    ensures All(Strip(s, p), q)
  {
    var t := TrimStart(s, p);
    AllSuffix(s, |s| - |t|, q);
    AllPrefix(t, |TrimEnd(t, p)|, q);
  }

  lemma AllSuffix(s: string, k: nat, q: char -> bool)
    requires k <= |s| && All(s, q)
    ensures All(s[k..], q)
  {
    forall j | 0 <= j < |s| - k
      ensures q(s[k..][j])
    {
      assert s[k..][j] == s[k + j];
    }
  }

  lemma AllPrefix(s: string, k: nat, q: char -> bool)
    requires k <= |s| && All(s, q)
    ensures All(s[..k], q)
  {
    forall j | 0 <= j < k
      ensures q(s[..k][j])
    {
      assert s[..k][j] == s[j];
    }
  }

  /** The pattern p occurs in s starting at index i. */
  predicate OccursAt(s: string, pat: string, i: int) {
    0 <= i && i + |pat| <= |s| && s[i..i + |pat|] == pat
  }

  /** Python's substring test `pat in s`. */
  function Contains(s: string, pat: string): (b: bool)
    ensures b <==> exists i :: OccursAt(s, pat, i)
    decreases |s|
  {
    if |s| < |pat| then false
    else if s[..|pat|] == pat then assert OccursAt(s, pat, 0); true
    else
      assert !OccursAt(s, pat, 0);
      OccursShift(s, pat);
      Contains(s[1..], pat)
  }

  /** Away from index 0, the occurrences in s are those in its tail. */
  lemma OccursShift(s: string, pat: string)
    requires s != [] && !OccursAt(s, pat, 0)
    ensures (exists i :: OccursAt(s, pat, i)) <==> (exists i :: OccursAt(s[1..], pat, i))
  {
    forall i | OccursAt(s[1..], pat, i)
      ensures OccursAt(s, pat, i + 1)
    {
      assert s[1..][i..i + |pat|] == s[i + 1..i + 1 + |pat|];
    }
    forall i | OccursAt(s, pat, i)
      ensures OccursAt(s[1..], pat, i - 1)
    {
      assert s[1..][i - 1..i - 1 + |pat|] == s[i..i + |pat|];
    }
  }

  /** `s.replace(x, y)` for one-character x and y. */
  function ReplaceChar(s: string, x: char, y: char): (r: string)
    ensures |r| == |s|
    ensures forall i :: 0 <= i < |s| ==> (s[i] == x ==> r[i] == y) && (s[i] != x ==> r[i] == s[i])
    ensures x != y ==> x !in r
  {
    seq(|s|, i requires 0 <= i < |s| => if s[i] == x then y else s[i])
  }

  /** Replacing a character that does not occur changes nothing, so
      replacing twice is replacing once. */
  lemma ReplaceCharFixpoints(s: string, x: char, y: char)
    requires x != y
    ensures ReplaceChar(s, x, y) == s <==> x !in s
    ensures ReplaceChar(ReplaceChar(s, x, y), x, y) == ReplaceChar(s, x, y)
  {
    if x in s {
      var i :| 0 <= i < |s| && s[i] == x;
      assert ReplaceChar(s, x, y)[i] == y;
    }
  }

  /** `sep.join(parts)`. */
  function Join(parts: seq<string>, sep: string): string
    decreases |parts|
  {
    if |parts| == 0 then []
    else if |parts| == 1 then parts[0]
    else parts[0] + sep + Join(parts[1..], sep)
  }
}

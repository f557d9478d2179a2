/** safe_filename_from_title: the output file name derived from the page
    title. */
module FileNames {
  import opened Text
  import opened MaximalRuns

  const Extension: string := ".html"

  predicate IsUnderscore(c: char) {
    c == '_'
  }

  predicate NotWordChar(c: char) {
    !IsWordChar(c)
  }

  predicate IsAlnum(c: char) {
    IsLetter(c) || IsDigit(c)
  }

  /** The letters and digits of s, in order. */
  function Alnums(s: string): string
    decreases |s|
  {
    if s == [] then []
    else (if IsAlnum(s[0]) then [s[0]] else []) + Alnums(s[1..])
  }

  lemma {:induction false} AlnumsAppend(a: string, b: string)
    ensures Alnums(a + b) == Alnums(a) + Alnums(b)
    decreases |a|
  {
    if a == [] {
      assert a + b == b;
    } else {
      var h := if IsAlnum(a[0]) then [a[0]] else [];
      AlnumsUncons(a + b);
      assert (a + b)[0] == a[0] && (a + b)[1..] == a[1..] + b;
      AlnumsAppend(a[1..], b);
      assert h + (Alnums(a[1..]) + Alnums(b)) == (h + Alnums(a[1..])) + Alnums(b);
    }
  }

  lemma AlnumsUncons(s: string)
    requires s != []
    ensures Alnums(s) == (if IsAlnum(s[0]) then [s[0]] else []) + Alnums(s[1..])
  {
  }

  /** A string made of characters of a class without letters or digits
      has none. */
  lemma {:induction false} AlnumsOfNone(s: string, p: char -> bool)
    requires All(s, p)
    requires forall c :: p(c) ==> !IsAlnum(c)
    ensures Alnums(s) == []
    decreases |s|
  {
    if s != [] {
      assert p(s[0]);
      assert All(s[1..], p);
      AlnumsOfNone(s[1..], p);
    }
  }

  /** Cutting runs of characters that are not letters or digits from the
      ends of a string keeps all its letters and digits. */
  lemma AlnumsOfTrim(r: string, s: string, p: char -> bool)
    requires IsTrimOf(r, s, p)
    requires forall c :: p(c) ==> !IsAlnum(c)
    ensures Alnums(r) == Alnums(s)
  {
    var i :| 0 <= i <= |s| - |r| && s[i..i + |r|] == r && All(s[..i], p) && All(s[i + |r|..], p);
    var a, b := s[..i], s[i + |r|..];
    AroundSlice(s, i, r);
    AlnumsOfNone(a, p);
    AlnumsOfNone(b, p);
    AlnumsOfThree(a, r, b);
  }

  lemma AroundSlice(s: string, i: nat, r: string)
    requires i <= |s| - |r| && s[i..i + |r|] == r
    ensures s == s[..i] + r + s[i + |r|..]
  {
  }

  lemma AlnumsOfThree(a: string, r: string, b: string)
    ensures Alnums(a + r + b) == Alnums(a) + Alnums(r) + Alnums(b)
  {
    AlnumsAppend(a + r, b);
    AlnumsAppend(a, r);
  }

  /** `re.sub(r"[^\w]+", "_", s)`: the scan replaces each maximal run of
      non-word characters by one underscore and copies word characters. */
  function SubNonWord(s: string): (r: string)
    ensures All(r, IsWordChar)
    decreases |s|
  {
    if s == [] then []
    else if IsWordChar(s[0]) then [s[0]] + SubNonWord(s[1..])
    else "_" + SubNonWord(s[RunLength(s, IsWordChar, false)..])
  }

  /** The substitution keeps every letter and digit, in order: only runs
      of other characters are replaced. */
  lemma {:induction false} SubNonWordAlnums(s: string)
    ensures Alnums(SubNonWord(s)) == Alnums(s)
    decreases |s|
  {
    if s != [] && IsWordChar(s[0]) {
      SubNonWordAlnums(s[1..]);
      AlnumsWordStep(s);
    } else if s != [] {
      SubNonWordAlnums(s[RunLength(s, IsWordChar, false)..]);
      AlnumsGapStep(s);
    }
  }

  lemma AlnumsWordStep(s: string)
    requires s != [] && IsWordChar(s[0])
    requires Alnums(SubNonWord(s[1..])) == Alnums(s[1..])
    ensures Alnums(SubNonWord(s)) == Alnums(s)
  {
    SubNonWordCons(s);
    assert s == [s[0]] + s[1..];
    AlnumsAppend([s[0]], s[1..]);
    AlnumsAppend([s[0]], SubNonWord(s[1..]));
  }

  lemma AlnumsGapStep(s: string)
    requires s != [] && !IsWordChar(s[0])
    requires Alnums(SubNonWord(s[RunLength(s, IsWordChar, false)..])) == Alnums(s[RunLength(s, IsWordChar, false)..])
    ensures Alnums(SubNonWord(s)) == Alnums(s)
  {
    var n := RunLength(s, IsWordChar, false);
    SubNonWordGap(s);
    AlnumsSkip('_', SubNonWord(s[n..]));
    AlnumsPastGap(s, n);
  }

  lemma AlnumsSkip(c: char, t: string)
    requires !IsAlnum(c)
    ensures Alnums([c] + t) == Alnums(t)
  {
    assert ([c] + t)[1..] == t;
  }

  lemma AlnumsPastGap(s: string, n: nat)
    requires n <= |s| && Uniform(s[..n], IsWordChar, false)
    ensures Alnums(s) == Alnums(s[n..])
  {
    assert s == s[..n] + s[n..];
    AlnumsAppend(s[..n], s[n..]);
    assert All(s[..n], NotWordChar);
    AlnumsOfNone(s[..n], NotWordChar);
  }

  lemma SubNonWordGap(s: string)
    requires s != [] && !IsWordChar(s[0])
    ensures SubNonWord(s) == "_" + SubNonWord(s[RunLength(s, IsWordChar, false)..])
  {
  }

  lemma SubNonWordCons(s: string)
    requires s != [] && IsWordChar(s[0])
    ensures SubNonWord(s) == [s[0]] + SubNonWord(s[1..])
  {
  }

  /** Word characters pass through the substitution unchanged. */
  lemma {:induction false} SubNonWordKeepsWords(w: string, rest: string)
    requires All(w, IsWordChar)
    ensures SubNonWord(w + rest) == w + SubNonWord(rest)
    decreases |w|
  {
    if w == [] {
      assert w + rest == rest;
    } else {
      var s := w + rest;
      assert s[0] == w[0] && s[1..] == w[1..] + rest;
      SubNonWordCons(s);
      SubNonWordKeepsWords(w[1..], rest);
      assert [w[0]] + (w[1..] + SubNonWord(rest)) == w + SubNonWord(rest);
    }
  }

  /** A whole run of non-word characters becomes one underscore. */
  lemma SubNonWordCollapses(n: string, rest: string)
    requires n != [] && Uniform(n, IsWordChar, false)
    requires rest == [] || IsWordChar(rest[0])
    ensures SubNonWord(n + rest) == "_" + SubNonWord(rest)
  {
    var s := n + rest;
    var k := RunLength(s, IsWordChar, false);
    assert s[|n|..] == rest;
    assert forall i :: 0 <= i < |n| ==> s[i] == n[i];
    assert k == |n|;
  }

  /** Stripping whitespace keeps every letter and digit. */
  lemma AlnumsOfStripSpace(s: string)
    ensures Alnums(StripSpace(s)) == Alnums(s)
  {
    StripIsTrim(s, IsSpace);
    AlnumsOfTrim(StripSpace(s), s, IsSpace);
  }

  /** Stripping underscores keeps every letter and digit. */
  lemma AlnumsOfStripUnderscore(s: string)
    ensures Alnums(Strip(s, IsUnderscore)) == Alnums(s)
  {
    StripIsTrim(s, IsUnderscore);
    AlnumsOfTrim(Strip(s, IsUnderscore), s, IsUnderscore);
  }

  /** safe_filename_from_title without the extension. */
  function FileStem(title: string): (stem: string)
    ensures All(stem, IsWordChar)
    ensures Bare(stem, IsUnderscore)
    ensures Alnums(stem) == Alnums(title)
  {
    var u := SubNonWord(StripSpace(title));
    AlnumsOfStripSpace(title);
    SubNonWordAlnums(StripSpace(title));
    AlnumsOfStripUnderscore(u);
    StripKeepsAll(u, IsUnderscore, IsWordChar);
    Strip(u, IsUnderscore)
  }

  /** safe_filename_from_title: a stem of word characters that neither
      starts nor ends with `_`, followed by `.html`. */
  function SafeFilename(title: string): (name: string)
    ensures |name| >= |Extension| && name[|name| - |Extension|..] == Extension
    ensures var stem := name[..|name| - |Extension|];
      All(stem, IsWordChar) && Bare(stem, IsUnderscore) && Alnums(stem) == Alnums(title)
  {
    var stem := FileStem(title);
    assert (stem + Extension)[..|stem|] == stem;
    stem + Extension
  }

  /** The stems that come back unchanged are exactly the strings of word
      characters that neither start nor end with `_`. */
  lemma FileStemFixpoints(t: string)
    ensures FileStem(t) == t <==> (All(t, IsWordChar) && Bare(t, IsUnderscore))
  {
    if All(t, IsWordChar) && Bare(t, IsUnderscore) {
      CleanStemUnchanged(t);
    }
  }

  /** FileStem in terms of its three stages. */
  lemma FileStemOfStages(t: string, u: string, stem: string)
    requires StripSpace(t) == t && SubNonWord(t) == u && Strip(u, IsUnderscore) == stem
    ensures FileStem(t) == stem
  {
  }

  lemma CleanStemUnchanged(t: string)
    requires All(t, IsWordChar) && Bare(t, IsUnderscore)
    ensures FileStem(t) == t
  {
    StripSpaceOfWords(t);
    SubNonWordOfWord(t);
    StripBare(t, IsUnderscore);
    FileStemOfStages(t, t, t);
  }

  lemma StripSpaceOfWords(t: string)
    requires All(t, IsWordChar)
    ensures StripSpace(t) == t
  {
    assert t == [] || (IsWordChar(t[0]) && IsWordChar(t[|t| - 1]));
    StripBare(t, IsSpace);
  }

  lemma SubNonWordOfWord(w: string)
    requires All(w, IsWordChar)
    ensures SubNonWord(w) == w
  {
    SubNonWordKeepsWords(w, []);
    assert w + [] == w;
  }

  /** A word, a gap of non-word characters, then text that starts with a
      word character: the gap becomes one underscore. */
  lemma WordThenGap(w: string, g: string, rest: string)
    requires All(w, IsWordChar) && g != [] && Uniform(g, IsWordChar, false)
    requires rest == [] || IsWordChar(rest[0])
    ensures SubNonWord(w + g + rest) == w + "_" + SubNonWord(rest)
  {
    assert w + g + rest == w + (g + rest);
    SubNonWordKeepsWords(w, g + rest);
    SubNonWordCollapses(g, rest);
  }

  /** A string that starts and ends with a letter or digit has nothing
      to strip, neither whitespace nor underscores. */
  lemma AlnumEnds(s: string)
    requires s != [] && IsAlnum(s[0]) && IsAlnum(s[|s| - 1])
    ensures StripSpace(s) == s && Strip(s, IsUnderscore) == s
  {
    StripBare(s, IsSpace);
    StripBare(s, IsUnderscore);
  }

  lemma SubNonWordOfTwo(w1: string, g: string, w2: string)
    requires All(w1, IsWordChar) && w2 != [] && All(w2, IsWordChar)
    requires g != [] && Uniform(g, IsWordChar, false)
    ensures SubNonWord(w1 + g + w2) == w1 + "_" + w2
  {
    WordThenGap(w1, g, w2);
    SubNonWordOfWord(w2);
  }

  lemma SubNonWordOfThree(w1: string, g1: string, w2: string, g2: string, w3: string)
    requires All(w1, IsWordChar) && w2 != [] && All(w2, IsWordChar) && w3 != [] && All(w3, IsWordChar)
    requires g1 != [] && Uniform(g1, IsWordChar, false) && g2 != [] && Uniform(g2, IsWordChar, false)
    ensures SubNonWord(w1 + g1 + (w2 + g2 + w3)) == w1 + "_" + (w2 + "_" + w3)
  {
    var rest := w2 + g2 + w3;
    assert rest[0] == w2[0];
    WordThenGap(w1, g1, rest);
    SubNonWordOfTwo(w2, g2, w3);
  }

  /** A title of two alphanumeric words with a gap between them. */
  lemma StemOfTwo(w1: string, g: string, w2: string)
    requires w1 != [] && All(w1, IsAlnum) && w2 != [] && All(w2, IsAlnum)
    requires g != [] && Uniform(g, IsWordChar, false)
    ensures FileStem(w1 + g + w2) == w1 + "_" + w2
  {
    var t := w1 + g + w2;
    var u := w1 + "_" + w2;
    assert t[0] == w1[0] && t[|t| - 1] == w2[|w2| - 1];
    assert u[0] == w1[0] && u[|u| - 1] == w2[|w2| - 1];
    AlnumEnds(t);
    AlnumEnds(u);
    SubNonWordOfTwo(w1, g, w2);
    FileStemOfStages(t, u, u);
  }

  /** A title of three alphanumeric words with gaps between them. */
  lemma StemOfThree(w1: string, g1: string, w2: string, g2: string, w3: string)
    requires w1 != [] && All(w1, IsAlnum) && w2 != [] && All(w2, IsAlnum) && w3 != [] && All(w3, IsAlnum)
    requires g1 != [] && Uniform(g1, IsWordChar, false) && g2 != [] && Uniform(g2, IsWordChar, false)
    ensures FileStem(w1 + g1 + (w2 + g2 + w3)) == w1 + "_" + (w2 + "_" + w3)
  {
    var t := w1 + g1 + (w2 + g2 + w3);
    var u := w1 + "_" + (w2 + "_" + w3);
    assert t[0] == w1[0] && t[|t| - 1] == w3[|w3| - 1];
    assert u[0] == w1[0] && u[|u| - 1] == w3[|w3| - 1];
    AlnumEnds(t);
    AlnumEnds(u);
    SubNonWordOfThree(w1, g1, w2, g2, w3);
    FileStemOfStages(t, u, u);
  }

  /** The file name example: "My Playlist!! 2024" is written to
      "My_Playlist_2024.html". The title and its words and gaps are
      parameters pinned down by the requires: passed as literals, they would
      let the verifier unfold the recursive substitution character by
      character. FilenameExampleText states the example on the literal. */
  lemma FilenameExample(title: string, w1: string, g1: string, w2: string, g2: string, w3: string)
    requires w1 == "My" && g1 == " " && w2 == "Playlist" && g2 == "!! " && w3 == "2024"
    requires title == w1 + g1 + (w2 + g2 + w3)
    ensures SafeFilename(title) == "My_Playlist_2024.html"
  {
    ExamplePieces(w1, g1, w2, g2, w3);
    StemOfThree(w1, g1, w2, g2, w3);
  }

  lemma ExamplePieces(w1: string, g1: string, w2: string, g2: string, w3: string)
    requires w1 == "My" && g1 == " " && w2 == "Playlist" && g2 == "!! " && w3 == "2024"
    ensures w1 != [] && All(w1, IsAlnum) && w2 != [] && All(w2, IsAlnum) && w3 != [] && All(w3, IsAlnum)
    ensures g1 != [] && Uniform(g1, IsWordChar, false) && g2 != [] && Uniform(g2, IsWordChar, false)
    ensures w1 + "_" + (w2 + "_" + w3) + Extension == "My_Playlist_2024.html"
  {
  }

  /** The default title gives "YouTube_Playlist.html". The pieces are
      parameters for the same reason as in FilenameExample;
      DefaultFilenameText states it on the literal. */
  lemma DefaultFilename(title: string, w1: string, g: string, w2: string)
    requires w1 == "YouTube" && g == " " && w2 == "Playlist"
    requires title == w1 + g + w2
    ensures SafeFilename(title) == "YouTube_Playlist.html"
  {
    DefaultPieces(w1, g, w2);
    StemOfTwo(w1, g, w2);
  }

  lemma DefaultPieces(w1: string, g: string, w2: string)
    requires w1 == "YouTube" && g == " " && w2 == "Playlist"
    ensures w1 != [] && All(w1, IsAlnum) && w2 != [] && All(w2, IsAlnum)
    ensures g != [] && Uniform(g, IsWordChar, false)
    ensures w1 + "_" + w2 + Extension == "YouTube_Playlist.html"
  {
  }

  /** The file name example, on the literal title. */
  lemma FilenameExampleText()
    ensures SafeFilename("My Playlist!! 2024") == "My_Playlist_2024.html"
  {
    FilenameExample("My Playlist!! 2024", "My", " ", "Playlist", "!! ", "2024");
  }

  /** The default title's file name, on the literal title. */
  lemma DefaultFilenameText()
    ensures SafeFilename("YouTube Playlist") == "YouTube_Playlist.html"
  {
    DefaultFilename("YouTube Playlist", "YouTube", " ", "Playlist");
  }
}

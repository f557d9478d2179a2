/** natural_key and the stable sort of entries by it. */
module NaturalSort {
  import opened Results
  import opened Text
  import opened MaximalRuns
  import opened Entries
  import StableSort

  /** One element of a natural-sort key: a digit run read as an integer,
      or a non-digit run lower-cased. */
  datatype Token = Num(n: nat) | Word(s: string)

  type Key = seq<Token>

  /** `x.isdigit()` on an ASCII string: non-empty and all digits. */
  predicate IsDigits(x: string) {
    x != [] && All(x, IsDigit)
  }

  /** `int(x)` for a string of decimal digits. */
  function Value(x: string): nat
    requires All(x, IsDigit)
    decreases |x|
  {
    if x == [] then 0
    else 10 * Value(x[..|x| - 1]) + (x[|x| - 1] as int - '0' as int)
  }

  function TokenOf(run: string): Token {
    if IsDigits(run) then Num(Value(run)) else Word(Lower(run))
  }

  /** Neighbouring key elements are never of the same kind. */
  predicate Alternating(k: Key) {
    forall i :: 0 <= i < |k| - 1 ==> k[i].Num? != k[i + 1].Num?
  }

  /** natural_key: one element per maximal run of digits or non-digits,
      in order; the first element is a number exactly when the title
      starts with a digit. */
  function NaturalKey(s: string): (k: Key)
    ensures |k| == |Runs(s, IsDigit)|
    ensures k == [] <==> s == []
    ensures k != [] ==> (k[0].Num? <==> IsDigit(s[0]))
    ensures Alternating(k)
  {
    var rs := Runs(s, IsDigit);
    var k := seq(|rs|, i requires 0 <= i < |rs| => TokenOf(rs[i]));
    TokensOfRuns(s, rs, k);
    k
  }

  /** One token per run: the kinds alternate with the runs' classes. */
  lemma TokensOfRuns(s: string, rs: seq<string>, k: Key)
    requires IsRunSplit(rs, s, IsDigit)
    requires |k| == |rs| && forall i :: 0 <= i < |rs| ==> k[i] == TokenOf(rs[i])
    ensures k == [] <==> s == []
    ensures k != [] ==> (k[0].Num? <==> IsDigit(s[0]))
    ensures Alternating(k)
  {
    assert forall i :: 0 <= i < |rs| ==> (k[i].Num? <==> IsDigit(rs[i][0]));
    assert rs != [] ==> rs[0][0] == Concat(rs)[0];
  }

  // ---------------------------------------------------------------------
  // Orders

  /** Python's `<` on lists and strings: the first differing position
      decides, and a proper prefix comes first. */
  predicate LexLess<T(==)>(a: seq<T>, b: seq<T>, less: (T, T) -> bool)
    decreases |a|
  {
    if a == [] then b != []
    else if b == [] then false
    else if a[0] != b[0] then less(a[0], b[0])
    else LexLess(a[1..], b[1..], less)
  }

  lemma {:induction false} LexIrreflexive<T>(a: seq<T>, less: (T, T) -> bool)
    ensures !LexLess(a, a, less)
    decreases |a|
  {
    if a != [] {
      LexIrreflexive(a[1..], less);
    }
  }

  lemma {:induction false} LexTransitive<T(!new)>(a: seq<T>, b: seq<T>, c: seq<T>, less: (T, T) -> bool)
    requires StableSort.IsStrictTotal(less)
    requires LexLess(a, b, less) && LexLess(b, c, less)
    ensures LexLess(a, c, less)
    decreases |a|
  {
    if a != [] && a[0] == b[0] && b[0] == c[0] {
      LexTransitive(a[1..], b[1..], c[1..], less);
    }
  }

  lemma {:induction false} LexTotal<T(!new)>(a: seq<T>, b: seq<T>, less: (T, T) -> bool)
    requires StableSort.IsStrictTotal(less)
    requires a != b
    ensures LexLess(a, b, less) || LexLess(b, a, less)
    decreases |a|
  {
    if a != [] && b != [] && a[0] == b[0] {
      assert a == [a[0]] + a[1..] && b == [b[0]] + b[1..];
      LexTotal(a[1..], b[1..], less);
    }
  }

  /** A shared prefix does not decide the comparison. */
  lemma {:induction false} LexCommonPrefix<T>(p: seq<T>, a: seq<T>, b: seq<T>, less: (T, T) -> bool)
    ensures LexLess(p + a, p + b, less) <==> LexLess(a, b, less)
    decreases |p|
  {
    if p != [] {
      assert (p + a)[0] == p[0] == (p + b)[0];
      assert (p + a)[1..] == p[1..] + a;
      assert (p + b)[1..] == p[1..] + b;
      LexCommonPrefix(p[1..], a, b, less);
    } else {
      assert p + a == a && p + b == b;
    }
  }

  predicate CharLess(x: char, y: char) {
    x < y
  }

  /** Python's `<` on strings. */
  predicate StrLess(a: string, b: string) {
    LexLess(a, b, CharLess)
  }

  /** The comparison of key elements the sort uses: numbers by value,
      words as strings, and, where Python would raise, a number before a
      word. */
  predicate TokenLess(x: Token, y: Token) {
    match (x, y)
    case (Num(m), Num(n)) => m < n
    case (Word(a), Word(b)) => StrLess(a, b)
    case (Num(_), Word(_)) => true
    case (Word(_), Num(_)) => false
  }

  /** The total order on keys the sort uses. */
  predicate KeyLess(a: Key, b: Key) {
    LexLess(a, b, TokenLess)
  }

  lemma CharLessStrictTotal()
    ensures StableSort.IsStrictTotal(CharLess)
  {
  }

  lemma TokenLessStrictTotal()
    ensures StableSort.IsStrictTotal(TokenLess)
  {
    CharLessStrictTotal();
    forall x: Token, y: Token, z: Token | TokenLess(x, y) && TokenLess(y, z)
      ensures TokenLess(x, z)
    {
      if x.Word? && y.Word? && z.Word? {
        LexTransitive(x.s, y.s, z.s, CharLess);
      }
    }
    forall x: Token ensures !TokenLess(x, x) {
      if x.Word? {
        LexIrreflexive(x.s, CharLess);
      }
    }
    forall x: Token, y: Token | x != y
      ensures TokenLess(x, y) || TokenLess(y, x)
    {
      if x.Word? && y.Word? {
        LexTotal(x.s, y.s, CharLess);
      }
    }
  }

  /** The sort's key order is a strict total order: every two titles are
      comparable, which Python's comparison of the same keys is not. */
  lemma KeyLessStrictTotal()
    ensures StableSort.IsStrictTotal(KeyLess)
  {
    TokenLessStrictTotal();
    forall a: Key, b: Key, c: Key | KeyLess(a, b) && KeyLess(b, c)
      ensures KeyLess(a, c)
    {
      LexTransitive(a, b, c, TokenLess);
    }
    forall a: Key ensures !KeyLess(a, a) {
      LexIrreflexive(a, TokenLess);
    }
    forall a: Key, b: Key | a != b
      ensures KeyLess(a, b) || KeyLess(b, a)
    {
      LexTotal(a, b, TokenLess);
    }
  }

  // ---------------------------------------------------------------------
  // Python's comparison of keys, as written

  /** Python's `<` on two key elements; None where it raises TypeError. */
  function PyTokenLess(x: Token, y: Token): Option<bool> {
    match (x, y)
    case (Num(m), Num(n)) => Some(m < n)
    case (Word(a), Word(b)) => Some(StrLess(a, b))
    case _ => None
  }

  /** Python's `<` on two keys: list comparison finds the first position
      where the elements differ (equality between an int and a str is
      False, not an error) and only then compares them. */
  function PyKeyLess(a: Key, b: Key): Option<bool>
    decreases |a|
  {
    if a == [] then Some(b != [])
    else if b == [] then Some(false)
    else if a[0] != b[0] then PyTokenLess(a[0], b[0])
    else PyKeyLess(a[1..], b[1..])
  }

  /** Wherever Python's comparison of keys returns, the sort's order
      returns the same answer. */
  lemma {:induction false} PyKeyLessAgrees(a: Key, b: Key)
    requires PyKeyLess(a, b).Some?
    ensures PyKeyLess(a, b).value == KeyLess(a, b)
    decreases |a|
  {
    if a != [] && b != [] && a[0] == b[0] {
      PyKeyLessAgrees(a[1..], b[1..]);
    }
  }

  lemma {:induction false} AlignedKeysCompare(a: Key, b: Key)
    requires Alternating(a) && Alternating(b)
    requires a == [] || b == [] || a[0].Num? == b[0].Num?
    ensures PyKeyLess(a, b).Some?
    decreases |a|
  {
    if a != [] && b != [] && a[0] == b[0] {
      AlignedKeysCompare(a[1..], b[1..]);
    }
  }

  /** Python's sort key raises TypeError on two titles exactly when both
      are non-empty and one starts with a digit while the other does not:
      the kinds of key elements alternate, so the first position decides
      whether the two keys are aligned everywhere or nowhere. */
  lemma PyKeyLessRaises(s: string, t: string)
    ensures PyKeyLess(NaturalKey(s), NaturalKey(t)) == None
        <==> (s != [] && t != [] && IsDigit(s[0]) != IsDigit(t[0]))
  {
    var a, b := NaturalKey(s), NaturalKey(t);
    if a == [] || b == [] || a[0].Num? == b[0].Num? {
      AlignedKeysCompare(a, b);
    }
  }

  /** The playlist that makes the sort as written raise. */
  lemma MixedTitlesRaise()
    ensures PyKeyLess(NaturalKey("10 things"), NaturalKey("Intro")) == None
  {
    PyKeyLessRaises("10 things", "Intro");
  }

  // ---------------------------------------------------------------------
  // Natural order

  /** Where a title changes between digits and non-digits, its key is
      the key of the part before the change followed by the key of the part
      after it. */
  lemma KeyAppend(a: string, b: string)
    requires a != [] && b != [] && IsDigit(a[|a| - 1]) != IsDigit(b[0])
    ensures NaturalKey(a + b) == NaturalKey(a) + NaturalKey(b)
  {
    RunsAppend(a, b, IsDigit);
    TokensAppend(Runs(a, IsDigit), Runs(b, IsDigit));
  }

  lemma TokensAppend(ra: seq<string>, rb: seq<string>)
    ensures var rs := ra + rb;
      seq(|rs|, i requires 0 <= i < |rs| => TokenOf(rs[i]))
        == seq(|ra|, i requires 0 <= i < |ra| => TokenOf(ra[i])) + seq(|rb|, i requires 0 <= i < |rb| => TokenOf(rb[i]))
  {
    var rs := ra + rb;
    forall i | 0 <= i < |rs|
      ensures TokenOf(rs[i]) == (if i < |ra| then TokenOf(ra[i]) else TokenOf(rb[i - |ra|]))
    {
    }
  }

  lemma DigitsAreOneRun(d: string)
    requires IsDigits(d)
    ensures Runs(d, IsDigit) == [d]
  {
    SingleRun(d, IsDigit);
  }

  /** Appending a number to a title that does not end in a digit appends
      one numeric element to its key. */
  lemma KeyOfNumbered(t: string, d: string)
    requires t == [] || !IsDigit(t[|t| - 1])
    requires IsDigits(d)
    ensures NaturalKey(t + d) == NaturalKey(t) + [Num(Value(d))]
  {
    DigitsAreOneRun(d);
    if t == [] {
      assert t + d == d;
    } else {
      KeyAppend(t, d);
    }
  }

  /** "Lecture 2" before "Lecture 10": titles that differ only in a
      trailing number are ordered by the number's value. */
  lemma NumberedTitlesOrder(t: string, d1: string, d2: string)
    requires t == [] || !IsDigit(t[|t| - 1])
    requires IsDigits(d1) && IsDigits(d2)
    ensures KeyLess(NaturalKey(t + d1), NaturalKey(t + d2)) <==> Value(d1) < Value(d2)
  {
    KeyOfNumbered(t, d1);
    KeyOfNumbered(t, d2);
    LexCommonPrefix(NaturalKey(t), [Num(Value(d1))], [Num(Value(d2))], TokenLess);
  }

  lemma {:induction false} ConcatLower(rs: seq<string>)
    ensures Concat(seq(|rs|, i requires 0 <= i < |rs| => Lower(rs[i]))) == Lower(Concat(rs))
    decreases |rs|
  {
    if rs != [] {
      var ls := seq(|rs|, i requires 0 <= i < |rs| => Lower(rs[i]));
      assert ls[1..] == seq(|rs| - 1, i requires 0 <= i < |rs| - 1 => Lower(rs[1..][i]));
      ConcatLower(rs[1..]);
      assert Lower(rs[0] + Concat(rs[1..])) == Lower(rs[0]) + Lower(Concat(rs[1..]));
    }
  }

  /** Lower-casing maps the digit runs of s to the digit runs of its
      lower-cased form, run by run. */
  lemma RunsOfLower(s: string)
    ensures var rs := Runs(s, IsDigit);
      Runs(Lower(s), IsDigit) == seq(|rs|, i requires 0 <= i < |rs| => Lower(rs[i]))
  {
    var rs := Runs(s, IsDigit);
    var ls := seq(|rs|, i requires 0 <= i < |rs| => Lower(rs[i]));
    ConcatLower(rs);
    forall i | 0 <= i < |ls|
      ensures ls[i] != [] && Uniform(ls[i], IsDigit, IsDigit(ls[i][0]))
      ensures IsDigit(ls[i][0]) == IsDigit(rs[i][0])
    {
    }
    assert IsRunSplit(ls, Lower(s), IsDigit);
    RunSplitUnique(ls, Lower(s), IsDigit);
  }

  lemma TokenOfLower(run: string)
    ensures TokenOf(Lower(run)) == TokenOf(run)
  {
    if IsDigits(run) {
      assert Lower(run) == run;
    } else {
      if run != [] {
        var i :| 0 <= i < |run| && !IsDigit(run[i]);
        assert !IsDigit(Lower(run)[i]);
      }
      assert Lower(Lower(run)) == Lower(run);
    }
  }

  /** Case is ignored: lower-casing a title does not change its key. */
  lemma KeyIgnoresCase(s: string)
    ensures NaturalKey(Lower(s)) == NaturalKey(s)
  {
    var rs := Runs(s, IsDigit);
    RunsOfLower(s);
    forall i | 0 <= i < |rs|
      ensures TokenOf(Lower(rs[i])) == TokenOf(rs[i])
    {
      TokenOfLower(rs[i]);
    }
  }

  // ---------------------------------------------------------------------
  // The sort

  /** The sort key of an entry: natural_key of its title. */
  function TitleKey(e: Entry): Key {
    NaturalKey(e.title)
  }

  predicate SortedByKey(s: seq<Entry>) {
    StableSort.Sorted(s, TitleKey, KeyLess)
  }

  /** `entries.sort(key=lambda e: natural_key(e[0]))`, with the total
      order on keys: a permutation of the entries in key order. */
  function SortEntries(s: seq<Entry>): (r: seq<Entry>)
    ensures multiset(r) == multiset(s)
    ensures SortedByKey(r)
  {
    KeyLessStrictTotal();
    StableSort.Sort(s, TitleKey, KeyLess)
  }

  /** The sort is stable: the entries whose titles share a key come out in
      their input order. */
  lemma SortEntriesStable(s: seq<Entry>, k: Key)
    ensures StableSort.WithKey(SortEntries(s), TitleKey, k) == StableSort.WithKey(s, TitleKey, k)
  {
    KeyLessStrictTotal();
    StableSort.SortStable(s, TitleKey, KeyLess, k);
  }

  /** Every stable sort of the entries by natural key returns what
      SortEntries returns: an arrangement in key order that keeps the
      entries of each key in input order is unique. */
  lemma StableSortUnique(s: seq<Entry>, r: seq<Entry>)
    requires SortedByKey(r)
    requires forall k :: StableSort.WithKey(r, TitleKey, k) == StableSort.WithKey(s, TitleKey, k)
    ensures r == SortEntries(s)
  {
    KeyLessStrictTotal();
    forall k
      ensures StableSort.WithKey(r, TitleKey, k) == StableSort.WithKey(SortEntries(s), TitleKey, k)
    {
      SortEntriesStable(s, k);
    }
    StableSort.SortedStableUnique(r, SortEntries(s), TitleKey, KeyLess);
  }

  /** A title without digits is one key element, its lower-cased form. */
  lemma KeyOfWord(w: string)
    requires w != [] && Uniform(w, IsDigit, false)
    ensures NaturalKey(w) == [Word(Lower(w))]
  {
    SingleRun(w, IsDigit);
  }

  lemma LecturePrefix(t: string)
    requires t == "Lecture " || t == "lecture "
    ensures t != [] && Uniform(t, IsDigit, false) && !IsDigit(t[|t| - 1])
    ensures Lower(t) == "lecture "
  {
  }

  lemma LectureKey(t: string, d: string, n: nat)
    requires t == "Lecture " || t == "lecture "
    requires IsDigits(d) && Value(d) == n
    ensures NaturalKey(t + d) == [Word("lecture "), Num(n)]
  {
    LecturePrefix(t);
    KeyOfWord(t);
    KeyOfNumbered(t, d);
  }

  lemma NumberedAfter(k1: Key, k2: Key, w: Key, m: nat, n: nat)
    requires k1 == w + [Num(m)] && k2 == w + [Num(n)] && m < n
    ensures KeyLess(k1, k2) && !KeyLess(k2, k1)
  {
    LexCommonPrefix(w, [Num(m)], [Num(n)], TokenLess);
    LexCommonPrefix(w, [Num(n)], [Num(m)], TokenLess);
  }

  lemma LectureNumbers()
    ensures IsDigits("10") && Value("10") == 10
    ensures IsDigits("2") && Value("2") == 2
    ensures IsDigits("1") && Value("1") == 1
  {
  }

  /** The order of the natural-sort example, for titles spelled "lecture 1",
      "Lecture 2" and "Lecture 10": given in descending order, they come
      out ascending. The entries are parameters, so the order holds whatever
      their ids; the titles are built from their pieces so that the
      verifier reasons about the key of each piece rather than unfolding
      the key of a literal character by character. */
  lemma LectureOrder(e10: Entry, e2: Entry, e1: Entry)
    requires e10.title == "Lecture " + "10" && e2.title == "Lecture " + "2" && e1.title == "lecture " + "1"
    ensures SortEntries([e10] + ([e2] + [e1])) == [e1] + ([e2] + [e10])
  {
    var w := [Word("lecture ")];
    LectureNumbers();
    LectureKey("Lecture ", "10", 10);
    LectureKey("Lecture ", "2", 2);
    LectureKey("lecture ", "1", 1);
    NumberedAfter(TitleKey(e1), TitleKey(e2), w, 1, 2);
    NumberedAfter(TitleKey(e1), TitleKey(e10), w, 1, 10);
    NumberedAfter(TitleKey(e2), TitleKey(e10), w, 2, 10);
    StableSort.SortDescendingThree(e10, e2, e1, TitleKey, KeyLess);
  }
}

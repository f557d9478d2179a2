/** Splitting a string into maximal runs of characters of one class, the
    tokenisation behind the patterns `\d+|\D+` and `[^\w]+`. A class is
    the boolean value of a predicate p on characters. */
module MaximalRuns {

  /** Every character of s is of class b. */
  predicate Uniform(s: string, p: char -> bool, b: bool) {
    forall i :: 0 <= i < |s| ==> p(s[i]) == b
  }

  function Concat(rs: seq<string>): string
    decreases |rs|
  {
    if rs == [] then [] else rs[0] + Concat(rs[1..])
  }

  /** Length of the longest prefix of s whose characters are of class b. */
  function RunLength(s: string, p: char -> bool, b: bool): (n: nat)
    ensures n <= |s|
    ensures Uniform(s[..n], p, b)
    ensures n < |s| ==> p(s[n]) != b
    decreases |s|
  {
    if s != [] && p(s[0]) == b then
      var m := RunLength(s[1..], p, b);
      assert s[..1 + m] == [s[0]] + s[1..][..m];
      1 + m
    else 0
  }

  /** rs cuts s into non-empty single-class runs whose classes alternate,
      so that every run is maximal. */
  predicate IsRunSplit(rs: seq<string>, s: string, p: char -> bool) {
    && Concat(rs) == s
    && (forall i :: 0 <= i < |rs| ==> rs[i] != [] && Uniform(rs[i], p, p(rs[i][0])))
    && (forall i :: 0 <= i < |rs| - 1 ==> p(rs[i][0]) != p(rs[i + 1][0]))
  }

  /** The maximal runs of s, left to right, as a regular-expression scan
      with an alternation of the class and its complement finds them. */
  function Runs(s: string, p: char -> bool): (rs: seq<string>)
    ensures IsRunSplit(rs, s, p)
    decreases |s|
  {
    if s == [] then []
    else
      var n := RunLength(s, p, p(s[0]));
      var tail := Runs(s[n..], p);
      var rs := [s[..n]] + tail;
      assert rs[1..] == tail;
      assert s == s[..n] + s[n..];
      assert tail != [] ==> tail[0][0] == Concat(tail)[0];
      rs
  }

  lemma {:induction false} ConcatAppend(xs: seq<string>, ys: seq<string>)
    ensures Concat(xs + ys) == Concat(xs) + Concat(ys)
    decreases |xs|
  {
    if xs != [] {
      assert (xs + ys)[0] == xs[0];
      assert (xs + ys)[1..] == xs[1..] + ys;
      ConcatAppend(xs[1..], ys);
      assert Concat(xs + ys) == xs[0] + Concat(xs[1..] + ys);
      assert xs[0] + (Concat(xs[1..]) + Concat(ys)) == (xs[0] + Concat(xs[1..])) + Concat(ys);
    } else {
      assert xs + ys == ys;
    }
  }

  /** A run split is unique: any split meeting IsRunSplit is the one Runs
      computes. */
  lemma {:induction false} RunSplitUnique(rs: seq<string>, s: string, p: char -> bool)
    requires IsRunSplit(rs, s, p)
    ensures rs == Runs(s, p)
    decreases |rs|
  {
    if rs != [] {
      var r0 := rs[0];
      var b := p(r0[0]);
      var rest := Concat(rs[1..]);
      assert s == r0 + rest;
      assert s[0] == r0[0];
      var n := RunLength(s, p, b);
      if |rs| > 1 {
        assert rest[0] == rs[1][0];
        assert s[|r0|] == rest[0];
      }
      assert n == |r0|;
      assert s[..n] == r0;
      assert s[n..] == rest;
      RunSplitUnique(rs[1..], rest, p);
      assert rs == [r0] + rs[1..];
    }
  }

  /** The last run of a non-empty string has the class of its last character. */
  lemma {:induction false} LastRunClass(rs: seq<string>, s: string, p: char -> bool)
    requires IsRunSplit(rs, s, p) && s != []
    ensures rs != [] && p(rs[|rs| - 1][0]) == p(s[|s| - 1])
  {
    var k := |rs| - 1;
    assert rs == rs[..k] + [rs[k]];
    ConcatAppend(rs[..k], [rs[k]]);
    assert Concat([rs[k]]) == rs[k] + Concat([]);
    assert s[|s| - 1] == rs[k][|rs[k]| - 1];
  }

  /** Two run splits that meet at a change of class join into one. */
  lemma RunSplitAppend(ra: seq<string>, a: string, rb: seq<string>, b: string, p: char -> bool)
    requires IsRunSplit(ra, a, p) && IsRunSplit(rb, b, p)
    requires a != [] && b != [] && p(a[|a| - 1]) != p(b[0])
    ensures IsRunSplit(ra + rb, a + b, p)
  {
    var rs := ra + rb;
    ConcatAppend(ra, rb);
    LastRunClass(ra, a, p);
    assert rb[0][0] == Concat(rb)[0];
    forall i | 0 <= i < |rs|
      ensures rs[i] != [] && Uniform(rs[i], p, p(rs[i][0]))
    {
      if i < |ra| {
        assert rs[i] == ra[i];
      } else {
        assert rs[i] == rb[i - |ra|];
      }
    }
    forall i | 0 <= i < |rs| - 1
      ensures p(rs[i][0]) != p(rs[i + 1][0])
    {
      if i == |ra| - 1 {
        assert rs[i] == ra[|ra| - 1] && rs[i + 1] == rb[0];
      } else if i < |ra| - 1 {
        assert rs[i] == ra[i] && rs[i + 1] == ra[i + 1];
      } else {
        assert rs[i] == rb[i - |ra|] && rs[i + 1] == rb[i - |ra| + 1];
      }
    }
  }

  /** Where two strings meet at a change of class, the runs of their
      concatenation are the runs of each. */
  lemma RunsAppend(a: string, b: string, p: char -> bool)
    requires a != [] && b != [] && p(a[|a| - 1]) != p(b[0])
    ensures Runs(a + b, p) == Runs(a, p) + Runs(b, p)
  {
    RunSplitAppend(Runs(a, p), a, Runs(b, p), b, p);
    RunSplitUnique(Runs(a, p) + Runs(b, p), a + b, p);
  }

  /** A non-empty single-class string is one run. */
  lemma SingleRun(s: string, p: char -> bool)
    requires s != [] && Uniform(s, p, p(s[0]))
    ensures Runs(s, p) == [s]
  {
    assert Concat([s]) == s + Concat([]);
    RunSplitUnique([s], s, p);
  }
}

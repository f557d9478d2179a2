/** The shape of the line loop in main: each input is judged on its own by
    a function that either drops it or turns it into an output, and the
    outputs are kept in input order. */
module Filtering {
  import opened Results

  /** The outputs of f over xs, in order, skipping the inputs f drops. */
  function Survivors<X, T>(xs: seq<X>, f: X -> Option<T>): (ys: seq<T>)
    ensures |ys| <= |xs|
    decreases |xs|
  {
    if xs == [] then []
    else
      var front := Survivors(xs[..|xs| - 1], f);
      match f(xs[|xs| - 1])
      case Some(y) => front + [y]
      case None => front
  }

  /** Judging inputs distributes over concatenation. */
  lemma {:induction false} SurvivorsAppend<X, T>(a: seq<X>, b: seq<X>, f: X -> Option<T>)
    ensures Survivors(a + b, f) == Survivors(a, f) + Survivors(b, f)
    decreases |b|
  {
    if b == [] {
      assert a + b == a;
    } else {
      var b' := b[..|b| - 1];
      assert (a + b)[..|a + b| - 1] == a + b';
      assert (a + b)[|a + b| - 1] == b[|b| - 1];
      SurvivorsAppend(a, b', f);
    }
  }

  lemma SurvivorsOfOne<X, T>(x: X, f: X -> Option<T>)
    ensures Survivors([x], f) == match f(x) case Some(y) => [y] case None => []
  {
    assert [x][..0] == [];
  }

  /** A dropped input leaves the outputs of the others as they were. */
  lemma DroppedIrrelevant<X, T>(a: seq<X>, x: X, b: seq<X>, f: X -> Option<T>)
    requires f(x) == None
    ensures Survivors(a + [x] + b, f) == Survivors(a + b, f)
  {
    SurvivorsAppend(a + [x], b, f);
    SurvivorsAppend(a, [x], f);
    SurvivorsAppend(a, b, f);
    SurvivorsOfOne(x, f);
  }

  /** A kept input contributes its output between those of the inputs
      before it and those after it. */
  lemma KeptBetween<X, T>(a: seq<X>, x: X, b: seq<X>, y: T, f: X -> Option<T>)
    requires f(x) == Some(y)
    ensures Survivors(a + [x] + b, f) == Survivors(a, f) + [y] + Survivors(b, f)
  {
    SurvivorsOfOne(x, f);
    SurvivorsAppend(a + [x], b, f);
    SurvivorsAppend(a, [x], f);
  }

  lemma SplitAt<X>(xs: seq<X>, i: nat)
    requires i < |xs|
    ensures xs == xs[..i] + [xs[i]] + xs[i + 1..]
  {
  }

  /** Every output comes from some input. */
  lemma {:induction false} SurvivorsFrom<X, T>(xs: seq<X>, f: X -> Option<T>)
    ensures forall y :: y in Survivors(xs, f) ==> exists i :: 0 <= i < |xs| && f(xs[i]) == Some(y)
    decreases |xs|
  {
    if xs != [] {
      var front := xs[..|xs| - 1];
      SurvivorsFrom(front, f);
      forall y | y in Survivors(xs, f)
        ensures exists i :: 0 <= i < |xs| && f(xs[i]) == Some(y)
      {
        if y in Survivors(front, f) {
          var i :| 0 <= i < |front| && f(front[i]) == Some(y);
          assert xs[i] == front[i];
        } else {
          assert f(xs[|xs| - 1]) == Some(y);
        }
      }
    }
  }

  /** Nothing survives exactly when every input is dropped. */
  lemma {:induction false} NoneSurvive<X, T>(xs: seq<X>, f: X -> Option<T>)
    ensures Survivors(xs, f) == [] <==> forall i :: 0 <= i < |xs| ==> f(xs[i]) == None
    decreases |xs|
  {
    if xs != [] {
      var front := xs[..|xs| - 1];
      NoneSurvive(front, f);
      if f(xs[|xs| - 1]) == None {
        assert Survivors(xs, f) == Survivors(front, f);
        if forall i :: 0 <= i < |front| ==> f(front[i]) == None {
          forall i | 0 <= i < |xs|
            ensures f(xs[i]) == None
          {
            if i < |front| {
              assert xs[i] == front[i];
            }
          }
        } else {
          var i :| 0 <= i < |front| && f(front[i]) != None;
          assert xs[i] == front[i];
        }
      }
    }
  }
}

/** Generic sequence helpers shared by the map analyses and the clause families:
    concatenation of a sequence of sequences (the shape every nested `for` loop that
    pushes into one vector has), and a few facts about it. */
module Seqs {

  /** An optional value. */
  datatype Option<T> = None | Some(value: T)

  /** Concatenates `ss[0] + ss[1] + ...`, the order in which nested loops append. */
  function Flatten<T>(ss: seq<seq<T>>): seq<T>
    decreases |ss|
  {
    if |ss| == 0 then [] else ss[0] + Flatten(ss[1..])
  }

  /** An element of the flattening comes from exactly one of the parts, and every
      element of every part is in the flattening. */
  lemma {:induction false} FlattenMember<T>(ss: seq<seq<T>>, x: T)
    ensures x in Flatten(ss) <==> exists i :: 0 <= i < |ss| && x in ss[i]
    decreases |ss|
  {
    if |ss| > 0 {
      FlattenMember(ss[1..], x);
      if x in Flatten(ss[1..]) {
        var i :| 0 <= i < |ss[1..]| && x in ss[1..][i];
        assert x in ss[i + 1];
      }
      if exists i :: 0 <= i < |ss| && x in ss[i] {
        var i :| 0 <= i < |ss| && x in ss[i];
        if i > 0 {
          assert x in ss[1..][i - 1];
        }
      }
    }
  }

  /** Every element of the flattening satisfies `P` when every element of every part does. */
  lemma FlattenAll<T>(ss: seq<seq<T>>, P: T -> bool)
    requires forall i, j :: 0 <= i < |ss| && 0 <= j < |ss[i]| ==> P(ss[i][j])
    ensures forall x :: x in Flatten(ss) ==> P(x)
  {
    forall x | x in Flatten(ss)
      ensures P(x)
    {
      FlattenMember(ss, x);
      var i :| 0 <= i < |ss| && x in ss[i];
      var j :| 0 <= j < |ss[i]| && ss[i][j] == x;
    }
  }

  /** When every part has length `k`, the flattening has length `|ss| * k`. */
  lemma {:induction false} FlattenUniformLength<T>(ss: seq<seq<T>>, k: nat)
    requires forall i :: 0 <= i < |ss| ==> |ss[i]| == k
    ensures |Flatten(ss)| == |ss| * k
    decreases |ss|
  {
    if |ss| > 0 {
      FlattenUniformLength(ss[1..], k);
    }
  }

  /** Flattening distributes over concatenation. */
  lemma {:induction false} FlattenAppend<T>(a: seq<seq<T>>, b: seq<seq<T>>)
    ensures Flatten(a + b) == Flatten(a) + Flatten(b)
    decreases |a|
  {
    if |a| > 0 {
      assert (a + b)[1..] == a[1..] + b;
      FlattenAppend(a[1..], b);
    } else {
      assert a + b == b;
    }
  }

  /** A non-empty sequence is its front followed by its last element. */
  lemma LastSplit<T>(s: seq<T>)
    requires |s| > 0
    ensures s == s[..|s| - 1] + [s[|s| - 1]]
  {
  }

  /** The front of a sequence agrees with it on the front's indices. */
  lemma FrontAgrees<T>(s: seq<T>, n: int)
    requires 0 <= n <= |s|
    ensures forall i :: 0 <= i < n ==> s[..n][i] == s[i]
  {
  }

  /** `Max(a, b)`, as `std::max` on the line lengths. */
  function Max(a: int, b: int): int
  {
    if a < b then b else a
  }

  /** Loop trip count of `for (i = lo; i < hi; i++)`. */
  function Count(lo: int, hi: int): nat
  {
    if hi <= lo then 0 else hi - lo
  }

  /** `for (t = lo; t < hi; t++)` appending `f(t)` each time. */
  function ForRange<T>(lo: int, hi: int, f: int -> seq<T>): seq<T>
    decreases hi - lo
  {
    if hi <= lo then [] else f(lo) + ForRange(lo + 1, hi, f)
  }

  lemma {:induction false} ForRangeMember<T>(lo: int, hi: int, f: int -> seq<T>, x: T)
    ensures x in ForRange(lo, hi, f) <==> exists t :: lo <= t < hi && x in f(t)
    decreases hi - lo
  {
    if lo < hi {
      ForRangeMember(lo + 1, hi, f, x);
      assert x in ForRange(lo, hi, f) <==> x in f(lo) || x in ForRange(lo + 1, hi, f);
      assert (exists t :: lo <= t < hi && x in f(t)) <==> x in f(lo) || exists t :: lo + 1 <= t < hi && x in f(t) by {
        if exists t :: lo <= t < hi && x in f(t) {
          var t :| lo <= t < hi && x in f(t);
          if t > lo {
            assert lo + 1 <= t < hi && x in f(t);
          }
        }
        if x in f(lo) {
          assert lo <= lo < hi && x in f(lo);
        }
        if exists t :: lo + 1 <= t < hi && x in f(t) {
          var t :| lo + 1 <= t < hi && x in f(t);
          assert lo <= t < hi && x in f(t);
        }
      }
    }
  }

  lemma {:induction false} ForRangeUniform<T>(lo: int, hi: int, f: int -> seq<T>, k: nat)
    requires forall t :: lo <= t < hi ==> |f(t)| == k
    ensures |ForRange(lo, hi, f)| == Count(lo, hi) * k
    decreases hi - lo
  {
    if lo < hi {
      ForRangeUniform(lo + 1, hi, f, k);
    }
  }

  /** `for (auto x : xs)` appending `f(x)` each time. */
  function ForEach<A, T>(xs: seq<A>, f: A -> seq<T>): seq<T>
    decreases |xs|
  {
    if |xs| == 0 then [] else f(xs[0]) + ForEach(xs[1..], f)
  }

  lemma {:induction false} ForEachMember<A, T>(xs: seq<A>, f: A -> seq<T>, x: T)
    ensures x in ForEach(xs, f) <==> exists a :: a in xs && x in f(a)
    decreases |xs|
  {
    if |xs| > 0 {
      ForEachMember(xs[1..], f, x);
      assert forall a :: a in xs <==> a == xs[0] || a in xs[1..];
    }
  }

  lemma {:induction false} ForEachUniform<A, T>(xs: seq<A>, f: A -> seq<T>, k: nat)
    requires forall a :: a in xs ==> |f(a)| == k
    ensures |ForEach(xs, f)| == |xs| * k
    decreases |xs|
  {
    if |xs| > 0 {
      assert forall a :: a in xs[1..] ==> a in xs;
      ForEachUniform(xs[1..], f, k);
      assert |xs| * k == (|xs| - 1) * k + k;
    }
  }

  /** The pairs `(xs[i], xs[j])` with `i < j`, in the order of
      `for (i = 0; i < n; i++) for (j = i + 1; j < n; j++)`. */
  function OrderedPairs<A>(xs: seq<A>): seq<(A, A)>
    decreases |xs|
  {
    if |xs| == 0 then [] else seq(|xs| - 1, j requires 0 <= j < |xs| - 1 => (xs[0], xs[j + 1])) + OrderedPairs(xs[1..])
  }

  lemma {:induction false} OrderedPairsMember<A>(xs: seq<A>, a: A, b: A)
    ensures (a, b) in OrderedPairs(xs) <==> exists i, j :: 0 <= i < j < |xs| && a == xs[i] && b == xs[j]
    decreases |xs|
  {
    if |xs| > 0 {
      var head := seq(|xs| - 1, j requires 0 <= j < |xs| - 1 => (xs[0], xs[j + 1]));
      OrderedPairsMember(xs[1..], a, b);
      if (a, b) in head {
        var j :| 0 <= j < |xs| - 1 && head[j] == (a, b);
        assert a == xs[0] && b == xs[j + 1];
      } else if (a, b) in OrderedPairs(xs[1..]) {
        var i, j :| 0 <= i < j < |xs[1..]| && a == xs[1..][i] && b == xs[1..][j];
        assert a == xs[i + 1] && b == xs[j + 1];
      }
      if exists i, j :: 0 <= i < j < |xs| && a == xs[i] && b == xs[j] {
        var i, j :| 0 <= i < j < |xs| && a == xs[i] && b == xs[j];
        if i == 0 {
          assert head[j - 1] == (a, b);
        } else {
          assert a == xs[1..][i - 1] && b == xs[1..][j - 1];
        }
      }
    }
  }

  lemma {:induction false} OrderedPairsCount<A>(xs: seq<A>)
    ensures 2 * |OrderedPairs(xs)| == |xs| * (|xs| - 1)
    decreases |xs|
  {
    if |xs| > 0 {
      OrderedPairsCount(xs[1..]);
    }
  }

  /** `xs` with each element paired with its index (a `for (i = 0; i < n; i++)` over `xs[i]`). */
  function Indexed<A(!new)>(xs: seq<A>): (r: seq<(int, A)>)
    ensures |r| == |xs|
    ensures forall e: (int, A) :: e in r <==> 0 <= e.0 < |xs| && e.1 == xs[e.0]
  {
    var r := seq(|xs|, i requires 0 <= i < |xs| => (i, xs[i]));
    assert forall e: (int, A) :: 0 <= e.0 < |xs| && e.1 == xs[e.0] ==> r[e.0] == e;
    r
  }

  /** A loop that appends exactly one element per iteration lists them in order. */
  lemma {:induction false} ForEachSingletons<A, T>(xs: seq<A>, f: A -> seq<T>)
    requires forall a :: a in xs ==> |f(a)| == 1
    ensures |ForEach(xs, f)| == |xs|
    ensures forall i :: 0 <= i < |xs| ==> ForEach(xs, f)[i] == f(xs[i])[0]
    decreases |xs|
  {
    if |xs| > 0 {
      assert forall a :: a in xs[1..] ==> a in xs;
      ForEachSingletons(xs[1..], f);
      assert forall i :: 1 <= i < |xs| ==> xs[1..][i - 1] == xs[i];
    }
  }

  /** Regrouping of a doubled triple product, for counting two equal sweeps. */
  lemma DoubleProduct(a: int, b: int, c: int)
    ensures 2 * a * b * c == a * (b * c) + a * (b * c)
  {
    assert 2 * a * b * c == 2 * (a * (b * c));
  }
}

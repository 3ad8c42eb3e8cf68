/** `cartesianProduct` over a vector of ordered sets, and the id-ordered
    `std::set<Lit>` that feeds it. */
module Cartesian {
  import opened Seqs
  import opened Literals

  /** Row `i` holds combination `i` extended by each element of `s`, in order. */
  function Rows<T>(res: seq<seq<T>>, s: seq<T>): (rows: seq<seq<seq<T>>>)
    ensures |rows| == |res|
    ensures forall i :: 0 <= i < |res| ==> |rows[i]| == |s|
  {
    seq(|res|, i requires 0 <= i < |res| => seq(|s|, j requires 0 <= j < |s| => res[i] + [s[j]]))
  }

  lemma RowsEntry<T>(res: seq<seq<T>>, s: seq<T>, i: int, j: int)
    requires 0 <= i < |res| && 0 <= j < |s|
    ensures Rows(res, s)[i][j] == res[i] + [s[j]]
  {
  }

  /** One iteration of the outer loop for a non-empty set `s`: every combination
      so far, in order, extended by every element of `s`, in order. */
  function Extend<T>(res: seq<seq<T>>, s: seq<T>): seq<seq<T>>
  {
    Flatten(Rows(res, s))
  }

  lemma ExtendCount<T>(res: seq<seq<T>>, s: seq<T>)
    ensures |Extend(res, s)| == |res| * |s|
  {
    FlattenUniformLength(Rows(res, s), |s|);
  }

  lemma ExtendSound<T>(res: seq<seq<T>>, s: seq<T>, c: seq<T>)
    requires c in Extend(res, s)
    ensures |c| >= 1 && c[..|c| - 1] in res && c[|c| - 1] in s
  {
    var rows := Rows(res, s);
    FlattenMember(rows, c);
    var i :| 0 <= i < |rows| && c in rows[i];
    var j :| 0 <= j < |s| && rows[i][j] == c;
    RowsEntry(res, s, i, j);
    assert c[..|c| - 1] == res[i];
  }

  lemma ExtendComplete<T>(res: seq<seq<T>>, s: seq<T>, c: seq<T>)
    requires |c| >= 1 && c[..|c| - 1] in res && c[|c| - 1] in s
    ensures c in Extend(res, s)
  {
    var rows := Rows(res, s);
    var i :| 0 <= i < |res| && res[i] == c[..|c| - 1];
    var j :| 0 <= j < |s| && s[j] == c[|c| - 1];
    RowsEntry(res, s, i, j);
    assert rows[i][j] == c;
    FlattenMember(rows, c);
  }

  /** The combinations after one step are the old ones with one element of `s` appended. */
  lemma ExtendMember<T>(res: seq<seq<T>>, s: seq<T>, c: seq<T>)
    ensures c in Extend(res, s) <==> |c| >= 1 && c[..|c| - 1] in res && c[|c| - 1] in s
  {
    if c in Extend(res, s) {
      ExtendSound(res, s, c);
    }
    if |c| >= 1 && c[..|c| - 1] in res && c[|c| - 1] in s {
      ExtendComplete(res, s, c);
    }
  }

  /** `cartesianProduct(sets)`: start from one empty combination and extend it by
      each set in turn, skipping empty sets. */
  function Product<T>(sets: seq<seq<T>>): seq<seq<T>>
    decreases |sets|
  {
    if |sets| == 0 then [[]]
    else
      var n := |sets| - 1;
      var prev := Product(sets[..n]);
      if |sets[n]| == 0 then prev else Extend(prev, sets[n])
  }

  /** The non-empty sets, in order. */
  function NonEmpty<T>(sets: seq<seq<T>>): seq<seq<T>>
    decreases |sets|
  {
    if |sets| == 0 then []
    else
      var n := |sets| - 1;
      NonEmpty(sets[..n]) + (if |sets[n]| == 0 then [] else [sets[n]])
  }

  /** The product of the sizes of the non-empty sets. */
  function SizeProduct<T>(sets: seq<seq<T>>): nat
    decreases |sets|
  {
    if |sets| == 0 then 1
    else
      var n := |sets| - 1;
      SizeProduct(sets[..n]) * (if |sets[n]| == 0 then 1 else |sets[n]|)
  }

  /** The number of combinations is the product of the non-empty sets' sizes. */
  lemma {:induction false} ProductCount<T>(sets: seq<seq<T>>)
    ensures |Product(sets)| == SizeProduct(sets)
    decreases |sets|
  {
    if |sets| > 0 {
      var n := |sets| - 1;
      ProductCount(sets[..n]);
      if |sets[n]| > 0 {
        ExtendCount(Product(sets[..n]), sets[n]);
      }
    }
  }

  /** A combination takes exactly one element from each non-empty set, in order. */
  lemma {:induction false} ProductMember<T>(sets: seq<seq<T>>, c: seq<T>)
    ensures c in Product(sets) <==>
      |c| == |NonEmpty(sets)| && forall i :: 0 <= i < |c| ==> c[i] in NonEmpty(sets)[i]
    decreases |sets|
  {
    if |sets| > 0 {
      var n := |sets| - 1;
      var ne := NonEmpty(sets[..n]);
      if |sets[n]| == 0 {
        ProductMember(sets[..n], c);
        assert NonEmpty(sets) == ne;
      } else {
        assert NonEmpty(sets) == ne + [sets[n]];
        ExtendMember(Product(sets[..n]), sets[n], c);
        if |c| >= 1 {
          var front := c[..|c| - 1];
          ProductMember(sets[..n], front);
          assert forall i :: 0 <= i < |front| ==> front[i] == c[i];
        }
      }
    }
  }

  /** With no non-empty set the result is the single empty combination. */
  lemma {:induction false} ProductAllEmpty<T>(sets: seq<seq<T>>)
    requires forall i :: 0 <= i < |sets| ==> |sets[i]| == 0
    ensures Product(sets) == [[]]
    decreases |sets|
  {
    if |sets| > 0 {
      ProductAllEmpty(sets[..|sets| - 1]);
    }
  }

  /** Some element of `c` satisfies `A`. */
  predicate SomeHolds<T>(c: seq<T>, A: T -> bool)
  {
    exists j :: 0 <= j < |c| && A(c[j])
  }

  /** Every element of `s` satisfies `A`. */
  predicate AllHold<T>(s: seq<T>, A: T -> bool)
  {
    forall j :: 0 <= j < |s| ==> A(s[j])
  }

  /** `b` to the power `e`. */
  function Pow(b: nat, e: nat): nat
  {
    if e == 0 then 1 else b * Pow(b, e - 1)
  }

  /** With every set of size `k`, there are `k^|sets|` combinations. */
  lemma {:induction false} SizeProductUniform<T>(sets: seq<seq<T>>, k: nat)
    requires k > 0 && forall i :: 0 <= i < |sets| ==> |sets[i]| == k
    ensures SizeProduct(sets) == Pow(k, |sets|)
    decreases |sets|
  {
    if |sets| > 0 {
      var n := |sets| - 1;
      assert forall i :: 0 <= i < n ==> sets[..n][i] == sets[i];
      SizeProductUniform(sets[..n], k);
    }
  }

  /** Without empty sets, `NonEmpty` keeps every set. */
  lemma {:induction false} NonEmptyAll<T>(sets: seq<seq<T>>)
    requires forall i :: 0 <= i < |sets| ==> |sets[i]| > 0
    ensures NonEmpty(sets) == sets
    decreases |sets|
  {
    if |sets| > 0 {
      var n := |sets| - 1;
      FrontAgrees(sets, n);
      NonEmptyAll(sets[..n]);
      LastSplit(sets);
    }
  }

  /** When some set holds entirely, every combination contains a true element. */
  lemma {:induction false} ProductHitsTrueSet<T>(sets: seq<seq<T>>, A: T -> bool, i: int, c: seq<T>)
    requires 0 <= i < |sets| && |sets[i]| > 0 && AllHold(sets[i], A)
    requires c in Product(sets)
    ensures SomeHolds(c, A)
    decreases |sets|
  {
    var n := |sets| - 1;
    var prev := Product(sets[..n]);
    if |sets[n]| == 0 {
      assert sets[..n][i] == sets[i];
      ProductHitsTrueSet(sets[..n], A, i, c);
    } else {
      ExtendMember(prev, sets[n], c);
      var front := c[..|c| - 1];
      if i < n {
        assert sets[..n][i] == sets[i];
        ProductHitsTrueSet(sets[..n], A, i, front);
        var j :| 0 <= j < |front| && A(front[j]);
        assert c[j] == front[j];
      } else {
        var k :| 0 <= k < |sets[n]| && sets[n][k] == c[|c| - 1];
      }
    }
  }

  /** When every set has a false element, some combination is all false. */
  lemma {:induction false} ProductMissesAll<T>(sets: seq<seq<T>>, A: T -> bool)
    requires forall i :: 0 <= i < |sets| ==> !AllHold(sets[i], A)
    ensures exists c :: c in Product(sets) && !SomeHolds(c, A)
    decreases |sets|
  {
    if |sets| == 0 {
      assert [] in Product(sets) && !SomeHolds([], A);
    } else {
      var n := |sets| - 1;
      var prev := Product(sets[..n]);
      forall i | 0 <= i < n
        ensures !AllHold(sets[..n][i], A)
      {
        assert sets[..n][i] == sets[i];
      }
      ProductMissesAll(sets[..n], A);
      var front :| front in prev && !SomeHolds(front, A);
      var k :| 0 <= k < |sets[n]| && !A(sets[n][k]);
      var c := front + [sets[n][k]];
      assert c[..|c| - 1] == front && c[|c| - 1] in sets[n];
      ExtendMember(prev, sets[n], c);
      assert c in Product(sets);
      assert !SomeHolds(c, A) by {
        forall j | 0 <= j < |c|
          ensures !A(c[j])
        {
          if j < |front| {
            assert c[j] == front[j];
          }
        }
      }
    }
  }

  /** Read as clauses, the product is the conjunctive normal form of "some set holds
      entirely" (distribution of `or` over `and`): under any assignment `A`, every
      combination has a true element exactly when some set is all true. */
  lemma ProductDistributes<T>(sets: seq<seq<T>>, A: T -> bool)
    requires forall i :: 0 <= i < |sets| ==> |sets[i]| > 0
    ensures (forall c :: c in Product(sets) ==> SomeHolds(c, A)) <==>
            (exists i :: 0 <= i < |sets| && AllHold(sets[i], A))
  {
    if exists i :: 0 <= i < |sets| && AllHold(sets[i], A) {
      var i :| 0 <= i < |sets| && AllHold(sets[i], A);
      forall c | c in Product(sets)
        ensures SomeHolds(c, A)
      {
        ProductHitsTrueSet(sets, A, i, c);
      }
    } else {
      ProductMissesAll(sets, A);
    }
  }

  /** Ids strictly increasing: the iteration order of a `std::set<Lit>`. */
  predicate IncreasingIds(s: seq<Lit>)
  {
    forall i, j :: 0 <= i < j < |s| ==> s[i].x < s[j].x
  }

  /** The ids present in a sequence of literals. */
  function Ids(s: seq<Lit>): set<int>
    decreases |s|
  {
    if |s| == 0 then {} else {s[0].x} + Ids(s[1..])
  }

  lemma {:induction false} IdsMember(s: seq<Lit>, y: int)
    ensures y in Ids(s) <==> exists e :: e in s && e.x == y
    decreases |s|
  {
    if |s| > 0 {
      IdsMember(s[1..], y);
      assert s == [s[0]] + s[1..];
    }
  }

  lemma {:induction false} IdsAppend(a: seq<Lit>, b: seq<Lit>)
    ensures Ids(a + b) == Ids(a) + Ids(b)
    decreases |a|
  {
    if |a| > 0 {
      assert (a + b)[1..] == a[1..] + b;
      IdsAppend(a[1..], b);
    } else {
      assert a + b == b;
    }
  }

  /** `std::set<Lit>::insert`: keeps the id order; an element with the same id
      (equal under `operator==`) already present wins. */
  function InsertById(s: seq<Lit>, l: Lit): (r: seq<Lit>)
    requires IncreasingIds(s)
    ensures IncreasingIds(r)
    ensures Ids(r) == Ids(s) + {l.x}
    ensures forall e :: e in r ==> e in s || e == l
    ensures l.x in Ids(s) ==> r == s
    decreases |s|
  {
    if |s| == 0 then [l]
    else if l.x < s[0].x then
      BelowFirst(s, l.x);
      assert ([l] + s)[1..] == s;
      [l] + s
    else if l.x == s[0].x then s
    else
      var rest := InsertById(s[1..], l);
      InsertBehind(s, l, rest);
      [s[0]] + rest
  }

  /** The recursive case of `InsertById`: `l` goes behind the first element. */
  lemma InsertBehind(s: seq<Lit>, l: Lit, rest: seq<Lit>)
    requires IncreasingIds(s) && |s| > 0 && s[0].x < l.x
    requires IncreasingIds(rest) && Ids(rest) == Ids(s[1..]) + {l.x}
    requires forall e :: e in rest ==> e in s[1..] || e == l
    requires l.x in Ids(s[1..]) ==> rest == s[1..]
    ensures IncreasingIds([s[0]] + rest)
    ensures Ids([s[0]] + rest) == Ids(s) + {l.x}
    ensures forall e :: e in [s[0]] + rest ==> e in s || e == l
    ensures l.x in Ids(s) ==> [s[0]] + rest == s
  {
    var r := [s[0]] + rest;
    assert r[1..] == rest;
    forall j | 0 < j < |r|
      ensures s[0].x < r[j].x
    {
      assert r[j] in rest;
    }
    assert s == [s[0]] + s[1..];
  }

  lemma BelowFirst(s: seq<Lit>, y: int)
    requires IncreasingIds(s) && |s| > 0 && y < s[0].x
    ensures y !in Ids(s)
  {
    IdsMember(s, y);
  }

  /** A `std::set<Lit>` built from an initializer list: the listed literals in
      id order, the first one listed for each id. */
  function LitSet(ls: seq<Lit>): (r: seq<Lit>)
    ensures IncreasingIds(r)
    ensures Ids(r) == Ids(ls)
    ensures forall e :: e in r ==> e in ls
    decreases |ls|
  {
    if |ls| == 0 then []
    else
      var n := |ls| - 1;
      var front := LitSet(ls[..n]);
      assert ls == ls[..n] + [ls[n]];
      IdsAppend(ls[..n], [ls[n]]);
      InsertById(front, ls[n])
  }

  /** Strictly increasing ids are distinct, so there are as many ids as elements. */
  lemma {:induction false} IncreasingIdsCount(s: seq<Lit>)
    requires IncreasingIds(s)
    ensures |Ids(s)| == |s|
    decreases |s|
  {
    if |s| > 0 {
      IncreasingIdsCount(s[1..]);
      IdsMember(s[1..], s[0].x);
    }
  }

  /** An id that no element carries is not among the ids. */
  lemma {:induction false} IdsAbsent(s: seq<Lit>, y: int)
    requires forall i :: 0 <= i < |s| ==> s[i].x != y
    ensures y !in Ids(s)
    decreases |s|
  {
    if |s| > 0 {
      IdsAbsent(s[1..], y);
    }
  }

  /** Inserting a literal with a new id adds exactly that literal. */
  lemma {:induction false} InsertFresh(s: seq<Lit>, l: Lit)
    requires IncreasingIds(s) && l.x !in Ids(s)
    ensures |InsertById(s, l)| == |s| + 1
    ensures l in InsertById(s, l)
    ensures forall e :: e in s ==> e in InsertById(s, l)
    decreases |s|
  {
    if |s| > 0 && l.x > s[0].x {
      InsertFresh(s[1..], l);
      assert s == [s[0]] + s[1..];
    }
  }

  /** Literals with pairwise distinct ids all land in their set, one element each. */
  lemma {:induction false} LitSetOfDistinct(ls: seq<Lit>)
    requires forall i, j :: 0 <= i < j < |ls| ==> ls[i].x != ls[j].x
    ensures |LitSet(ls)| == |ls|
    ensures forall e :: e in ls ==> e in LitSet(ls)
    decreases |ls|
  {
    if |ls| > 0 {
      var n := |ls| - 1;
      var front := LitSet(ls[..n]);
      FrontAgrees(ls, n);
      LitSetOfDistinct(ls[..n]);
      IdsAbsent(ls[..n], ls[n].x);
      InsertFresh(front, ls[n]);
      LastSplit(ls);
      assert forall e :: e in ls ==> e in ls[..n] || e == ls[n];
    }
  }
}

/** Cardinalities of finite sets built from sequences, images and products;
    used to count the keys of the value table. */
module Counting {

  /** The distinct elements of a sequence. */
  ghost function Elements<X>(s: seq<X>): (e: set<X>)
    ensures forall x | x in s :: x in e
    ensures forall x | x in e :: x in s
  {
    set x | x in s
  }

  ghost predicate Distinct<X>(s: seq<X>) {
    forall i, j | 0 <= i < j < |s| :: s[i] != s[j]
  }

  /** The image of a set under a function. */
  ghost function Image<X, Y>(s: set<X>, f: X -> Y): (r: set<Y>)
    ensures forall x | x in s :: f(x) in r
    ensures forall y | y in r :: exists x :: x in s && y == f(x)
  {
    set x | x in s :: f(x)
  }

  ghost predicate InjectiveOn<X, Y>(s: set<X>, f: X -> Y) {
    forall x, y | x in s && y in s && f(x) == f(y) :: x == y
  }

  /** The cartesian product of two sets. */
  ghost function Product<X, Y>(s: set<X>, t: set<Y>): (p: set<(X, Y)>)
    ensures forall x, y {:trigger (x, y) in p} | x in s && y in t :: (x, y) in p
    ensures forall q | q in p :: q.0 in s && q.1 in t
  {
    set x, y | x in s && y in t :: (x, y)
  }

  /** A pair is in the product when each of its halves is in its set. */
  lemma InProduct<X, Y>(s: set<X>, t: set<Y>, x: X, y: Y)
    ensures (x, y) in Product(s, t) <==> x in s && y in t
  {
  }

  /** A sequence without repetitions has as many elements as it is long. */
  lemma {:induction false} DistinctElementsSize<X>(s: seq<X>)
    requires Distinct(s)
    ensures |Elements(s)| == |s|
  {
    if s != [] {
      var last := |s| - 1;
      var init := s[..last];
      assert Distinct(init);
      DistinctElementsSize(init);
      assert s == init + [s[last]];
      assert Elements(s) == Elements(init) + {s[last]};
      assert s[last] !in Elements(init);
    }
  }

  /** An injective function does not merge elements. */
  lemma {:induction false} ImageSize<X, Y>(s: set<X>, f: X -> Y)
    requires InjectiveOn(s, f)
    ensures |Image(s, f)| == |s|
  {
    if s != {} {
      var x :| x in s;
      var rest := s - {x};
      ImageSize(rest, f);
      assert Image(s, f) == Image(rest, f) + {f(x)};
      assert f(x) !in Image(rest, f);
    }
  }

  /** The pairs whose first half is `x`. */
  ghost function Row<X, Y>(x: X, t: set<Y>): set<(X, Y)> {
    set y | y in t :: (x, y)
  }

  lemma RowSize<X, Y>(x: X, t: set<Y>)
    ensures |Row(x, t)| == |t|
  {
    var pair := (y: Y) => (x, y);
    ImageSize(t, pair);
    assert Row(x, t) == Image(t, pair);
  }

  /** Taking one element out of the first set takes its row out of the
      product. */
  lemma ProductSplit<X, Y>(s: set<X>, t: set<Y>, x: X)
    requires x in s
    ensures Product(s, t) == Product(s - {x}, t) + Row(x, t)
    ensures Product(s - {x}, t) !! Row(x, t)
  {
    var rest := s - {x};
    forall q | q in Product(s, t) ensures q in Product(rest, t) + Row(x, t) {
      if q.0 == x {
        assert q == (x, q.1);
      } else {
        InProduct(rest, t, q.0, q.1);
      }
    }
    forall q | q in Product(rest, t) + Row(x, t) ensures q in Product(s, t) {
      if q in Product(rest, t) {
        InProduct(s, t, q.0, q.1);
      } else {
        InProduct(s, t, x, q.1);
      }
    }
  }

  lemma MulSucc(a: int, b: int)
    ensures (a + 1) * b == a * b + b
  {
  }

  lemma {:induction false} ProductSize<X, Y>(s: set<X>, t: set<Y>)
    ensures |Product(s, t)| == |s| * |t|
  {
    if s != {} {
      var x :| x in s;
      var rest := s - {x};
      ProductSize(rest, t);
      ProductSplit(s, t, x);
      RowSize(x, t);
      assert |Product(s, t)| == |Product(rest, t)| + |t|;
      assert |s| == |rest| + 1;
      MulSucc(|rest|, |t|);
    }
  }
}

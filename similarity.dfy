/** cosine_similarity of the indexer: the cosine of the angle between two
    sparse term-weight vectors, with 0 when either vector has no weight. The
    square root is a parameter; its only property used is that it gives the
    non-negative root. */
module Similarity {
  import opened MapSums

  /** sqrt gives the non-negative square root of every non-negative real. */
  ghost predicate IsSqrt(sqrt: real -> real) {
    forall x {:trigger sqrt(x)} :: 0.0 <= x ==> 0.0 <= sqrt(x) && sqrt(x) * sqrt(x) == x
  }

  /** Multiplication of weights, kept as a function so that equal operands
      give syntactically equal products in the proofs. */
  function Mul(x: real, y: real): real {
    x * y
  }

  /** The squares of the weights of v. */
  function Squares(v: map<string, real>): (r: map<string, real>)
    ensures r.Keys == v.Keys
  {
    map k | k in v :: Mul(v[k], v[k])
  }

  /** The products of the weights of a with the weights of b; a term absent
      from b weighs 0 there. */
  function Products(a: map<string, real>, b: map<string, real>): (r: map<string, real>)
    ensures r.Keys == a.Keys
  {
    map k | k in a :: Mul(a[k], Get(b, k))
  }

  lemma GetSquares(v: map<string, real>, k: string)
    ensures Get(Squares(v), k) == Mul(Get(v, k), Get(v, k))
  {
  }

  lemma GetProducts(a: map<string, real>, b: map<string, real>, k: string)
    ensures Get(Products(a, b), k) == Mul(Get(a, k), Get(b, k))
  {
  }

  lemma SquaresNonNegative(v: map<string, real>)
    ensures forall k :: k in Squares(v) ==> Squares(v)[k] >= 0.0
  {
    forall k | k in Squares(v)
      ensures Squares(v)[k] >= 0.0
    {
      SquareNonNegative(v[k]);
    }
  }

  /** The squared norm of a vector: the sum of the squares of its weights. */
  ghost function SumSquares(v: map<string, real>): (r: real)
    ensures r >= 0.0
  {
    SquaresNonNegative(v);
    ValuesOnNonNegative(Squares(v), v.Keys);
    ValuesOn(Squares(v), v.Keys)
  }

  /** The dot product: the sum over a's terms of a[t] * b[t]. */
  ghost function Dot(a: map<string, real>, b: map<string, real>): real {
    ValuesOn(Products(a, b), a.Keys)
  }

  /** The cosine similarity of a and b. */
  ghost function Cosine(a: map<string, real>, b: map<string, real>, sqrt: real -> real): real
    requires IsSqrt(sqrt)
  {
    var n1 := SumSquares(a);
    var n2 := SumSquares(b);
    if n1 == 0.0 || n2 == 0.0 then 0.0
    else
      SqrtPositive(sqrt, n1);
      SqrtPositive(sqrt, n2);
      ProductPositive(sqrt(n1), sqrt(n2));
      Dot(a, b) / Mul(sqrt(n1), sqrt(n2))
  }

  /** The first loop of cosine_similarity: over the entries of vec1, the sum
      of their squares and of their products with the weights in vec2. */
  method NormAndDot(vec1: map<string, real>, vec2: map<string, real>)
    returns (norm1: real, dotProduct: real)
    ensures norm1 == SumSquares(vec1)
    ensures dotProduct == Dot(vec1, vec2)
  {
    norm1, dotProduct := 0.0, 0.0;
    var todo := vec1.Keys;
    while todo != {}
      invariant todo <= vec1.Keys
      invariant norm1 == ValuesOn(Squares(vec1), vec1.Keys - todo)
      invariant dotProduct == ValuesOn(Products(vec1, vec2), vec1.Keys - todo)
      decreases |todo|
    {
      var key :| key in todo;
      var val := vec1[key];
      norm1 := norm1 + Mul(val, val);
      if key in vec2 {
        dotProduct := dotProduct + Mul(val, vec2[key]);
      }
      AddEntry(vec1, vec2, vec1.Keys - todo, key);
      Visit(vec1.Keys, todo, key);
      todo := todo - {key};
    }
    assert vec1.Keys - todo == vec1.Keys;
  }

  /** Visiting one more entry of vec1 adds its square and its product. */
  lemma AddEntry(vec1: map<string, real>, vec2: map<string, real>, done: set<string>, key: string)
    requires key in vec1 && key !in done
    ensures ValuesOn(Squares(vec1), done + {key}) == ValuesOn(Squares(vec1), done) + Mul(vec1[key], vec1[key])
    ensures ValuesOn(Products(vec1, vec2), done + {key})
         == ValuesOn(Products(vec1, vec2), done) + (if key in vec2 then Mul(vec1[key], vec2[key]) else 0.0)
  {
    ValuesOnRemove(Squares(vec1), done + {key}, key);
    ValuesOnRemove(Products(vec1, vec2), done + {key}, key);
    assert (done + {key}) - {key} == done;
  }

  /** Taking key out of the unvisited keys adds it to the visited ones. */
  lemma Visit(keys: set<string>, todo: set<string>, key: string)
    requires key in todo && todo <= keys
    ensures keys - (todo - {key}) == (keys - todo) + {key}
    ensures key !in keys - todo
  {
  }

  /** The second loop of cosine_similarity: the sum of the squares of vec2. */
  method Norm(vec2: map<string, real>) returns (norm2: real)
    ensures norm2 == SumSquares(vec2)
  {
    norm2 := 0.0;
    var todo := vec2.Keys;
    while todo != {}
      invariant todo <= vec2.Keys
      invariant norm2 == ValuesOn(Squares(vec2), vec2.Keys - todo)
      decreases |todo|
    {
      var key :| key in todo;
      var val := vec2[key];
      norm2 := norm2 + Mul(val, val);
      AddEntry(vec2, vec2, vec2.Keys - todo, key);
      Visit(vec2.Keys, todo, key);
      todo := todo - {key};
    }
    assert vec2.Keys - todo == vec2.Keys;
  }

  /** cosine_similarity: 0 when either norm is 0, otherwise the dot product
      over the product of the norms. */
  method CosineSimilarity(vec1: map<string, real>, vec2: map<string, real>, sqrt: real -> real)
    returns (similarity: real)
    requires IsSqrt(sqrt)
    ensures similarity == Cosine(vec1, vec2, sqrt)
  {
    var norm1, dotProduct := NormAndDot(vec1, vec2);
    var norm2 := Norm(vec2);
    if norm1 == 0.0 || norm2 == 0.0 {
      return 0.0;
    }
    SqrtPositive(sqrt, norm1);
    SqrtPositive(sqrt, norm2);
    ProductPositive(sqrt(norm1), sqrt(norm2));
    similarity := dotProduct / Mul(sqrt(norm1), sqrt(norm2));
  }

  /** A vector whose weights are all 0 (in particular the empty vector) is
      similar to nothing. */
  lemma ZeroVectorSimilarity(a: map<string, real>, b: map<string, real>, sqrt: real -> real)
    requires IsSqrt(sqrt)
    requires forall k :: k in a ==> a[k] == 0.0
    ensures Cosine(a, b, sqrt) == 0.0 && Cosine(b, a, sqrt) == 0.0
  {
    ValuesOnZero(Squares(a), a.Keys);
  }

  /** Every vector with a non-zero weight has similarity 1 with itself. */
  lemma SelfSimilarity(a: map<string, real>, sqrt: real -> real)
    requires IsSqrt(sqrt)
    requires SumSquares(a) != 0.0
    ensures Cosine(a, a, sqrt) == 1.0
  {
    var n := SumSquares(a);
    assert forall k :: k in a ==> Products(a, a)[k] == Squares(a)[k];
    assert Products(a, a) == Squares(a);
    assert Dot(a, a) == n;
    SqrtPositive(sqrt, n);
    assert sqrt(n) * sqrt(n) == n;
    DivideSelf(n);
  }

  /** Swapping the vectors does not change their similarity. */
  lemma SimilaritySymmetric(a: map<string, real>, b: map<string, real>, sqrt: real -> real)
    requires IsSqrt(sqrt)
    ensures Cosine(a, b, sqrt) == Cosine(b, a, sqrt)
  {
    DotSymmetric(a, b);
    var n1, n2 := SumSquares(a), SumSquares(b);
    if n1 != 0.0 && n2 != 0.0 {
      assert sqrt(n1) * sqrt(n2) == sqrt(n2) * sqrt(n1);
    }
  }

  /** The dot product does not depend on the order of its operands. */
  lemma DotSymmetric(a: map<string, real>, b: map<string, real>)
    ensures Dot(a, b) == Dot(b, a)
  {
    DotOver(a, b, a.Keys, a.Keys * b.Keys);
    DotOver(b, a, b.Keys, a.Keys * b.Keys);
    forall k | k in a.Keys * b.Keys
      ensures Get(Products(a, b), k) == Get(Products(b, a), k)
    {
      GetProducts(a, b, k);
      GetProducts(b, a, k);
    }
    ValuesOnAgree(Products(a, b), Products(b, a), a.Keys * b.Keys);
  }

  /** Only the common terms of a and b contribute to their dot product. */
  lemma {:induction false} DotOver(a: map<string, real>, b: map<string, real>, ks: set<string>, common: set<string>)
    requires common == ks * b.Keys
    ensures ValuesOn(Products(a, b), ks) == ValuesOn(Products(a, b), common)
    decreases |ks|
  {
    if ks != {} {
      var k := PickFrom(ks);
      ValuesOnRemove(Products(a, b), ks, k);
      GetProducts(a, b, k);
      DotOver(a, b, ks - {k}, common - {k});
      if k in b {
        ValuesOnRemove(Products(a, b), common, k);
      } else {
        assert common - {k} == common;
      }
    } else {
      assert common == {};
    }
  }

  /** Maps that agree on every key of ks have the same sum over ks. */
  lemma {:induction false} ValuesOnAgree(m1: map<string, real>, m2: map<string, real>, ks: set<string>)
    requires forall k :: k in ks ==> Get(m1, k) == Get(m2, k)
    ensures ValuesOn(m1, ks) == ValuesOn(m2, ks)
    decreases |ks|
  {
    if ks != {} {
      ValuesOnAgree(m1, m2, ks - {PickFrom(ks)});
    }
  }

  lemma ProductsNonNegative(a: map<string, real>, b: map<string, real>)
    requires forall k :: k in a ==> a[k] >= 0.0
    requires forall k :: k in b ==> b[k] >= 0.0
    ensures forall k :: k in Products(a, b) ==> Products(a, b)[k] >= 0.0
  {
    forall k | k in Products(a, b)
      ensures Products(a, b)[k] >= 0.0
    {
      MulNonNegative(a[k], Get(b, k));
    }
  }

  /** d * d <= x * y, the shape of the Cauchy-Schwarz inequality. */
  predicate SquareBounded(d: real, x: real, y: real) {
    d * d <= x * y
  }

  /** Cauchy-Schwarz over a common key set. */
  lemma {:induction false} CauchySchwarzOn(a: map<string, real>, b: map<string, real>, ks: set<string>)
    ensures SquareBounded(ValuesOn(Products(a, b), ks), ValuesOn(Squares(a), ks), ValuesOn(Squares(b), ks))
    decreases |ks|
  {
    if ks != {} {
      var k := PickFrom(ks);
      CauchySchwarzOn(a, b, ks - {k});
      CauchySchwarzAdd(a, b, ks, k);
    } else {
      assert ValuesOn(Products(a, b), ks) == 0.0;
      assert ValuesOn(Squares(a), ks) == 0.0 && ValuesOn(Squares(b), ks) == 0.0;
    }
  }

  /** The inequality over ks - {k} extends to ks. */
  lemma CauchySchwarzAdd(a: map<string, real>, b: map<string, real>, ks: set<string>, k: string)
    requires k in ks
    requires SquareBounded(ValuesOn(Products(a, b), ks - {k}), ValuesOn(Squares(a), ks - {k}), ValuesOn(Squares(b), ks - {k}))
    ensures SquareBounded(ValuesOn(Products(a, b), ks), ValuesOn(Squares(a), ks), ValuesOn(Squares(b), ks))
  {
    var rest := ks - {k};
    ValuesOnRemove(Products(a, b), ks, k);
    ValuesOnRemove(Squares(a), ks, k);
    ValuesOnRemove(Squares(b), ks, k);
    GetProducts(a, b, k);
    GetSquares(a, k);
    GetSquares(b, k);
    SquaresNonNegative(a);
    SquaresNonNegative(b);
    ValuesOnNonNegative(Squares(a), rest);
    ValuesOnNonNegative(Squares(b), rest);
    CauchySchwarzStep(ValuesOn(Products(a, b), rest), ValuesOn(Squares(a), rest), ValuesOn(Squares(b), rest),
                      Get(a, k), Get(b, k),
                      ValuesOn(Products(a, b), ks), ValuesOn(Squares(a), ks), ValuesOn(Squares(b), ks));
  }

  /** One step of the Cauchy-Schwarz induction: adding a coordinate (x, y)
      keeps the squared dot product below the product of the squared norms. */
  lemma CauchySchwarzStep(d: real, xs: real, ys: real, x: real, y: real, dk: real, xk: real, yk: real)
    requires xs >= 0.0 && ys >= 0.0 && SquareBounded(d, xs, ys)
    requires dk == Mul(x, y) + d && xk == Mul(x, x) + xs && yk == Mul(y, y) + ys
    ensures SquareBounded(dk, xk, yk)
  {
    var w := x * y;
    var p := xs * (y * y);
    var q := ys * (x * x);
    var u := 2.0 * d * w;
    MulNonNegative(xs, y * y);
    MulNonNegative(ys, x * x);
    MulNonNegative(xs * ys - d * d, w * w);
    SquareNonNegative(p - q);
    CrossTerm(d, xs, ys, x, y);
    SquareLe(u, p + q);
    ExpandSquare(d, w);
    ExpandProduct(xs, ys, x, y);
  }

  lemma CrossTerm(d: real, xs: real, ys: real, x: real, y: real)
    ensures var p, q, u, w := xs * (y * y), ys * (x * x), 2.0 * d * (x * y), x * y;
      (p + q) * (p + q) - u * u == (p - q) * (p - q) + 4.0 * ((xs * ys - d * d) * (w * w))
  {
  }

  lemma ExpandSquare(d: real, w: real)
    ensures (w + d) * (w + d) == d * d + 2.0 * d * w + w * w
  {
  }

  lemma ExpandProduct(xs: real, ys: real, x: real, y: real)
    ensures (x * x + xs) * (y * y + ys) == xs * ys + xs * (y * y) + ys * (x * x) + (x * y) * (x * y)
  {
  }


  /** Cauchy-Schwarz: the squared dot product is at most the product of the
      squared norms. */
  lemma CauchySchwarz(a: map<string, real>, b: map<string, real>)
    ensures SquareBounded(Dot(a, b), SumSquares(a), SumSquares(b))
  {
    CauchySchwarzOn(a, b, a.Keys);
    SquaresNonNegative(b);
    ValuesOnMonotone(Squares(b), a.Keys, b.Keys);
    BoundWeaken(Dot(a, b), SumSquares(a), ValuesOn(Squares(b), a.Keys), SumSquares(b));
  }

  lemma BoundWeaken(d: real, x: real, y: real, y': real)
    requires SquareBounded(d, x, y) && x >= 0.0 && y <= y'
    ensures SquareBounded(d, x, y')
  {
    MulLe(y, y', x);
    assert x * y == y * x && x * y' == y' * x;
  }

  /** For vectors with non-negative weights, as TF-IDF vectors are, the
      similarity lies in [0, 1]. */
  lemma SimilarityBounds(a: map<string, real>, b: map<string, real>, sqrt: real -> real)
    requires IsSqrt(sqrt)
    requires forall k :: k in a ==> a[k] >= 0.0
    requires forall k :: k in b ==> b[k] >= 0.0
    ensures 0.0 <= Cosine(a, b, sqrt) <= 1.0
  {
    var n1, n2 := SumSquares(a), SumSquares(b);
    if n1 != 0.0 && n2 != 0.0 {
      SqrtPositive(sqrt, n1);
      SqrtPositive(sqrt, n2);
      ProductsNonNegative(a, b);
      ValuesOnNonNegative(Products(a, b), a.Keys);
      CauchySchwarz(a, b);
      RatioBounds(Dot(a, b), n1, n2, sqrt(n1), sqrt(n2));
    }
  }

  /** d / (s1 * s2) lies in [0, 1] when s1 and s2 are the roots of n1 and n2
      and d is non-negative with d * d <= n1 * n2. */
  lemma RatioBounds(d: real, n1: real, n2: real, s1: real, s2: real)
    requires d >= 0.0 && s1 > 0.0 && s2 > 0.0
    requires s1 * s1 == n1 && s2 * s2 == n2 && SquareBounded(d, n1, n2)
    ensures Mul(s1, s2) > 0.0
    ensures 0.0 <= d / Mul(s1, s2) <= 1.0
  {
    ProductPositive(s1, s2);
    var s := Mul(s1, s2);
    assert s * s == (s1 * s1) * (s2 * s2);
    SquareLe(d, s);
    DivideAtMost(d, s);
  }


  lemma SqrtPositive(sqrt: real -> real, x: real)
    requires IsSqrt(sqrt) && x > 0.0
    ensures sqrt(x) > 0.0
  {
    assert sqrt(x) * sqrt(x) == x;
  }

  lemma ProductPositive(x: real, y: real)
    requires x > 0.0 && y > 0.0
    ensures x * y > 0.0
  {
  }

  lemma SquareNonNegative(a: real)
    ensures a * a >= 0.0
  {
  }

  lemma MulNonNegative(a: real, b: real)
    requires a >= 0.0 && b >= 0.0
    ensures a * b >= 0.0
  {
  }

  lemma MulLe(a: real, b: real, c: real)
    requires a <= b && c >= 0.0
    ensures a * c <= b * c
  {
    MulNonNegative(b - a, c);
    assert (b - a) * c == b * c - a * c;
  }

  lemma MulLt(a: real, b: real, c: real)
    requires a < b && c > 0.0
    ensures a * c < b * c
  {
    ProductPositive(b - a, c);
    assert (b - a) * c == b * c - a * c;
  }

  /** A non-negative v bounds every u whose square is at most v's. */
  lemma SquareLe(u: real, v: real)
    requires v >= 0.0 && u * u <= v * v
    ensures u <= v
  {
    if u > v {
      assert (u - v) * (u + v) == u * u - v * v;
      ProductPositive(u - v, u + v);
    }
  }

  lemma DivideSelf(n: real)
    requires n != 0.0
    ensures n / n == 1.0
  {
  }

  lemma DivideAtMost(d: real, s: real)
    requires 0.0 <= d <= s && s > 0.0
    ensures 0.0 <= d / s <= 1.0
  {
    var c := d / s;
    assert c * s == d;
    if c > 1.0 {
      MulLt(1.0, c, s);
    }
    if c < 0.0 {
      MulLt(c, 0.0, s);
    }
  }
}

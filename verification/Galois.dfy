/** The ring of polynomials over GF(2): carry-less products commute, associate, distribute over
    `Xor`, add degrees, and respect remainders modulo the generator. On top of that, rational
    reconstruction: a pair of small polynomials whose quotient is a given remainder is a multiple
    of one reduced pair. */
module Galois {
  import opened Words
  import opened Crc

  // ---- the ring ----

  /** Horner's rule on the right factor. */
  lemma {:induction false} ProductRight(q: nat, n: nat, d: nat, b: nat)
    requires b < 2 && n == 2 * d + b
    ensures Product(q, n) == Xor(2 * Product(q, d), if b == 1 then q else 0)
  {
    if q == 0 {
      XorZero(0);
    } else {
      var h, c := q / 2, q % 2;
      ProductRight(h, n, d, b);
      var p, x := Product(h, d), if c == 1 then d else 0;
      var y, z := if b == 1 then h else 0, if b == 1 && c == 1 then 1 else 0;
      XorDigits(2 * Product(h, n), p, y, x, n, c, b, d, h, q);
    }
  }

  /** The two Horner steps commute. */
  lemma XorDigits(lhs: nat, p: nat, y: nat, x: nat, n: nat, c: nat, b: nat, d: nat, h: nat, q: nat)
    requires b < 2 && c < 2 && n == 2 * d + b && q == 2 * h + c
    requires x == (if c == 1 then d else 0) && y == (if b == 1 then h else 0)
    requires lhs == 2 * Xor(2 * p, y)
    ensures Xor(lhs, if c == 1 then n else 0)
      == Xor(2 * Xor(2 * p, x), if b == 1 then q else 0)
  {
    var k := if b == 1 && c == 1 then 1 else 0;
    XorHorner(lhs, if c == 1 then n else 0, Xor(2 * p, y), x, 0, k, k);
    XorHorner(2 * Xor(2 * p, x), if b == 1 then q else 0, Xor(2 * p, x), y, 0, k, k);
    XorAssoc(2 * p, y, x);
    XorAssoc(2 * p, x, y);
    XorComm(x, y);
  }

  lemma {:induction false} ProductZero(q: nat)
    ensures Product(q, 0) == 0
  {
    if q != 0 {
      ProductZero(q / 2);
      XorZero(0);
    }
  }

  lemma {:induction false} ProductComm(a: nat, b: nat)
    ensures Product(a, b) == Product(b, a)
    decreases b
  {
    if b == 0 {
      ProductZero(a);
    } else {
      ProductRight(a, b, b / 2, b % 2);
      ProductComm(a, b / 2);
    }
  }

  lemma {:induction false} ProductXor(q: nat, a: nat, b: nat)
    ensures Product(q, Xor(a, b)) == Xor(Product(q, a), Product(q, b))
  {
    if q == 0 {
      XorZero(0);
    } else {
      var h := q / 2;
      ProductXor(h, a, b);
      XorDouble(Product(h, a), Product(h, b));
      XorSwap(2 * Product(h, a), 2 * Product(h, b), if q % 2 == 1 then a else 0, if q % 2 == 1 then b else 0);
      XorZero(0);
    }
  }

  lemma {:induction false} XorProduct(a: nat, b: nat, q: nat)
    ensures Product(Xor(a, b), q) == Xor(Product(a, q), Product(b, q))
  {
    ProductComm(Xor(a, b), q);
    ProductComm(a, q);
    ProductComm(b, q);
    ProductXor(q, a, b);
  }

  lemma {:induction false} ProductAssoc(a: nat, b: nat, c: nat)
    ensures Product(Product(a, b), c) == Product(a, Product(b, c))
  {
    if a != 0 {
      var h := a / 2;
      ProductAssoc(h, b, c);
      XorProduct(2 * Product(h, b), if a % 2 == 1 then b else 0, c);
      ProductHorner(Product(h, b), c);
    }
  }

  lemma {:induction false} ProductOne(a: nat)
    ensures Product(a, 1) == a && Product(1, a) == a
  {
    ProductComm(a, 1);
    XorZero(a);
  }

  // ---- degrees ----

  lemma {:induction false} ProductBound(a: nat, b: nat, i: nat, j: nat)
    requires a < Pow2(i) && b < Pow2(j + 1)
    ensures Product(a, b) < Pow2(i + j)
  {
    if a != 0 {
      ProductBound(a / 2, b, i - 1, j);
      Pow2Mono(j + 1, i + j);
      XorBound(2 * Product(a / 2, b), if a % 2 == 1 then b else 0, i + j);
    } else {
    }
  }

  lemma {:induction false} XorKeepsTop(x: nat, y: nat, n: nat)
    requires y < Pow2(n) <= x
    ensures Pow2(n) <= Xor(x, y)
  {
    if Xor(x, y) < Pow2(n) {
      XorBound(Xor(x, y), y, n);
      XorCancel(x, y);
    }
  }

  /** `m` has degree `e`. */
  ghost predicate Degree(m: nat, e: nat) {
    Pow2(e) <= m < Pow2(e + 1)
  }

  lemma {:induction false} SomeDegree(m: nat) returns (e: nat)
    requires m != 0
    ensures Degree(m, e)
  {
    if m == 1 {
      e := 0;
    } else {
      e := SomeDegree(m / 2);
      e := e + 1;
    }
  }

  /** Degrees add. */
  lemma {:induction false} ProductDegree(a: nat, b: nat, i: nat, j: nat)
    requires Degree(a, i) && Degree(b, j)
    ensures Degree(Product(a, b), i + j)
  {
    hide Xor;
    ProductBound(a, b, i + 1, j);
    if i == 0 {
      ProductOne(b);
    } else {
      ProductDegree(a / 2, b, i - 1, j);
      Pow2Mono(j + 1, i + j);
      XorZero(2 * Product(a / 2, b));
      if a % 2 == 1 {
        XorKeepsTop(2 * Product(a / 2, b), b, i + j);
      }
    }
  }

  /** A bound on a multiple bounds the cofactor. */
  lemma CofactorBound(t: nat, m: nat, i: nat, n: nat)
    requires Degree(t, i) && Product(t, m) < Pow2(i + n)
    ensures m < Pow2(n)
  {
    if Pow2(n) <= m {
      var e := SomeDegree(m);
      ProductDegree(t, m, i, e);
      if e < n {
        Pow2Mono(e + 1, n);
      }
      Pow2Mono(i + n, i + e);
    }
  }

  /** Factors other than zero cancel. */
  lemma {:induction false} ProductCancel(g: nat, a: nat, b: nat)
    requires g != 0 && Product(g, a) == Product(g, b)
    ensures a == b
  {
    var i := SomeDegree(g);
    ProductXor(g, a, b);
    XorSelf(Product(g, a));
    CofactorBound(g, Xor(a, b), i, 0);
    XorCancel(a, b);
  }

  // ---- remainders ----

  lemma {:induction false} RemProduct(q: nat, d: nat)
    ensures Rem(Product(q, Rem(d))) == Rem(Product(q, d))
  {
    if q != 0 {
      RemProduct(q / 2, d);
      var p, r := Product(q / 2, d), Product(q / 2, Rem(d));
      RemDouble(p);
      RemDouble(r);
      RemBound(d);
      RemSmall(Rem(d));
      RemXor(2 * p, if q % 2 == 1 then d else 0);
      RemXor(2 * r, if q % 2 == 1 then Rem(d) else 0);
    }
  }

  lemma {:induction false} ProductShift(q: nat, d: nat, k: nat)
    ensures Product(q, ShiftUp(d, k)) == ShiftUp(Product(q, d), k)
  {
    if k != 0 {
      ProductShift(q, d, k - 1);
      ProductRight(q, ShiftUp(d, k), ShiftUp(d, k - 1), 0);
      XorZero(2 * Product(q, ShiftUp(d, k - 1)));
    }
  }

  // ---- rational reconstruction ----

  /** `e` is the remainder of `d` shifted up by `k`. */
  predicate Quotes(d: nat, e: nat, k: nat) {
    e == Rem(ShiftUp(d, k))
  }

  /** Two pairs with the same shift have equal cross products when these are below degree 64. */
  lemma {:induction false} CrossProducts(d: nat, e: nat, t: nat, r: nat, k: nat)
    requires Quotes(d, e, k) && Quotes(t, r, k)
    requires Product(d, r) < TWO64 && Product(t, e) < TWO64
    ensures Product(d, r) == Product(t, e)
  {
    RemProduct(d, ShiftUp(t, k));
    RemProduct(t, ShiftUp(d, k));
    ProductShift(d, t, k);
    ProductShift(t, d, k);
    ProductComm(d, t);
    RemSmall(Product(d, r));
    RemSmall(Product(t, e));
  }

  /** If t and r are coprime, equal cross products make (d, e) a multiple of (t, r). */
  lemma CommonMultiple(d: nat, e: nat, t: nat, r: nat, u: nat, v: nat) returns (m: nat)
    requires Product(d, r) == Product(t, e) && t != 0
    requires Xor(Product(u, t), Product(v, r)) == 1
    ensures d == Product(t, m) && e == Product(r, m)
  {
    m := Xor(Product(u, d), Product(v, e));
    ProductOne(d);
    ProductXor(d, Product(u, t), Product(v, r));
    Exchange(d, u, t);
    Exchange(d, v, r);
    Exchange(e, v, t);
    ProductComm(t, e);
    ProductComm(r, d);
    assert Product(d, Product(v, r)) == Product(t, Product(v, e)) by {
      ProductAssoc(v, d, r);
      ProductComm(v, Product(d, r));
      ProductAssoc(t, e, v);
      ProductComm(e, v);
      ProductComm(Product(t, e), v);
      ProductAssoc(d, r, v);
      ProductComm(r, v);
    }
    ProductXor(t, Product(u, d), Product(v, e));
    assert Product(t, Product(r, m)) == Product(t, e) by {
      ProductAssoc(t, r, m);
      ProductComm(t, r);
      ProductAssoc(r, t, m);
    }
    ProductCancel(t, Product(r, m), e);
  }

  lemma {:induction false} Exchange(a: nat, b: nat, c: nat)
    ensures Product(a, Product(b, c)) == Product(c, Product(b, a))
  {
    ProductComm(a, Product(b, c));
    ProductComm(b, c);
    ProductAssoc(c, b, a);
  }
}

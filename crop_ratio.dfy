/** The aspect ratio the image cropper uses: width and height reduced by their greatest common divisor. */
module CropRatio {

  /** `gcd`: Euclid's algorithm on non-negative integers (`%` agrees with Dafny's there). */
  function Gcd(a: nat, b: nat): nat
    decreases b
  {
    if b == 0 then a else Gcd(b, a % b)
  }

  ghost predicate Divides(d: nat, n: nat)
  {
    exists k: nat :: d * k == n
  }

  /** A product with a positive left factor is non-negative only if the right factor is. */
  lemma ProductSign(d: int, x: int)
    requires d > 0 && d * x >= 0
    ensures x >= 0
  {
  }

  /** A multiple of a positive number that lies below it is zero times it. */
  lemma SmallMultiple(g: int, x: int)
    requires g > 0 && 0 <= g * x < g
    ensures x == 0
  {
  }

  /** Division undoes an exact multiplication. */
  lemma ExactQuotient(g: nat, k: nat)
    requires g > 0
    ensures (g * k) / g == k
  {
    var q := (g * k) / g;
    var r := (g * k) % g;
    assert g * k == g * q + r;
    assert g * (k - q) == g * k - g * q;
    SmallMultiple(g, k - q);
  }

  /** A divisor of `b` divides `b * q`, with the quotient spelled out. */
  lemma MultipleOfDivisor(d: nat, kb: nat, q: nat)
    ensures (d * kb) * q == d * (kb * q)
  {
  }

  /** A common divisor of `a` and `b` divides `a % b`. */
  lemma DividesRemainderDown(d: nat, a: nat, b: nat, kb: nat, ka: nat)
    requires b > 0 && d * kb == b && d * ka == a
    ensures Divides(d, a % b)
  {
    var q := a / b;
    var r := a % b;
    MultipleOfDivisor(d, kb, q);
    assert r == d * ka - d * (kb * q);
    assert r == d * (ka - kb * q);
    ProductSign(d, ka - kb * q);
    assert d * ((ka - kb * q) as nat) == r;
  }

  /** A common divisor of `b` and `a % b` divides `a`. */
  lemma DividesRemainderUp(d: nat, a: nat, b: nat, kb: nat, kr: nat)
    requires b > 0 && d * kb == b && d * kr == a % b
    ensures Divides(d, a)
  {
    var q := a / b;
    MultipleOfDivisor(d, kb, q);
    assert d * (kb * q + kr) == d * (kb * q) + d * kr;
    assert d * (kb * q + kr) == a;
  }

  /** A common divisor of `b` and `a % b` also divides `a`, and conversely. */
  lemma DividesRemainder(d: nat, a: nat, b: nat)
    requires b > 0 && Divides(d, b)
    ensures Divides(d, a) <==> Divides(d, a % b)
  {
    var kb: nat :| d * kb == b;
    if Divides(d, a) {
      var ka: nat :| d * ka == a;
      DividesRemainderDown(d, a, b, kb, ka);
    }
    if Divides(d, a % b) {
      var kr: nat :| d * kr == a % b;
      DividesRemainderUp(d, a, b, kb, kr);
    }
  }

  /** The result divides both arguments, and every common divisor divides it. */
  lemma {:induction false} GcdIsGreatest(a: nat, b: nat)
    ensures Divides(Gcd(a, b), a) && Divides(Gcd(a, b), b)
    ensures forall d: nat :: Divides(d, a) && Divides(d, b) ==> Divides(d, Gcd(a, b))
    decreases b
  {
    if b == 0 {
      assert Gcd(a, b) * 1 == a;
      assert Gcd(a, b) * 0 == b;
    } else {
      GcdIsGreatest(b, a % b);
      DividesRemainder(Gcd(a, b), a, b);
      forall d: nat | Divides(d, a) && Divides(d, b)
        ensures Divides(d, Gcd(a, b))
      {
        DividesRemainder(d, a, b);
      }
    }
  }

  /** The gcd of positive numbers is positive. */
  lemma {:induction false} GcdPositive(a: nat, b: nat)
    requires a > 0 || b > 0
    ensures Gcd(a, b) > 0
    decreases b
  {
    if b > 0 {
      GcdPositive(b, a % b);
    }
  }

  /** `getRatio`: width and height divided by their gcd, as exact integers. */
  function Ratio(w: nat, h: nat): (r: (nat, nat))
    requires w > 0 && h > 0
    ensures r.0 > 0 && r.1 > 0
    ensures r.0 * Gcd(w, h) == w && r.1 * Gcd(w, h) == h
    ensures r.0 * h == r.1 * w
  {
    var g := Gcd(w, h);
    GcdPositive(w, h);
    GcdIsGreatest(w, h);
    var kw: nat :| g * kw == w;
    var kh: nat :| g * kh == h;
    ExactQuotient(g, kw);
    ExactQuotient(g, kh);
    SameRatio(g, kw, kh);
    (w / g, h / g)
  }

  /** Scaling both sides by the same factor keeps the cross products equal. */
  lemma SameRatio(g: nat, kw: nat, kh: nat)
    ensures kw * (g * kh) == kh * (g * kw)
  {
    assert kw * (g * kh) == g * (kw * kh);
    assert kh * (g * kw) == g * (kw * kh);
  }

  /** A square crop reduces to 1:1. */
  lemma SquareIsOne(n: nat)
    requires n > 0
    ensures Ratio(n, n) == (1, 1)
  {
    assert Gcd(n, n) == Gcd(n, 0);
  }
}

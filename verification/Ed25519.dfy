/** Extended twisted Edwards arithmetic (section 5.1.4 of RFC 8032), and the proof
    that it never leaves the curve.  The arithmetic is a function of the modulus q
    and the curve constant d, and the laws hold for all of them; Q and D are those
    of Ed25519. */
module Ed25519 {

  type Modulus = q: int | q > 0 witness 1

  /** 2^255 - 19 */
  const Q: Modulus := 0x7FFF_FFFF_FFFF_FFFF_FFFF_FFFF_FFFF_FFFF_FFFF_FFFF_FFFF_FFFF_FFFF_FFFF_FFFF_FFED

  /** The constant of this curve: -121665/121666 modulo q. */
  const D: int := 37095705934669439343138083508754565189542113879843219016388785533085940283555

  datatype Point = Point(x: int, y: int, z: int, t: int)

  // ----- congruence modulo q -----

  ghost predicate Multiple(q: Modulus, n: int) { exists k :: n == k * q }

  ghost predicate Cong(q: Modulus, a: int, b: int) { Multiple(q, a - b) }

  lemma MultipleIs(q: Modulus, n: int, k: int)
    requires n == k * q
    ensures Multiple(q, n)
  {
  }

  lemma CongRefl(q: Modulus, a: int)
    ensures Cong(q, a, a)
  {
    MultipleIs(q, a - a, 0);
  }

  lemma CongSym(q: Modulus, a: int, b: int)
    requires Cong(q, a, b)
    ensures Cong(q, b, a)
  {
    var k :| a - b == k * q;
    MultipleIs(q, b - a, -k);
  }

  lemma CongTrans(q: Modulus, a: int, b: int, c: int)
    requires Cong(q, a, b) && Cong(q, b, c)
    ensures Cong(q, a, c)
  {
    var k :| a - b == k * q;
    var l :| b - c == l * q;
    MultipleIs(q, a - c, k + l);
  }

  lemma CongAdd(q: Modulus, a: int, b: int, c: int, d: int)
    requires Cong(q, a, b) && Cong(q, c, d)
    ensures Cong(q, a + c, b + d) && Cong(q, a - c, b - d)
  {
    var k :| a - b == k * q;
    var l :| c - d == l * q;
    MultipleIs(q, (a + c) - (b + d), k + l);
    MultipleIs(q, (a - c) - (b - d), k - l);
  }

  lemma CongMul(q: Modulus, a: int, b: int, c: int, d: int)
    requires Cong(q, a, b) && Cong(q, c, d)
    ensures Cong(q, a * c, b * d)
  {
    var k :| a - b == k * q;
    var l :| c - d == l * q;
    ProductGap(q, a, b, c, d, k, l);
    MultipleIs(q, a * c - b * d, a * l + k * d);
  }

  lemma ProductGap(q: Modulus, a: int, b: int, c: int, d: int, k: int, l: int)
    requires a - b == k * q && c - d == l * q
    ensures a * c - b * d == (a * l + k * d) * q
  {
    assert a * c - b * d == a * (c - d) + (a - b) * d;
    assert a * (l * q) == (a * l) * q;
    assert (k * q) * d == (k * d) * q;
  }

  lemma CongMod(q: Modulus, a: int)
    ensures Cong(q, a % q, a)
  {
    MultipleIs(q, a % q - a, -(a / q));
  }

  // ----- the curve and its arithmetic -----

  /** The two equations of an extended point: the curve and the product of the
      affine coordinates. */
  ghost predicate OnCurve(q: Modulus, d: int, p: Point) {
    Cong(q, p.y * p.y - p.x * p.x, p.z * p.z + d * (p.t * p.t)) && Cong(q, p.x * p.y, p.z * p.t)
  }

  function EdwardsAdd(q: Modulus, d: int, p: Point, r: Point): Point {
    var a := ((p.y - p.x) * (r.y - r.x)) % q;
    var b := ((p.y + p.x) * (r.y + r.x)) % q;
    var c := (p.t * 2 * d * r.t) % q;
    var dd := (p.z * 2 * r.z) % q;
    var e, f, g, h := b - a, dd - c, dd + c, b + a;
    Point((e * f) % q, (g * h) % q, (f * g) % q, (e * h) % q)
  }

  const NEUTRAL := Point(0, 1, 1, 0)

  function ScalarMult(q: Modulus, d: int, p: Point, e: nat): Point {
    if e == 0 then NEUTRAL
    else
      var half := ScalarMult(q, d, p, e / 2);
      var doubled := EdwardsAdd(q, d, half, half);
      if e % 2 == 1 then EdwardsAdd(q, d, doubled, p) else doubled
  }

  // ----- polynomial identities over the integers -----

  lemma DifferenceOfSquares(x1: int, y1: int, x2: int, y2: int)
    ensures var e, h := x1 * y2 + x2 * y1, y1 * y2 + x1 * x2;
      h * h - e * e == (y1 * y1 - x1 * x1) * (y2 * y2 - x2 * x2)
  {
  }

  lemma SumOfSquares(x1: int, y1: int, x2: int, y2: int)
    ensures var e, h := x1 * y2 + x2 * y1, y1 * y2 + x1 * x2;
      h * h + e * e == (x1 * x1 + y1 * y1) * (x2 * x2 + y2 * y2) + 4 * ((x1 * y1) * (x2 * y2))
  {
  }

  lemma CrossProduct(x1: int, y1: int, x2: int, y2: int)
    ensures (x1 * y2 + x2 * y1) * (y1 * y2 + x1 * x2)
         == (x1 * y1) * (x2 * x2 + y2 * y2) + (x2 * y2) * (x1 * x1 + y1 * y1)
  {
  }

  lemma SquareOfSum(x: int, y: int)
    ensures (x * x + y * y) * (x * x + y * y)
         == (y * y - x * x) * (y * y - x * x) + 4 * ((x * y) * (x * y))
  {
  }

  lemma FourTerms(a: int, b: int, c: int, e: int)
    ensures (a * c + b * e) * ((a + b) * (c + e))
         == (a * c - b * e) * (a * c - b * e) + (a * b) * ((c + e) * (c + e)) + (c * e) * ((a + b) * (a + b))
  {
  }

  lemma WeightedSquares(u: int, v: int, ee: int, hh: int)
    ensures (u + v) * (u + v) * hh - ee * ((u - v) * (u - v))
         == (u * u + v * v) * (hh - ee) + 2 * (u * v) * (hh + ee)
    ensures (u - v) * (u - v) * ((u + v) * (u + v)) == (u * u - v * v) * (u * u - v * v)
  {
  }

  lemma SquareOfTwo(p1: int, p2: int, a: int, b: int)
    ensures (p1 * b + p2 * a) * (p1 * b + p2 * a) 
         == (p1 * p1) * (b * b) + (p2 * p2) * (a * a) + 2 * ((p1 * p2) * (a * b))
  {
  }

  lemma SpreadSquare(p: int, n: int, q: int, bb: int)
    requires bb == n * n + 4 * (q * q)
    ensures (p * p) * bb == (p * n) * (p * n) + 4 * ((p * q) * (p * q))
  {
  }

  lemma SquareOfCross(p1: int, p2: int, a: int, b: int, n1: int, n2: int)
    requires a * a == n1 * n1 + 4 * (p1 * p1)
    requires b * b == n2 * n2 + 4 * (p2 * p2)
    ensures (p1 * b + p2 * a) * (p1 * b + p2 * a)
         == (p1 * n2) * (p1 * n2) + (p2 * n1) * (p2 * n1) + 8 * ((p1 * p2) * (p1 * p2)) + 2 * ((p1 * p2) * (a * b))
  {
    SquareOfTwo(p1, p2, a, b);
    SpreadSquare(p1, n2, p2, b * b);
    SpreadSquare(p2, n1, p1, a * a);
    assert p2 * p1 == p1 * p2;
  }

  /** With the curve equations as exact equalities the right-hand sides cancel. */
  lemma CurveTermsCancel(z1: int, t1: int, z2: int, t2: int, d: int)
    ensures var u, v := z1 * z2, d * (t1 * t2);
      var m1, m2 := z1 * z1 + d * (t1 * t1), z2 * z2 + d * (t2 * t2);
      var w1, w2 := z1 * t1, z2 * t2;
      (u * u + v * v) * (m1 * m2)
      == (u * u - v * v) * (u * u - v * v) + d * ((w1 * m2) * (w1 * m2)) + d * ((w2 * m1) * (w2 * m1))
    ensures (z1 * z2) * (d * (t1 * t2)) == d * ((z1 * t1) * (z2 * t2))
  {
    var u, v := z1 * z2, d * (t1 * t2);
    var a, b, c, e := z1 * z1, d * (t1 * t1), z2 * z2, d * (t2 * t2);
    ProductOfSquares(z1, z2);
    ScaledProduct(d, t1, t2);
    SquareScaled(z1, t1, d);
    SquareScaled(z2, t2, d);
    NamedFourTerms(a, b, c, e, u * u, v * v, d * ((z1 * t1) * (z1 * t1)), d * ((z2 * t2) * (z2 * t2)));
    Regroup(d, z1 * t1, c + e);
    Regroup(d, z2 * t2, a + b);
    PairUp(z1, z2, t1, t2, d);
  }

  lemma PairUp(z1: int, z2: int, t1: int, t2: int, d: int)
    ensures (z1 * z2) * (d * (t1 * t2)) == d * ((z1 * t1) * (z2 * t2))
  {
  }

  lemma ProductOfSquares(a: int, b: int)
    ensures (a * b) * (a * b) == (a * a) * (b * b)
  {
  }

  lemma ScaledProduct(d: int, s: int, t: int)
    ensures (d * (s * t)) * (d * (s * t)) == (d * (s * s)) * (d * (t * t))
  {
  }

  lemma SquareScaled(z: int, t: int, d: int)
    ensures (z * z) * (d * (t * t)) == d * ((z * t) * (z * t))
  {
  }

  lemma NamedFourTerms(a: int, b: int, c: int, e: int, uu: int, vv: int, ab: int, ce: int)
    requires uu == a * c && vv == b * e && ab == a * b && ce == c * e
    ensures (uu + vv) * ((a + b) * (c + e))
         == (uu - vv) * (uu - vv) + ab * ((c + e) * (c + e)) + ce * ((a + b) * (a + b))
  {
    FourTerms(a, b, c, e);
  }

  lemma Regroup(d: int, w: int, m: int)
    ensures (d * (w * w)) * (m * m) == d * ((w * m) * (w * m))
  {
  }

  /** What the sum's curve equation misses is a combination of what the curve
      equations of the two operands miss. */
  lemma Gap(x1: int, y1: int, z1: int, t1: int, x2: int, y2: int, z2: int, t2: int, d: int)
    ensures var e, h, u, v := x1 * y2 + x2 * y1, y1 * y2 + x1 * x2, z1 * z2, d * (t1 * t2);
      var f, g := u - v, u + v;
      var n1, n2, p1, p2 := y1 * y1 - x1 * x1, y2 * y2 - x2 * x2, x1 * y1, x2 * y2;
      var m1, m2, w1, w2 := z1 * z1 + d * (t1 * t1), z2 * z2 + d * (t2 * t2), z1 * t1, z2 * t2;
      var ab := (x1 * x1 + y1 * y1) * (x2 * x2 + y2 * y2);
      (g * g) * (h * h) - (e * e) * (f * f) - ((f * f) * (g * g) + d * ((e * h) * (e * h)))
      == (u * u + v * v) * (n1 * n2 - m1 * m2) + (2 * ab + 8 * (p1 * p2)) * (d * (w1 * w2) - d * (p1 * p2))
         - d * ((p1 * n2) * (p1 * n2) - (w1 * m2) * (w1 * m2)) - d * ((p2 * n1) * (p2 * n1) - (w2 * m1) * (w2 * m1))
  {
    var e, h, u, v := x1 * y2 + x2 * y1, y1 * y2 + x1 * x2, z1 * z2, d * (t1 * t2);
    var n1, n2, p1, p2 := y1 * y1 - x1 * x1, y2 * y2 - x2 * x2, x1 * y1, x2 * y2;
    var a, b := x1 * x1 + y1 * y1, x2 * x2 + y2 * y2;
    var m1, m2, w1, w2 := z1 * z1 + d * (t1 * t1), z2 * z2 + d * (t2 * t2), z1 * t1, z2 * t2;
    DifferenceOfSquares(x1, y1, x2, y2);
    SumOfSquares(x1, y1, x2, y2);
    CrossProduct(x1, y1, x2, y2);
    SquareOfSum(x1, y1);
    SquareOfSum(x2, y2);
    WeightedSquares(u, v, e * e, h * h);
    SquareOfCross(p1, p2, a, b, n1, n2);
    CurveTermsCancel(z1, t1, z2, t2, d);
    Assemble(u, v, e * e, h * h, n1 * n2, m1 * m2, p1 * p2, w1 * w2, a * b, (e * h) * (e * h),
             (p1 * n2) * (p1 * n2), (p2 * n1) * (p2 * n1), (w1 * m2) * (w1 * m2), (w2 * m1) * (w2 * m1), d);
  }

  lemma Assemble(u: int, v: int, ee: int, hh: int, nn: int, mm: int, pp: int, ww: int, ab: int, cross: int,
                 pn: int, np: int, wm: int, mw: int, d: int)
    requires hh - ee == nn && hh + ee == ab + 4 * pp
    requires cross == pn + np + 8 * (pp * pp) + 2 * (pp * ab)
    requires (u + v) * (u + v) * hh - ee * ((u - v) * (u - v)) == (u * u + v * v) * (hh - ee) + 2 * (u * v) * (hh + ee)
    requires (u - v) * (u - v) * ((u + v) * (u + v)) == (u * u - v * v) * (u * u - v * v)
    requires (u * u + v * v) * mm == (u * u - v * v) * (u * u - v * v) + d * wm + d * mw
    requires u * v == d * ww
    ensures (u + v) * (u + v) * hh - ee * ((u - v) * (u - v)) - ((u - v) * (u - v) * ((u + v) * (u + v)) + d * cross)
         == (u * u + v * v) * (nn - mm) + (2 * ab + 8 * pp) * (d * ww - d * pp) - d * (pn - wm) - d * (np - mw)
  {
    Distribute(u * u + v * v, nn, mm);
    SpreadCross(d, cross, pn, np, pp, ab);
    SpreadProduct(u * v, ab, pp);
    Factor(d * ww, d * pp, pp, ab);
    assert (d * pp) * (8 * pp + 2 * ab) == (d * pp) * (2 * ab + 8 * pp);
    assert 2 * (u * v) * (ab + 4 * pp) == 2 * ((u * v) * (ab + 4 * pp));
    Distribute(d, pn, wm);
    Distribute(d, np, mw);
  }

  lemma Distribute(s: int, a: int, b: int)
    ensures s * (a - b) == s * a - s * b
  {
  }

  lemma SpreadCross(d: int, cross: int, pn: int, np: int, pp: int, ab: int)
    requires cross == pn + np + 8 * (pp * pp) + 2 * (pp * ab)
    ensures d * cross == d * pn + d * np + (d * pp) * (8 * pp + 2 * ab)
  {
  }

  lemma SpreadProduct(uv: int, ab: int, pp: int)
    ensures 2 * (uv * (ab + 4 * pp)) == uv * (2 * ab + 8 * pp)
  {
  }

  lemma Factor(x: int, y: int, pp: int, ab: int)
    ensures x * (2 * ab + 8 * pp) - y * (2 * ab + 8 * pp) == (2 * ab + 8 * pp) * (x - y)
  {
  }

  // ----- closure -----

  lemma MultipleScale(q: Modulus, n: int, f: int)
    requires Multiple(q, n)
    ensures Multiple(q, f * n)
  {
    var k :| n == k * q;
    assert f * (k * q) == (f * k) * q;
    MultipleIs(q, f * n, f * k);
  }

  lemma MultipleAdd(q: Modulus, m: int, n: int)
    requires Multiple(q, m) && Multiple(q, n)
    ensures Multiple(q, m + n) && Multiple(q, m - n)
  {
    var k :| m == k * q;
    var l :| n == l * q;
    MultipleIs(q, m + n, k + l);
    MultipleIs(q, m - n, k - l);
  }

  /** The sum's curve equation before scaling and reduction. */
  lemma SumEquation(q: Modulus, d: int, p: Point, r: Point)
    requires OnCurve(q, d, p) && OnCurve(q, d, r)
    ensures var e, h, u, v := p.x * r.y + r.x * p.y, p.y * r.y + p.x * r.x, p.z * r.z, d * (p.t * r.t);
      var f, g := u - v, u + v;
      Cong(q, (g * g) * (h * h) - (e * e) * (f * f), (f * f) * (g * g) + d * ((e * h) * (e * h)))
  {
    hide Multiple;
    var n1, n2, p1, p2 := p.y * p.y - p.x * p.x, r.y * r.y - r.x * r.x, p.x * p.y, r.x * r.y;
    var m1, m2 := p.z * p.z + d * (p.t * p.t), r.z * r.z + d * (r.t * r.t);
    var w1, w2 := p.z * p.t, r.z * r.t;
    var u, v := p.z * r.z, d * (p.t * r.t);
    var ab := (p.x * p.x + p.y * p.y) * (r.x * r.x + r.y * r.y);
    Gap(p.x, p.y, p.z, p.t, r.x, r.y, r.z, r.t, d);
    CongMul(q, n1, m1, n2, m2);
    MultipleScale(q, n1 * n2 - m1 * m2, u * u + v * v);
    CongMul(q, p1, w1, p2, w2);
    CongSym(q, p1 * p2, w1 * w2);
    CongRefl(q, d);
    CongMul(q, d, d, w1 * w2, p1 * p2);
    MultipleScale(q, d * (w1 * w2) - d * (p1 * p2), 2 * ab + 8 * (p1 * p2));
    CongMul(q, p1, w1, n2, m2);
    CongMul(q, p1 * n2, w1 * m2, p1 * n2, w1 * m2);
    MultipleScale(q, (p1 * n2) * (p1 * n2) - (w1 * m2) * (w1 * m2), d);
    CongMul(q, p2, w2, n1, m1);
    CongMul(q, p2 * n1, w2 * m1, p2 * n1, w2 * m1);
    MultipleScale(q, (p2 * n1) * (p2 * n1) - (w2 * m1) * (w2 * m1), d);
    var s1 := (u * u + v * v) * (n1 * n2 - m1 * m2);
    var s2 := (2 * ab + 8 * (p1 * p2)) * (d * (w1 * w2) - d * (p1 * p2));
    var s3 := d * ((p1 * n2) * (p1 * n2) - (w1 * m2) * (w1 * m2));
    MultipleAdd(q, s1, s2);
    MultipleAdd(q, s1 + s2, s3);
    MultipleAdd(q, s1 + s2 - s3, d * ((p2 * n1) * (p2 * n1) - (w2 * m1) * (w2 * m1)));
  }

  /** The four products of the addition, up to congruence. */
  lemma SumCoordinates(q: Modulus, d: int, p: Point, r: Point)
    ensures var e, h, u, v := p.x * r.y + r.x * p.y, p.y * r.y + p.x * r.x, p.z * r.z, d * (p.t * r.t);
      var f, g := u - v, u + v;
      var s := EdwardsAdd(q, d, p, r);
      && Cong(q, s.x, (2 * e) * (2 * f)) && Cong(q, s.y, (2 * g) * (2 * h))
      && Cong(q, s.z, (2 * f) * (2 * g)) && Cong(q, s.t, (2 * e) * (2 * h))
  {
    hide Multiple;
    var a0, b0 := (p.y - p.x) * (r.y - r.x), (p.y + p.x) * (r.y + r.x);
    var c0, d0 := p.t * 2 * d * r.t, p.z * 2 * r.z;
    var a, b, c, dd := a0 % q, b0 % q, c0 % q, d0 % q;
    var e, h, u, v := p.x * r.y + r.x * p.y, p.y * r.y + p.x * r.x, p.z * r.z, d * (p.t * r.t);
    CongMod(q, a0);
    CongMod(q, b0);
    CongMod(q, c0);
    CongMod(q, d0);
    CongAdd(q, b, b0, a, a0);
    CongAdd(q, dd, d0, c, c0);
    TwiceCross(p.x, p.y, r.x, r.y);
    TwiceProducts(p.z, r.z, p.t, r.t, d);
    ReducedProduct(q, b - a, 2 * e, dd - c, 2 * (u - v));
    ReducedProduct(q, dd + c, 2 * (u + v), b + a, 2 * h);
    ReducedProduct(q, dd - c, 2 * (u - v), dd + c, 2 * (u + v));
    ReducedProduct(q, b - a, 2 * e, b + a, 2 * h);
  }

  lemma TwiceCross(x1: int, y1: int, x2: int, y2: int)
    ensures (y1 + x1) * (y2 + x2) - (y1 - x1) * (y2 - x2) == 2 * (x1 * y2 + x2 * y1)
    ensures (y1 + x1) * (y2 + x2) + (y1 - x1) * (y2 - x2) == 2 * (y1 * y2 + x1 * x2)
  {
  }

  lemma TwiceProducts(z1: int, z2: int, t1: int, t2: int, d: int)
    ensures z1 * 2 * z2 == 2 * (z1 * z2) && t1 * 2 * d * t2 == 2 * (d * (t1 * t2))
  {
  }

  lemma ReducedProduct(q: Modulus, a: int, b: int, c: int, d: int)
    requires Cong(q, a, b) && Cong(q, c, d)
    ensures Cong(q, (a * c) % q, b * d)
  {
    hide Multiple;
    CongMod(q, a * c);
    CongMul(q, a, b, c, d);
    CongTrans(q, (a * c) % q, a * c, b * d);
  }

  lemma FourTimes(a: int, b: int)
    ensures (2 * a) * (2 * b) == 4 * (a * b)
  {
  }

  lemma SixteenTimes(a: int, b: int, c: int, d: int)
    ensures (4 * (a * b)) * (4 * (c * d)) == 16 * ((a * c) * (b * d))
    ensures (4 * (a * b)) * (4 * (c * d)) == (4 * (b * c)) * (4 * (a * d))
  {
  }

  /** The sum of two points on the curve satisfies both equations again. */
  lemma AddStaysOnCurve(q: Modulus, d: int, p: Point, r: Point)
    requires OnCurve(q, d, p) && OnCurve(q, d, r)
    ensures OnCurve(q, d, EdwardsAdd(q, d, p, r))
  {
    hide Multiple, EdwardsAdd;
    var e, h, u, v := p.x * r.y + r.x * p.y, p.y * r.y + p.x * r.x, p.z * r.z, d * (p.t * r.t);
    var f, g := u - v, u + v;
    var s := EdwardsAdd(q, d, p, r);
    SumCoordinates(q, d, p, r);
    FourTimes(e, f);
    FourTimes(g, h);
    FourTimes(f, g);
    FourTimes(e, h);
    SumEquation(q, d, p, r);
    CurveOfScaled(q, d, s, e, f, g, h);
    // x y and z t are the same product of four factors
    CongMul(q, s.x, 4 * (e * f), s.y, 4 * (g * h));
    CongMul(q, s.z, 4 * (f * g), s.t, 4 * (e * h));
    SixteenTimes(e, f, g, h);
    CongSym(q, s.z * s.t, (4 * (f * g)) * (4 * (e * h)));
    CongTrans(q, s.x * s.y, (4 * (e * f)) * (4 * (g * h)), s.z * s.t);
  }

  lemma CurveOfScaled(q: Modulus, d: int, s: Point, e: int, f: int, g: int, h: int)
    requires Cong(q, s.x, 4 * (e * f)) && Cong(q, s.y, 4 * (g * h))
    requires Cong(q, s.z, 4 * (f * g)) && Cong(q, s.t, 4 * (e * h))
    requires Cong(q, (g * g) * (h * h) - (e * e) * (f * f), (f * f) * (g * g) + d * ((e * h) * (e * h)))
    ensures Cong(q, s.y * s.y - s.x * s.x, s.z * s.z + d * (s.t * s.t))
  {
    hide Multiple;
    var ef, gh, fg, eh := 4 * (e * f), 4 * (g * h), 4 * (f * g), 4 * (e * h);
    CongMul(q, s.y, gh, s.y, gh);
    CongMul(q, s.x, ef, s.x, ef);
    CongAdd(q, s.y * s.y, gh * gh, s.x * s.x, ef * ef);
    CongMul(q, s.z, fg, s.z, fg);
    CongMul(q, s.t, eh, s.t, eh);
    CongRefl(q, d);
    CongMul(q, d, d, s.t * s.t, eh * eh);
    CongAdd(q, s.z * s.z, fg * fg, d * (s.t * s.t), d * (eh * eh));
    var left := (g * g) * (h * h) - (e * e) * (f * f);
    var right := (f * f) * (g * g) + d * ((e * h) * (e * h));
    CongRefl(q, 16);
    CongMul(q, 16, 16, left, right);
    SixteenTimes(g, h, g, h);
    SixteenTimes(e, f, e, f);
    SixteenTimes(f, g, f, g);
    ScaledSquare(d, e * h);
    assert gh * gh - ef * ef == 16 * left;
    assert fg * fg + d * (eh * eh) == 16 * right;
    CongTrans(q, s.y * s.y - s.x * s.x, 16 * left, 16 * right);
    CongSym(q, s.z * s.z + d * (s.t * s.t), 16 * right);
    CongTrans(q, s.y * s.y - s.x * s.x, 16 * right, s.z * s.z + d * (s.t * s.t));
  }

  lemma ScaledSquare(d: int, w: int)
    ensures d * ((4 * w) * (4 * w)) == 16 * (d * (w * w))
  {
  }

  lemma NeutralIsOnCurve(q: Modulus, d: int)
    ensures OnCurve(q, d, NEUTRAL)
  {
    MultipleIs(q, 0, 0);
    CongRefl(q, 1);
    CongRefl(q, 0);
  }

  /** No scalar leads off the curve. */
  lemma {:induction false} ScalarMultStaysOnCurve(q: Modulus, d: int, p: Point, e: nat)
    requires OnCurve(q, d, p)
    ensures OnCurve(q, d, ScalarMult(q, d, p, e))
  {
    hide OnCurve, EdwardsAdd;
    if e == 0 {
      NeutralIsOnCurve(q, d);
    } else {
      var half := ScalarMult(q, d, p, e / 2);
      ScalarMultStaysOnCurve(q, d, p, e / 2);
      AddStaysOnCurve(q, d, half, half);
      AddStaysOnCurve(q, d, EdwardsAdd(q, d, half, half), p);
    }
  }

  // ----- the neutral point and negation -----

  lemma AddCommutes(q: Modulus, d: int, p: Point, r: Point)
    ensures EdwardsAdd(q, d, p, r) == EdwardsAdd(q, d, r, p)
  {
    TwiceProducts(p.z, r.z, p.t, r.t, d);
    TwiceProducts(r.z, p.z, r.t, p.t, d);
    assert p.t * r.t == r.t * p.t && p.z * r.z == r.z * p.z;
    assert (p.y - p.x) * (r.y - r.x) == (r.y - r.x) * (p.y - p.x);
    assert (p.y + p.x) * (r.y + r.x) == (r.y + r.x) * (p.y + p.x);
  }

  /** The same projective point. */
  ghost predicate Same(q: Modulus, p: Point, r: Point) {
    Cong(q, p.x * r.z, r.x * p.z) && Cong(q, p.y * r.z, r.y * p.z) && Cong(q, p.t * r.z, r.t * p.z)
  }

  /** Every coordinate of `s` is `w` times that of `p`. */
  ghost predicate Scaled(q: Modulus, s: Point, w: int, p: Point) {
    Cong(q, s.x, w * p.x) && Cong(q, s.y, w * p.y) && Cong(q, s.z, w * p.z) && Cong(q, s.t, w * p.t)
  }

  /** Adding the neutral point multiplies every coordinate by 4z, and so leaves
      the projective point as it is. */
  lemma AddNeutral(q: Modulus, d: int, p: Point)
    requires OnCurve(q, d, p)
    ensures Scaled(q, EdwardsAdd(q, d, p, NEUTRAL), 4 * p.z, p)
    ensures Same(q, EdwardsAdd(q, d, p, NEUTRAL), p)
  {
    hide Multiple, EdwardsAdd;
    var s := EdwardsAdd(q, d, p, NEUTRAL);
    SumCoordinates(q, d, p, NEUTRAL);
    FourTimes(p.x, p.z);
    FourTimes(p.z, p.y);
    FourTimes(p.z, p.z);
    FourTimes(p.x, p.y);
    assert Cong(q, s.x, 4 * (p.x * p.z)) && Cong(q, s.y, 4 * (p.z * p.y));
    assert Cong(q, s.z, 4 * (p.z * p.z)) && Cong(q, s.t, 4 * (p.x * p.y));
    SameScaled(q, s.x, 4 * (p.x * p.z), p.x, s.z, p.z);
    SameScaled(q, s.y, 4 * (p.z * p.y), p.y, s.z, p.z);
    // 4 x y z and 4 z t z are congruent because x y and z t are
    CongRefl(q, 4);
    CongMul(q, 4, 4, p.x * p.y, p.z * p.t);
    CongTrans(q, s.t, 4 * (p.x * p.y), 4 * (p.z * p.t));
    SameScaled(q, s.t, 4 * (p.z * p.t), p.t, s.z, p.z);
    ScaleOut(p.x, p.z);
    ScaleOut(p.y, p.z);
    ScaleOut(p.z, p.z);
    ScaleOut(p.t, p.z);
  }

  lemma ScaleOut(a: int, z: int)
    ensures 4 * (a * z) == 4 * (z * a) == (4 * z) * a
  {
  }

  lemma SameScaled(q: Modulus, a: int, a': int, b: int, sz: int, z: int)
    requires Cong(q, a, a') && Cong(q, sz, 4 * (z * z)) && a' == 4 * (z * b)
    ensures Cong(q, a * z, b * sz)
  {
    hide Multiple;
    CongRefl(q, z);
    CongRefl(q, b);
    CongMul(q, a, a', z, z);
    CongMul(q, b, b, sz, 4 * (z * z));
    CongSym(q, b * sz, b * (4 * (z * z)));
    assert a' * z == b * (4 * (z * z));
    CongTrans(q, a * z, a' * z, b * sz);
  }

  function Negate(p: Point): Point {
    Point(-p.x, p.y, p.z, -p.t)
  }

  /** A point plus its negation is the neutral point, scaled by four times the
      product of z^2 + d t^2 and z^2 - d t^2. */
  lemma AddNegation(q: Modulus, d: int, p: Point)
    requires OnCurve(q, d, p)
    ensures var s := EdwardsAdd(q, d, p, Negate(p));
      var f, g := p.z * p.z + d * (p.t * p.t), p.z * p.z - d * (p.t * p.t);
      && Cong(q, s.x, 0) && Cong(q, s.t, 0) && Cong(q, s.y, s.z)
      && Cong(q, s.z, (2 * f) * (2 * g))
  {
    hide Multiple, EdwardsAdd;
    var s := EdwardsAdd(q, d, p, Negate(p));
    SumCoordinates(q, d, p, Negate(p));
    var h, f := p.y * p.y - p.x * p.x, p.z * p.z + d * (p.t * p.t);
    var g := p.z * p.z + d * (p.t * -p.t);
    assert d * (p.t * -p.t) == -(d * (p.t * p.t));
    assert p.x * p.y + -p.x * p.y == 0;
    assert p.y * p.y + p.x * -p.x == h;
    assert p.z * p.z - d * (p.t * -p.t) == f;
    FourTimes(0, f);
    FourTimes(0, h);
    CongRefl(q, 2);
    CongMul(q, 2, 2, h, f);
    CongRefl(q, 2 * g);
    CongMul(q, 2 * g, 2 * g, 2 * h, 2 * f);
    CongTrans(q, s.y, (2 * g) * (2 * h), (2 * g) * (2 * f));
    CongSym(q, s.z, (2 * f) * (2 * g));
    assert (2 * g) * (2 * f) == (2 * f) * (2 * g);
    CongTrans(q, s.y, (2 * f) * (2 * g), s.z);
  }

  // ----- the affine law -----

  /** The extended point stands for the affine point (a, b). */
  ghost predicate Represents(q: Modulus, p: Point, a: int, b: int) {
    Cong(q, p.x, p.z * a) && Cong(q, p.y, p.z * b) && Cong(q, p.t, p.z * (a * b))
  }

  lemma ScaledPair(q: Modulus, x: int, z1: int, a: int, y: int, z2: int, b: int)
    requires Cong(q, x, z1 * a) && Cong(q, y, z2 * b)
    ensures Cong(q, x * y, (z1 * z2) * (a * b))
  {
    hide Multiple;
    CongMul(q, x, z1 * a, y, z2 * b);
    assert (z1 * a) * (z2 * b) == (z1 * z2) * (a * b);
  }

  lemma ScaledSum(q: Modulus, x: int, y: int, z: int, a: int, b: int)
    requires Cong(q, x, z * a) && Cong(q, y, z * b)
    ensures Cong(q, x + y, z * (a + b)) && Cong(q, x - y, z * (a - b))
  {
    hide Multiple;
    CongAdd(q, x, z * a, y, z * b);
    assert z * (a + b) == z * a + z * b && z * (a - b) == z * a - z * b;
  }

  lemma DoubledProduct(q: Modulus, e: int, f: int, z: int, a: int, b: int)
    requires Cong(q, e, z * a) && Cong(q, f, z * b)
    ensures Cong(q, (2 * e) * (2 * f), (4 * (z * z)) * (a * b))
  {
    hide Multiple;
    ScaledPair(q, e, z, a, f, z, b);
    CongRefl(q, 4);
    CongMul(q, 4, 4, e * f, (z * z) * (a * b));
    FourTimes(e, f);
    assert 4 * ((z * z) * (a * b)) == (4 * (z * z)) * (a * b);
  }

  lemma CommonFactor(q: Modulus, x: int, y: int, w: int, a: int, b: int, c: int)
    requires Cong(q, x, w * (a * b)) && Cong(q, y, w * (b * c))
    ensures Cong(q, x * c, y * a)
  {
    hide Multiple;
    CongRefl(q, c);
    CongRefl(q, a);
    CongMul(q, x, w * (a * b), c, c);
    CongMul(q, y, w * (b * c), a, a);
    CongSym(q, y * a, w * (b * c) * a);
    assert w * (a * b) * c == w * (b * c) * a;
    CongTrans(q, x * c, w * (a * b) * c, y * a);
  }

  /** The extended addition is the affine addition law of section 5.1 of RFC
      8032: every coordinate is the common scale times its fraction, cleared. */
  lemma AddFollowsTheAffineLaw(q: Modulus, d: int, p: Point, r: Point, a1: int, b1: int, a2: int, b2: int)
    requires Represents(q, p, a1, b1) && Represents(q, r, a2, b2)
    ensures var s, k := EdwardsAdd(q, d, p, r), d * ((a1 * b1) * (a2 * b2));
      var w := 4 * ((p.z * r.z) * (p.z * r.z));
      && Cong(q, s.x, w * ((a1 * b2 + a2 * b1) * (1 - k)))
      && Cong(q, s.y, w * ((1 + k) * (b1 * b2 + a1 * a2)))
      && Cong(q, s.z, w * ((1 - k) * (1 + k)))
      && Cong(q, s.x * (1 + k), s.z * (a1 * b2 + a2 * b1)) && Cong(q, s.y * (1 - k), s.z * (b1 * b2 + a1 * a2))
  {
    hide Multiple, EdwardsAdd;
    var s, m, z := EdwardsAdd(q, d, p, r), (a1 * b1) * (a2 * b2), p.z * r.z;
    var k := d * m;
    SumCoordinates(q, d, p, r);
    ScaledPair(q, p.x, p.z, a1, r.y, r.z, b2);
    ScaledPair(q, r.x, r.z, a2, p.y, p.z, b1);
    ScaledPair(q, p.y, p.z, b1, r.y, r.z, b2);
    ScaledPair(q, p.x, p.z, a1, r.x, r.z, a2);
    ScaledPair(q, p.t, p.z, a1 * b1, r.t, r.z, a2 * b2);
    assert r.z * p.z == z;
    var e, h, v := p.x * r.y + r.x * p.y, p.y * r.y + p.x * r.x, d * (p.t * r.t);
    ScaledSum(q, p.x * r.y, r.x * p.y, z, a1 * b2, a2 * b1);
    ScaledSum(q, p.y * r.y, p.x * r.x, z, b1 * b2, a1 * a2);
    CongRefl(q, d);
    CongMul(q, d, d, p.t * r.t, z * m);
    assert d * (z * m) == z * k;
    CongRefl(q, z);
    ScaledSum(q, z, v, z, 1, k);
    var e', h' := a1 * b2 + a2 * b1, b1 * b2 + a1 * a2;
    DoubledProduct(q, e, z - v, z, e', 1 - k);
    DoubledProduct(q, z + v, h, z, 1 + k, h');
    DoubledProduct(q, z - v, z + v, z, 1 - k, 1 + k);
    var w := 4 * (z * z);
    CongTrans(q, s.x, (2 * e) * (2 * (z - v)), w * (e' * (1 - k)));
    CongTrans(q, s.y, (2 * (z + v)) * (2 * h), w * ((1 + k) * h'));
    CongTrans(q, s.z, (2 * (z - v)) * (2 * (z + v)), w * ((1 - k) * (1 + k)));
    CommonFactor(q, s.x, s.z, w, e', 1 - k, 1 + k);
    assert (1 + k) * h' == h' * (1 + k) && (1 - k) * (1 + k) == (1 + k) * (1 - k);
    CommonFactor(q, s.y, s.z, w, h', 1 + k, 1 - k);
  }

  // ----- completeness: no sum of two points has a vanishing z -----

  ghost predicate IsPrime(q: Modulus) {
    q > 1 && forall n | 1 < n < q :: q % n != 0
  }

  ghost predicate IsRoot(q: Modulus, u: int, a: int) { Cong(q, u * u, a) }

  ghost predicate NonSquare(q: Modulus, a: int) {
    forall u :: !IsRoot(q, u, a)
  }

  /** A prime modulus with a root of -1, and a curve constant without one. */
  ghost predicate IsField(q: Modulus, d: int, i: int) {
    IsPrime(q) && NonSquare(q, d) && IsRoot(q, i, -1)
  }

  /** A point of the curve that has an affine form. */
  ghost predicate IsPoint(q: Modulus, d: int, p: Point) {
    OnCurve(q, d, p) && !Multiple(q, p.z)
  }

  /** Modulo a prime everything but zero has an inverse. */
  lemma {:induction false} InverseOf(q: Modulus, r: int) returns (v: int)
    requires IsPrime(q) && 0 < r < q
    ensures Cong(q, r * v, 1)
    decreases r
  {
    hide Multiple;
    if r == 1 {
      CongRefl(q, 1);
      return 1;
    }
    var s := q % r;
    var w := InverseOf(q, s);
    v := -(q / r) * w;
    InverseStep(q, r, s, w, v);
  }

  lemma InverseStep(q: Modulus, r: int, s: int, w: int, v: int)
    requires 0 < r && s == q % r && v == -(q / r) * w && Cong(q, s * w, 1)
    ensures Cong(q, r * v, 1)
  {
    hide Multiple;
    MultipleIs(q, w * q, w);
    assert r * v == s * w - w * q by {
      assert r * (-(q / r) * w) == -(r * (q / r)) * w;
      assert r * (q / r) == q - s;
      assert -(q - s) * w == s * w - w * q;
    }
    MultipleAdd(q, s * w - 1, w * q);
  }

  lemma Inverse(q: Modulus, a: int) returns (v: int)
    requires IsPrime(q) && !Multiple(q, a)
    ensures Cong(q, a * v, 1)
  {
    MultipleIs(q, a - a % q, a / q);
    v := InverseOf(q, a % q);
    hide Multiple;
    CongMod(q, a);
    CongSym(q, a % q, a);
    CongRefl(q, v);
    CongMul(q, a, a % q, v, v);
    CongTrans(q, a * v, (a % q) * v, 1);
  }

  /** Modulo a prime no product of non-zero factors vanishes. */
  lemma NoZeroDivisors(q: Modulus, a: int, b: int)
    requires IsPrime(q) && !Multiple(q, a) && !Multiple(q, b)
    ensures !Multiple(q, a * b)
  {
    hide Multiple, IsPrime;
    if Multiple(q, a * b) {
      var v := Inverse(q, a);
      MultipleScale(q, a * b, v);
      MultipleScale(q, a * v - 1, b);
      assert v * (a * b) - b * (a * v - 1) == b;
      MultipleAdd(q, v * (a * b), b * (a * v - 1));
    }
  }

  lemma SquareQuotient(q: Modulus, d: int, u: int, w: int) returns (root: int)
    requires IsPrime(q) && !Multiple(q, w) && Cong(q, u * u, d * (w * w))
    ensures IsRoot(q, root, d)
  {
    hide Multiple, IsPrime;
    var v := Inverse(q, w);
    var n := w * v;
    root := u * v;
    CongMul(q, n, 1, n, 1);
    CongRefl(q, v * v);
    CongMul(q, u * u, d * (w * w), v * v, v * v);
    assert u * u * (v * v) == root * root;
    assert d * (w * w) * (v * v) == d * (n * n);
    CongRefl(q, d);
    CongMul(q, d, d, n * n, 1);
    CongTrans(q, root * root, d * (n * n), d);
  }

  lemma NonSquareRatio(q: Modulus, d: int, u: int, w: int)
    requires IsPrime(q) && NonSquare(q, d) && Cong(q, u * u, d * (w * w))
    ensures Multiple(q, w)
  {
    hide Multiple, IsPrime;
    if !Multiple(q, w) {
      var root := SquareQuotient(q, d, u, w);
    }
  }

  lemma MultipleBound(q: Modulus, n: int)
    requires Multiple(q, n) && n > 0
    ensures q <= n
  {
    var k :| n == k * q;
    assert k > 0;
    assert (k - 1) * q >= 0;
  }

  lemma OneIsNotZero(q: Modulus)
    requires q > 1
    ensures !Multiple(q, 1)
  {
    if Multiple(q, 1) {
      MultipleBound(q, 1);
    }
  }

  /** Modulo two everything is its own square. */
  lemma RootModuloTwo(d: int)
    ensures IsRoot(2, d, d)
  {
    var h := d / 2;
    EvenDifference(h);
    if d % 2 == 0 {
      assert d == 2 * h;
      MultipleIs(2, d * d - d, h * (2 * h - 1));
    } else {
      assert d == 2 * h + 1;
      MultipleIs(2, d * d - d, (2 * h + 1) * h);
    }
  }

  lemma EvenDifference(h: int)
    ensures (2 * h) * (2 * h) - 2 * h == h * (2 * h - 1) * 2
    ensures (2 * h + 1) * (2 * h + 1) - (2 * h + 1) == (2 * h + 1) * h * 2
  {
  }

  lemma TwoIsNotZero(q: Modulus, d: int)
    requires IsPrime(q) && NonSquare(q, d)
    ensures !Multiple(q, 2)
  {
    hide Multiple, IsRoot;
    if Multiple(q, 2) {
      MultipleBound(q, 2);
      RootModuloTwo(d);
    }
  }

  /** With a root of -1 the curve equations say what the square of y + i x is. */
  lemma SquareOfRootSum(q: Modulus, d: int, i: int, p: Point, sign: int)
    requires OnCurve(q, d, p) && IsRoot(q, i, -1) && (sign == 1 || sign == -1)
    ensures var n := p.y + sign * (i * p.x);
      Cong(q, n * n, p.z * p.z + d * (p.t * p.t) + 2 * (sign * (i * (p.z * p.t))))
  {
    hide Multiple;
    var n := p.y + sign * (i * p.x);
    var m := p.z * p.z + d * (p.t * p.t);
    CongRefl(q, p.x * p.x);
    CongMul(q, i * i, -1, p.x * p.x, p.x * p.x);
    CongRefl(q, p.y * p.y);
    CongAdd(q, p.y * p.y, p.y * p.y, i * i * (p.x * p.x), -1 * (p.x * p.x));
    CongTrans(q, p.y * p.y + i * i * (p.x * p.x), p.y * p.y - p.x * p.x, m);
    CongRefl(q, 2 * (sign * i));
    CongMul(q, 2 * (sign * i), 2 * (sign * i), p.x * p.y, p.z * p.t);
    CongAdd(q, p.y * p.y + i * i * (p.x * p.x), m, 2 * (sign * i) * (p.x * p.y), 2 * (sign * i) * (p.z * p.t));
    SquareOfSigned(p.x, p.y, i, sign);
    Reassociate(sign, i, p.z * p.t);
  }

  lemma Reassociate(sign: int, i: int, w: int)
    ensures 2 * (sign * i) * w == 2 * (sign * (i * w))
  {
  }

  lemma SquareOfSigned(x: int, y: int, i: int, sign: int)
    requires sign == 1 || sign == -1
    ensures (y + sign * (i * x)) * (y + sign * (i * x)) == y * y + i * i * (x * x) + 2 * (sign * i) * (x * y)
  {
  }

  /** If d t1 t2 met plus or minus z1 z2, then d would relate two squares. */
  lemma MeetingSquares(q: Modulus, d: int, i: int, p: Point, r: Point, eps: int, sign: int)
    requires OnCurve(q, d, p) && OnCurve(q, d, r) && IsRoot(q, i, -1)
    requires (eps == 1 || eps == -1) && (sign == 1 || sign == -1)
    requires Cong(q, d * (p.t * r.t), eps * (p.z * r.z))
    ensures var u, w := r.z * (p.y + sign * eps * (i * p.x)), p.t * (r.y + sign * (i * r.x));
      Cong(q, u * u, d * (w * w))
  {
    hide Multiple, OnCurve, IsRoot;
    var a, b := p.y + sign * eps * (i * p.x), r.y + sign * (i * r.x);
    var a', b' := p.z * p.z + d * (p.t * p.t) + 2 * (sign * eps * (i * (p.z * p.t))),
                  r.z * r.z + d * (r.t * r.t) + 2 * (sign * (i * (r.z * r.t)));
    var u, v := p.z * r.z, d * (p.t * r.t);
    SquareOfRootSum(q, d, i, p, sign * eps);
    SquareOfRootSum(q, d, i, r, sign);
    CongRefl(q, r.z * r.z);
    CongMul(q, r.z * r.z, r.z * r.z, a * a, a');
    CongRefl(q, d * (p.t * p.t));
    CongMul(q, d * (p.t * p.t), d * (p.t * p.t), b * b, b');
    CongMul(q, v, eps * u, v, eps * u);
    var c := 2 * (sign * i) * (p.t * r.z);
    CongRefl(q, c);
    CongMul(q, c, c, v, eps * u);
    CongAdd(q, v * v, eps * u * (eps * u), c * v, c * (eps * u));
    var same := d * (p.t * p.t) * (r.z * r.z);
    CongRefl(q, same);
    CongAdd(q, same, same, v * v + c * v, eps * u * (eps * u) + c * (eps * u));
    LeftSide(p.z, p.t, r.z, d, i, sign, eps);
    RightSide(p.t, r.z, r.t, d, i, sign);
    CongSym(q, d * (p.t * p.t) * b', r.z * r.z * a');
    CongSym(q, d * (p.t * p.t) * (b * b), d * (p.t * p.t) * b');
    CongTrans(q, r.z * r.z * (a * a), r.z * r.z * a', d * (p.t * p.t) * b');
    CongTrans(q, r.z * r.z * (a * a), d * (p.t * p.t) * b', d * (p.t * p.t) * (b * b));
    ProductOfSquares(r.z, a);
    ProductOfSquares(p.t, b);
    assert d * (p.t * p.t) * (b * b) == d * ((p.t * p.t) * (b * b));
  }

  lemma LeftSide(z1: int, t1: int, z2: int, d: int, i: int, sign: int, eps: int)
    requires eps == 1 || eps == -1
    ensures var u, c := z1 * z2, 2 * (sign * i) * (t1 * z2);
      z2 * z2 * (z1 * z1 + d * (t1 * t1) + 2 * (sign * eps * (i * (z1 * t1))))
      == d * (t1 * t1) * (z2 * z2) + (eps * u * (eps * u) + c * (eps * u))
  {
    var u, c := z1 * z2, 2 * (sign * i) * (t1 * z2);
    assert eps * u * (eps * u) == z2 * z2 * (z1 * z1);
    assert c * (eps * u) == z2 * z2 * (2 * (sign * eps * (i * (z1 * t1))));
    assert d * (t1 * t1) * (z2 * z2) == z2 * z2 * (d * (t1 * t1));
    ThreeTerms(z2 * z2, z1 * z1, d * (t1 * t1), 2 * (sign * eps * (i * (z1 * t1))));
  }

  lemma RightSide(t1: int, z2: int, t2: int, d: int, i: int, sign: int)
    ensures var v, c := d * (t1 * t2), 2 * (sign * i) * (t1 * z2);
      d * (t1 * t1) * (z2 * z2 + d * (t2 * t2) + 2 * (sign * (i * (z2 * t2))))
      == d * (t1 * t1) * (z2 * z2) + (v * v + c * v)
  {
    var v, c := d * (t1 * t2), 2 * (sign * i) * (t1 * z2);
    assert v * v == d * (t1 * t1) * (d * (t2 * t2));
    assert c * v == d * (t1 * t1) * (2 * (sign * (i * (z2 * t2))));
    ThreeTerms(d * (t1 * t1), z2 * z2, d * (t2 * t2), 2 * (sign * (i * (z2 * t2))));
  }

  lemma ThreeTerms(m: int, a: int, b: int, c: int)
    ensures m * (a + b + c) == m * a + m * b + m * c
  {
  }

  /** So d t1 t2 meets neither: the heart of completeness. */
  lemma NeverMeets(q: Modulus, d: int, i: int, p: Point, r: Point, eps: int)
    requires IsPrime(q) && NonSquare(q, d) && IsRoot(q, i, -1)
    requires OnCurve(q, d, p) && OnCurve(q, d, r) && !Multiple(q, p.z) && !Multiple(q, r.z)
    requires eps == 1 || eps == -1
    ensures !Cong(q, d * (p.t * r.t), eps * (p.z * r.z))
  {
    hide Multiple, IsPrime, NonSquare, OnCurve, IsRoot;
    var u, v := p.z * r.z, d * (p.t * r.t);
    NoZeroDivisors(q, p.z, r.z);
    if Cong(q, v, eps * u) {
      VanishingProduct(q, d, p.t, r.t, u, eps);
      MeetingSquares(q, d, i, p, r, eps, 1);
      MeetingSquares(q, d, i, p, r, eps, -1);
      var a, b := r.y + 1 * (i * r.x), r.y + -1 * (i * r.x);
      NonSquareRatio(q, d, r.z * (p.y + 1 * eps * (i * p.x)), p.t * a);
      NonSquareRatio(q, d, r.z * (p.y + -1 * eps * (i * p.x)), p.t * b);
      FactorVanishes(q, p.t, a);
      FactorVanishes(q, p.t, b);
      TVanishes(q, d, i, r);
    }
  }

  lemma FactorVanishes(q: Modulus, a: int, b: int)
    requires IsPrime(q) && !Multiple(q, a) && Multiple(q, a * b)
    ensures Multiple(q, b)
  {
    hide Multiple, IsPrime;
    if !Multiple(q, b) {
      NoZeroDivisors(q, a, b);
    }
  }

  lemma VanishingProduct(q: Modulus, d: int, t1: int, t2: int, u: int, eps: int)
    requires Cong(q, d * (t1 * t2), eps * u) && !Multiple(q, u) && (eps == 1 || eps == -1)
    ensures !Multiple(q, t1) && !Multiple(q, t2)
  {
    hide Multiple;
    var v := d * (t1 * t2);
    if Multiple(q, t1) || Multiple(q, t2) {
      if Multiple(q, t1) {
        MultipleScale(q, t1, d * t2);
        assert d * t2 * t1 == v;
      } else {
        MultipleScale(q, t2, d * t1);
        assert d * t1 * t2 == v;
      }
      MultipleAdd(q, v, v - eps * u);
      SignDrops(q, u, eps);
    }
  }

  lemma SignDrops(q: Modulus, u: int, eps: int)
    requires Multiple(q, eps * u) && (eps == 1 || eps == -1)
    ensures Multiple(q, u)
  {
    hide Multiple;
    MultipleScale(q, eps * u, eps);
    assert eps * (eps * u) == u;
  }

  /** If y + i x and y - i x both vanish, so does t. */
  lemma TVanishes(q: Modulus, d: int, i: int, r: Point)
    requires IsPrime(q) && NonSquare(q, d) && IsRoot(q, i, -1) && OnCurve(q, d, r) && !Multiple(q, r.z)
    requires Multiple(q, r.y + 1 * (i * r.x)) && Multiple(q, r.y + -1 * (i * r.x))
    ensures Multiple(q, r.t)
  {
    var a, b := r.y + 1 * (i * r.x), r.y + -1 * (i * r.x);
    var m, n := r.z * r.z + d * (r.t * r.t), i * (r.z * r.t);
    SquareOfRootSum(q, d, i, r, 1);
    SquareOfRootSum(q, d, i, r, -1);
    RootIsNotZero(q, i);
    TwoIsNotZero(q, d);
    hide Multiple, IsPrime, NonSquare, OnCurve;
    MultipleScale(q, a, a);
    MultipleScale(q, b, b);
    MultipleAdd(q, a * a, a * a - (m + 2 * (1 * n)));
    MultipleAdd(q, b * b, b * b - (m + 2 * (-1 * n)));
    MultipleAdd(q, m + 2 * (1 * n), m + 2 * (-1 * n));
    assert m + 2 * (1 * n) - (m + 2 * (-1 * n)) == 2 * (2 * n);
    FactorVanishes(q, 2, 2 * n);
    FactorVanishes(q, 2, n);
    FactorVanishes(q, i, r.z * r.t);
    FactorVanishes(q, r.z, r.t);
  }

  lemma RootIsNotZero(q: Modulus, i: int)
    requires q > 1 && IsRoot(q, i, -1)
    ensures !Multiple(q, i)
  {
    hide Multiple;
    OneIsNotZero(q);
    if Multiple(q, i) {
      MultipleScale(q, i, i);
      MultipleAdd(q, i * i - -1, i * i);
    }
  }

  /** Completeness: modulo a prime, for a non-square d and with a root of -1, the
      sum of two points of the curve whose z do not vanish is another one. */
  lemma AdditionIsComplete(q: Modulus, d: int, i: int, p: Point, r: Point)
    requires IsField(q, d, i) && IsPoint(q, d, p) && IsPoint(q, d, r)
    ensures IsPoint(q, d, EdwardsAdd(q, d, p, r))
  {
    TwoIsNotZero(q, d);
    NeverMeets(q, d, i, p, r, 1);
    NeverMeets(q, d, i, p, r, -1);
    hide Multiple, IsPrime, NonSquare, IsRoot, OnCurve, EdwardsAdd;
    var u, v := p.z * r.z, d * (p.t * r.t);
    var f, g := u - v, u + v;
    var s := EdwardsAdd(q, d, p, r);
    AddStaysOnCurve(q, d, p, r);
    SumCoordinates(q, d, p, r);
    if Multiple(q, f) {
      MultipleScale(q, f, -1);
    }
    NoZeroDivisors(q, 2, f);
    NoZeroDivisors(q, 2, g);
    NoZeroDivisors(q, 2 * f, 2 * g);
    if Multiple(q, s.z) {
      MultipleAdd(q, s.z, s.z - (2 * f) * (2 * g));
    }
  }

  lemma NeutralIsPoint(q: Modulus, d: int)
    requires IsPrime(q)
    ensures IsPoint(q, d, NEUTRAL)
  {
    NeutralIsOnCurve(q, d);
    OneIsNotZero(q);
  }

  /** So the inversion of z that ends every scalar multiplication is defined. */
  lemma {:induction false} MultiplesArePoints(q: Modulus, d: int, i: int, p: Point, e: nat)
    requires IsField(q, d, i) && IsPoint(q, d, p)
    ensures IsPoint(q, d, ScalarMult(q, d, p, e))
  {
    hide EdwardsAdd, IsPrime, NonSquare, IsRoot, IsPoint;
    if e == 0 {
      NeutralIsPoint(q, d);
    } else {
      var half := ScalarMult(q, d, p, e / 2);
      MultiplesArePoints(q, d, i, p, e / 2);
      AdditionIsComplete(q, d, i, half, half);
      AdditionIsComplete(q, d, i, EdwardsAdd(q, d, half, half), p);
    }
  }

  lemma SquareModuloFive(u: int)
    ensures (u * u - 2) % 5 != 0
  {
    var a, b := u / 5, u % 5;
    assert u * u - 2 == 5 * (5 * (a * a) + 2 * (a * b)) + (b * b - 2);
    assert b * b - 2 == -2 || b * b - 2 == -1 || b * b - 2 == 2 || b * b - 2 == 7 || b * b - 2 == 14;
  }

  /** The assumptions can be met: two is no square modulo five, and its square is
      minus one there. */
  lemma FieldOfFive()
    ensures IsField(5, 2, 2)
  {
    MultipleIs(5, 2 * 2 - -1, 1);
    forall u
      ensures !IsRoot(5, u, 2)
    {
      SquareModuloFive(u);
    }
  }

  // ----- what scalar multiplication adds up -----

  /** A bracketed sum of copies of one point. */
  datatype Sum = Empty | Once | Plus(left: Sum, right: Sum)

  function Terms(s: Sum): nat {
    match s
    case Empty => 0
    case Once => 1
    case Plus(l, r) => Terms(l) + Terms(r)
  }

  function Evaluate(q: Modulus, d: int, s: Sum, p: Point): Point {
    match s
    case Empty => NEUTRAL
    case Once => p
    case Plus(l, r) => EdwardsAdd(q, d, Evaluate(q, d, l, p), Evaluate(q, d, r, p))
  }

  /** Double-and-add by `e` is a sum of exactly `e` copies of the point. */
  lemma {:induction false} ScalarMultIsASum(q: Modulus, d: int, p: Point, e: nat) returns (s: Sum)
    ensures Terms(s) == e && Evaluate(q, d, s, p) == ScalarMult(q, d, p, e)
  {
    hide EdwardsAdd;
    if e == 0 {
      s := Empty;
    } else {
      var half := ScalarMultIsASum(q, d, p, e / 2);
      s := Plus(half, half);
      if e % 2 == 1 {
        s := Plus(s, Once);
      }
    }
  }

  // ----- the base point -----

  /** The constant solves the equation that defines it. */
  lemma DIsTheQuotient()
    ensures Cong(Q, 121666 * D, -121665)
  {
    MultipleIs(Q, 121666 * D + 121665, 77955);
  }

  const BX: int := 15112221349535400772501151409588531511454012693041857206046113283949847762202

  const BY: int := 46316835694926478169428394003475163141307993866256225615783033603165251855960

  const BT: int := 46827403850823179245072216630277197565144205554125654976674165829533817101731

  /** The root of -1 that the implementation uses. */
  const ROOT: int := 19681161376707505956807079304988542015446066515923890162744021073123829784752

  lemma RootOfMinusOne()
    ensures IsRoot(Q, ROOT, -1)
  {
    MultipleIs(Q, ROOT * ROOT - -1,
               6690407189080634018507799843845558368979872843924222843531373839242004886245);
  }

  /** The base point of RFC 8032, section 5.1: y is 4/5 and x is even. */
  const BASE := Point(BX, BY, 1, BT)

  lemma BaseIsOnCurve()
    ensures OnCurve(Q, D, BASE) && Cong(Q, 5 * BY, 4) && BX % 2 == 0 && BT == (BX * BY) % Q
  {
    MultipleIs(Q, BY * BY - BX * BX - (1 * 1 + D * (BT * BT)),
               -24267554473070260508794417955681991313207248435331626807251158821141277865851 * Q
               + 33526016929463085730181834460230488879914040311925060929054845066397237244159);
    MultipleIs(Q, BX * BY - 1 * BT, 12089777079628320618000921127670825209163210154433485764836890627159878209761);
    MultipleIs(Q, 5 * BY - 4, 4);
    assert 0 <= BT < Q;
    assert BX * BY == 12089777079628320618000921127670825209163210154433485764836890627159878209761 * Q + BT;
  }
}

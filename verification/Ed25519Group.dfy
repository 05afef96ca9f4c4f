/** The points of the curve are a group: the addition is associative, and so a
    scalar multiple does not depend on how its sum is bracketed. */
module Ed25519Group {
  import opened Ed25519

  // ----- the polynomial core of associativity -----

  /** u = y + x, w = y - x, t = x y and n = x^2 + y^2 of an affine point. */
  datatype Split = Split(u: int, w: int, t: int, n: int)

  predicate Fits(p: Split) {
    p.u * p.u == p.n + 2 * p.t && p.w * p.w == p.n - 2 * p.t
  }

  /** What the curve equation u w = 1 + d t^2 misses. */
  function Defect(d: int, p: Split): int { p.u * p.w - 1 - d * (p.t * p.t) }

  /** Twice the numerator of (p1 + p2) + p3, of x for sign 1 and of y for -1. */
  function Num(s: int, d: int, p1: Split, p2: Split, p3: Split): int {
    var k := d * (p1.t * p2.t);
    p3.u * (p1.u * p2.u + k * (p1.w * p2.w)) - s * (p3.w * (p1.w * p2.w + k * (p1.u * p2.u)))
  }

  function Den(s: int, d: int, p1: Split, p2: Split, p3: Split): int {
    var k := d * (p1.t * p2.t);
    1 - k * k + s * (d * ((p1.t * p2.n + p2.t * p1.n) * p3.t))
  }

  /** The terms of a cross product that do not hold the carry of the middle point. */
  lemma Difference(c: int, k: int, k': int, r: int, r': int, den: int, den': int)
    ensures (c + k * r) * den' - (c + k' * r') * den == c * (den' - den) + k * r * den' - k' * r' * den
  {
  }

  lemma NumSplits(s: int, d: int, p1: Split, p2: Split, p3: Split)
    ensures var c := p2.u * (p1.u * p3.u) - s * (p2.w * (p1.w * p3.w));
      var r := p2.w * (p1.w * p3.u) - s * (p2.u * (p1.u * p3.w));
      Num(s, d, p1, p2, p3) == c + d * (p1.t * p2.t) * r
  {
    var k := d * (p1.t * p2.t);
    Outer(p3.u, p1.u * p2.u, k, p1.w * p2.w);
    Outer(p3.w, p1.w * p2.w, k, p1.u * p2.u);
    Spread(s, p3.w * (p1.w * p2.w), k, p3.w * (p1.u * p2.u));
    Rotate(p3.u, p1.u, p2.u);
    Rotate(p3.u, p1.w, p2.w);
    Rotate(p3.w, p1.w, p2.w);
    Rotate(p3.w, p1.u, p2.u);
    Gather(k, p2.w * (p1.w * p3.u), s, p2.u * (p1.u * p3.w));
  }

  lemma Outer(a: int, b: int, k: int, c: int)
    ensures a * (b + k * c) == a * b + k * (a * c)
  {
  }

  lemma Spread(s: int, a: int, k: int, b: int)
    ensures s * (a + k * b) == s * a + k * (s * b)
  {
  }

  lemma Rotate(a: int, b: int, c: int)
    ensures a * (b * c) == c * (b * a)
  {
  }

  lemma Gather(k: int, a: int, s: int, b: int)
    ensures k * (a - s * b) == k * a - k * (s * b)
  {
  }

  lemma DenDifference(s: int, d: int, p1: Split, p2: Split, p3: Split)
    ensures Den(s, d, p3, p2, p1) - Den(s, d, p1, p2, p3)
         == d * p2.t * (d * (p1.t * p1.t - p3.t * p3.t) * p2.t + s * (p1.t * p3.n - p3.t * p1.n))
  {
    var k, k' := d * (p1.t * p2.t), d * (p3.t * p2.t);
    SquareTerms(d, p1.t, p2.t, p3.t);
    MiddleTerms(p1.t, p1.n, p2.t, p2.n, p3.t, p3.n);
    ScaleMiddle(s, d, (p3.t * p2.n + p2.t * p3.n) * p1.t, (p1.t * p2.n + p2.t * p1.n) * p3.t,
                p2.t, p1.t * p3.n - p3.t * p1.n);
    SumOfTwo(d * p2.t, d * (p1.t * p1.t - p3.t * p3.t) * p2.t, s * (p1.t * p3.n - p3.t * p1.n));
  }

  lemma SquareTerms(d: int, t1: int, t2: int, t3: int)
    ensures (d * (t1 * t2)) * (d * (t1 * t2)) - (d * (t3 * t2)) * (d * (t3 * t2))
         == d * t2 * (d * (t1 * t1 - t3 * t3) * t2)
  {
  }

  lemma MiddleTerms(t1: int, n1: int, t2: int, n2: int, t3: int, n3: int)
    ensures (t3 * n2 + t2 * n3) * t1 - (t1 * n2 + t2 * n1) * t3 == t2 * (t1 * n3 - t3 * n1)
  {
  }

  lemma ScaleMiddle(s: int, d: int, a: int, b: int, t: int, c: int)
    requires a - b == t * c
    ensures s * (d * a) - s * (d * b) == d * t * (s * c)
  {
    assert s * (d * a) - s * (d * b) == s * (d * (a - b));
    assert s * (d * (t * c)) == d * t * (s * c);
  }

  lemma SumOfTwo(m: int, a: int, b: int)
    ensures m * (a + b) == m * a + m * b
  {
  }

  /** The products of the outer points, and what n1 and n3 do to them. */
  lemma OuterTable(p: Split, r: Split)
    requires Fits(p) && Fits(r)
    ensures p.u * r.u * p.n == p.u * p.w * (p.w * r.u) + 2 * p.t * (p.u * r.u)
    ensures p.u * r.u * r.n == r.u * r.w * (p.u * r.w) + 2 * r.t * (p.u * r.u)
    ensures p.w * r.w * p.n == p.u * p.w * (p.u * r.w) - 2 * p.t * (p.w * r.w)
    ensures p.w * r.w * r.n == r.u * r.w * (p.w * r.u) - 2 * r.t * (p.w * r.w)
  {
    Replace(p.u * r.u, p.n, p.w * p.w, 2 * p.t);
    Replace(p.u * r.u, r.n, r.w * r.w, 2 * r.t);
    Replace(p.w * r.w, p.n, p.u * p.u, -2 * p.t);
    Replace(p.w * r.w, r.n, r.u * r.u, -2 * r.t);
    SquareIn(p.u, r.u, p.w);
    SquareIn(p.u, r.u, r.w);
    SquareIn(p.w, r.w, p.u);
    SquareIn(p.w, r.w, r.u);
  }

  lemma MixedTable(p: Split, r: Split)
    requires Fits(p) && Fits(r)
    ensures p.u * r.w * r.n == r.u * r.w * (p.u * r.u) - 2 * r.t * (p.u * r.w)
    ensures p.w * r.u * p.n == p.u * p.w * (p.u * r.u) - 2 * p.t * (p.w * r.u)
    ensures p.w * r.u * r.n == r.u * r.w * (p.w * r.w) + 2 * r.t * (p.w * r.u)
    ensures p.u * r.w * p.n == p.u * p.w * (p.w * r.w) + 2 * p.t * (p.u * r.w)
  {
    Replace(p.u * r.w, r.n, r.u * r.u, -2 * r.t);
    Replace(p.w * r.u, p.n, p.u * p.u, -2 * p.t);
    Replace(p.w * r.u, r.n, r.w * r.w, 2 * r.t);
    Replace(p.u * r.w, p.n, p.w * p.w, 2 * p.t);
    SquareIn(p.u, r.w, r.u);
    SquareIn(p.w, r.u, p.u);
    SquareIn(p.w, r.u, r.w);
    SquareIn(p.u, r.w, p.w);
  }

  lemma SquareIn(a: int, b: int, c: int)
    ensures a * b * (c * c) == a * c * (c * b) == c * a * (c * b)
    ensures a * b * (c * c) == b * c * (a * c) == c * b * (a * c)
  {
  }

  lemma Replace(a: int, n: int, square: int, rest: int)
    requires n == square + rest
    ensures a * n == a * square + rest * a
  {
  }

  /** The middle point: n2 turns u2 and w2 into each other. */
  lemma MiddleTable(p: Split)
    requires Fits(p)
    ensures p.u * p.n == p.u * p.w * p.w + 2 * p.t * p.u
    ensures p.w * p.n == p.u * p.w * p.u - 2 * p.t * p.w
  {
    Replace(p.u, p.n, p.w * p.w, 2 * p.t);
    Replace(p.w, p.n, p.u * p.u, -2 * p.t);
  }

  /** What multiplies u2 and w2 without t2, and with one t2. */
  lemma ConstantOfU(d: int, t1: int, n1: int, m1: int, t3: int, n3: int, m3: int, g: int, a: int, b: int)
    requires g * n1 == m1 * a + 2 * t1 * g && g * n3 == m3 * b + 2 * t3 * g
    ensures g * (t1 * n3 - t3 * n1) - t1 * b + t3 * a + d * (t1 * t3) * (t1 * a - t3 * b)
         == t1 * b * (m3 - 1 - d * (t3 * t3)) - t3 * a * (m1 - 1 - d * (t1 * t1))
  {
    assert g * (t1 * n3 - t3 * n1) == t1 * (g * n3) - t3 * (g * n1);
    assert t1 * (m3 * b + 2 * t3 * g) - t3 * (m1 * a + 2 * t1 * g) == t1 * b * m3 - t3 * a * m1;
    Lambda(d, t1, t3, a, b);
    LastDefect(t1 * b, m3, d * (t3 * t3));
    LastDefect(t3 * a, m1, d * (t1 * t1));
  }

  lemma Lambda(d: int, t1: int, t3: int, a: int, b: int)
    ensures d * (t1 * t3) * (t1 * a - t3 * b) == t3 * a * (d * (t1 * t1)) - t1 * b * (d * (t3 * t3))
    ensures d * (t1 * t3) * (t3 * a - t1 * b) == t1 * a * (d * (t3 * t3)) - t3 * b * (d * (t1 * t1))
  {
    var f := d * (t1 * t3);
    Distribute(f, t1 * a, t3 * b);
    Distribute(f, t3 * a, t1 * b);
    Pull(d, t1, t3, a);
    Pull(d, t1, t3, b);
  }

  lemma Pull(d: int, t1: int, t3: int, a: int)
    ensures d * (t1 * t3) * (t1 * a) == t3 * a * (d * (t1 * t1))
    ensures d * (t1 * t3) * (t3 * a) == t1 * a * (d * (t3 * t3))
  {
  }

  lemma LastDefect(a: int, m: int, x: int)
    ensures a * (m - 1 - x) == a * m - a - a * x
  {
  }

  lemma ConstantOfW(d: int, t1: int, n1: int, m1: int, t3: int, n3: int, m3: int, h: int, a: int, b: int)
    requires h * n1 == m1 * b - 2 * t1 * h && h * n3 == m3 * a - 2 * t3 * h
    ensures -h * (t1 * n3 - t3 * n1) + t1 * a - t3 * b + d * (t1 * t3) * (t3 * a - t1 * b)
         == t3 * b * (m1 - 1 - d * (t1 * t1)) - t1 * a * (m3 - 1 - d * (t3 * t3))
  {
    assert -h * (t1 * n3 - t3 * n1) == t3 * (h * n1) - t1 * (h * n3);
    assert t3 * (m1 * b - 2 * t1 * h) - t1 * (m3 * a - 2 * t3 * h) == t3 * b * m1 - t1 * a * m3;
    Lambda(d, t1, t3, a, b);
    LastDefect(t1 * a, m3, d * (t3 * t3));
    LastDefect(t3 * b, m1, d * (t1 * t1));
  }

  lemma LinearOfU(d: int, t1: int, n1: int, m1: int, t3: int, n3: int, m3: int, g: int, a: int, b: int)
    requires b * n3 == m3 * g - 2 * t3 * b && a * n1 == m1 * g - 2 * t1 * a
    ensures g * (t1 * t1 - t3 * t3) - t1 * t1 * (b * n3) + t3 * t3 * (a * n1) + 2 * (t1 * t3) * (t3 * a - t1 * b)
         == g * (t3 * t3 * (m1 - 1 - d * (t1 * t1)) - t1 * t1 * (m3 - 1 - d * (t3 * t3)))
  {
    assert t1 * t1 * (m3 * g - 2 * t3 * b) == t1 * t1 * (m3 * g) - 2 * (t1 * t3) * (t1 * b);
    assert t3 * t3 * (m1 * g - 2 * t1 * a) == t3 * t3 * (m1 * g) - 2 * (t1 * t3) * (t3 * a);
    TwoDefects(d, t1, m1, t3, m3, g);
  }

  lemma TwoDefects(d: int, t1: int, m1: int, t3: int, m3: int, g: int)
    ensures g * (t3 * t3 * (m1 - 1 - d * (t1 * t1)) - t1 * t1 * (m3 - 1 - d * (t3 * t3)))
         == t3 * t3 * (m1 * g) - t1 * t1 * (m3 * g) + g * (t1 * t1 - t3 * t3)
  {
    assert t3 * t3 * (m1 - 1 - d * (t1 * t1)) - t1 * t1 * (m3 - 1 - d * (t3 * t3))
        == t3 * t3 * m1 - t1 * t1 * m3 + (t1 * t1 - t3 * t3);
  }

  lemma LinearOfW(d: int, t1: int, n1: int, m1: int, t3: int, n3: int, m3: int, h: int, a: int, b: int)
    requires a * n3 == m3 * h + 2 * t3 * a && b * n1 == m1 * h + 2 * t1 * b
    ensures -h * (t1 * t1 - t3 * t3) + t1 * t1 * (a * n3) - t3 * t3 * (b * n1) - 2 * (t1 * t3) * (t1 * a - t3 * b)
         == h * (t1 * t1 * (m3 - 1 - d * (t3 * t3)) - t3 * t3 * (m1 - 1 - d * (t1 * t1)))
  {
    assert t1 * t1 * (m3 * h + 2 * t3 * a) == t1 * t1 * (m3 * h) + 2 * (t1 * t3) * (t1 * a);
    assert t3 * t3 * (m1 * h + 2 * t1 * b) == t3 * t3 * (m1 * h) + 2 * (t1 * t3) * (t3 * b);
    TwoDefects(d, t1, m1, t3, m3, -h);
    assert -h * (t1 * t1 - t3 * t3) == -(h * (t1 * t1 - t3 * t3));
  }

  // ----- putting the pieces together -----

  /** The part of a denominator without n2. */
  function Rest(s: int, d: int, t1: int, t2: int, t3: int, n: int): int {
    1 - d * (t1 * t2) * (d * (t1 * t2)) + s * (d * (t2 * (t3 * n)))
  }

  lemma DenSplits(s: int, d: int, p1: Split, p2: Split, p3: Split)
    ensures Den(s, d, p1, p2, p3) == Rest(s, d, p1.t, p2.t, p3.t, p1.n) + s * (d * (p1.t * p3.t)) * p2.n
  {
    assert (p1.t * p2.n + p2.t * p1.n) * p3.t == p1.t * p3.t * p2.n + p2.t * (p3.t * p1.n);
    SumOfTwo(d, p1.t * p3.t * p2.n, p2.t * (p3.t * p1.n));
    SumOfTwo(s, d * (p1.t * p3.t * p2.n), d * (p2.t * (p3.t * p1.n)));
    assert s * (d * (p1.t * p3.t * p2.n)) == s * (d * (p1.t * p3.t)) * p2.n;
  }

  lemma RestTerm(s: int, c: int, d: int, t1: int, t2: int, t3: int, n: int)
    requires s == 1 || s == -1
    ensures s * (c * Rest(s, d, t1, t2, t3, n))
         == s * c - s * (c * (d * (t1 * t1))) * (d * (t2 * t2)) + d * t2 * (t3 * (c * n))
  {
    var k, w := d * (t1 * t2), d * (t2 * (t3 * n));
    assert k * k == d * (t1 * t1) * (d * (t2 * t2));
    ThreeTerms(c, 1, -(k * k), s * w);
    assert c * -(k * k) == -(c * (d * (t1 * t1)) * (d * (t2 * t2)));
    assert s * (c * (s * w)) == c * w;
    assert c * w == d * t2 * (t3 * (c * n));
    ThreeTerms(s, c, -(c * (d * (t1 * t1)) * (d * (t2 * t2))), c * (s * w));
    assert s * -(c * (d * (t1 * t1)) * (d * (t2 * t2))) == -(s * (c * (d * (t1 * t1))) * (d * (t2 * t2)));
  }

  /** All that multiplies u2, once n2 is gone. */
  lemma BracketOfU(s: int, d: int, t1: int, n1: int, m1: int, t2: int, m2: int, t3: int, n3: int, m3: int,
                   g: int, a: int, b: int)
    requires s == 1 || s == -1
    requires g * n1 == m1 * a + 2 * t1 * g && g * n3 == m3 * b + 2 * t3 * g
    requires b * n3 == m3 * g - 2 * t3 * b && a * n1 == m1 * g - 2 * t1 * a
    ensures var lambda', kappa := d * (t1 * t3) * (t1 * a - t3 * b), d * (t1 * t3) * (t3 * a - t1 * b);
      var e1, e2, e3 := m1 - 1 - d * (t1 * t1), m2 - 1 - d * (t2 * t2), m3 - 1 - d * (t3 * t3);
      g * (d * (t1 * t1 - t3 * t3) * t2 + s * (t1 * n3 - t3 * n1))
        - s * (t1 * b * Rest(s, d, t3, t2, t1, n3)) + s * (t3 * a * Rest(s, d, t1, t2, t3, n1))
        + s * (lambda' * m2) + 2 * (t2 * kappa)
      == s * (t1 * b * e3 - t3 * a * e1) + d * t2 * (g * (t3 * t3 * e1 - t1 * t1 * e3)) + s * (lambda' * e2)
  {
    hide Rest;
    var lambda', kappa := d * (t1 * t3) * (t1 * a - t3 * b), d * (t1 * t3) * (t3 * a - t1 * b);
    var e1, e2, e3 := m1 - 1 - d * (t1 * t1), m2 - 1 - d * (t2 * t2), m3 - 1 - d * (t3 * t3);
    var c0, sq := t1 * n3 - t3 * n1, d * (t2 * t2);
    RestTerm(s, t1 * b, d, t3, t2, t1, n3);
    RestTerm(s, t3 * a, d, t1, t2, t3, n1);
    ConstantOfU(d, t1, n1, m1, t3, n3, m3, g, a, b);
    LinearOfU(d, t1, n1, m1, t3, n3, m3, g, a, b);
    Lambda(d, t1, t3, a, b);
    // the constant, the linear and the quadratic part in t2
    var p, x, l := t1 * b * (d * (t3 * t3)), t3 * a * (d * (t1 * t1)), d * (t1 * t1 - t3 * t3) * t2;
    var y1, y3, z := d * t2 * (t1 * (t1 * b * n3)), d * t2 * (t3 * (t3 * a * n1)), 2 * (t2 * kappa);
    LastDefect(lambda', m2, sq);
    QuadraticCancels(s, lambda', x, p, sq);
    LinearParts(d, t2, g, t1, n3, b, t3, n1, a, t3 * a - t1 * b);
    SpreadFour(s, g * c0, t1 * b, t3 * a, lambda');
    assert g * (s * c0) == s * (g * c0);
    SumOfTwo(g, l, s * c0);
    SumOfThree(s, lambda' * m2, lambda', lambda' * sq);
    assert g * (l + s * c0) == g * l + s * (g * c0);
    assert s * (g * c0 - t1 * b + t3 * a + lambda') == s * (t1 * b * e3 - t3 * a * e1);
    assert g * l - y1 + y3 + z == d * t2 * (g * (t3 * t3 * e1 - t1 * t1 * e3));
    assert s * (lambda' * e2) == s * (lambda' * m2) - s * lambda' - s * (lambda' * sq);
  }

  lemma QuadraticCancels(s: int, lambda': int, x: int, p: int, sq: int)
    requires lambda' == x - p
    ensures s * p * sq - s * x * sq + s * (lambda' * sq) == 0
  {
    assert lambda' * sq == x * sq - p * sq;
    assert s * (x * sq - p * sq) == s * x * sq - s * p * sq;
  }

  lemma LinearParts(d: int, t2: int, g: int, t1: int, n3: int, b: int, t3: int, n1: int, a: int, w: int)
    ensures g * (d * (t1 * t1 - t3 * t3) * t2) - d * t2 * (t1 * (t1 * b * n3)) + d * t2 * (t3 * (t3 * a * n1))
            + 2 * (t2 * (d * (t1 * t3) * w))
         == d * t2 * (g * (t1 * t1 - t3 * t3) - t1 * t1 * (b * n3) + t3 * t3 * (a * n1)
                      + 2 * (t1 * t3) * w)
  {
    var k := d * t2;
    PullOut(g, d, t1 * t1 - t3 * t3, t2);
    PullSquare(t1, b, n3);
    PullSquare(t3, a, n1);
    PullTwice(t2, d, t1 * t3, w);
    SpreadFour(k, g * (t1 * t1 - t3 * t3), t1 * t1 * (b * n3), t3 * t3 * (a * n1), 2 * (t1 * t3) * w);
  }

  lemma PullOut(g: int, d: int, x: int, t: int)
    ensures g * (d * x * t) == d * t * (g * x)
  {
  }

  lemma PullSquare(t: int, b: int, n: int)
    ensures t * (t * b * n) == t * t * (b * n)
  {
  }

  lemma PullTwice(t: int, d: int, f: int, w: int)
    ensures 2 * (t * (d * f * w)) == d * t * (2 * f * w)
  {
  }

  lemma SpreadFour(k: int, a: int, b: int, c: int, e: int)
    ensures k * (a - b + c + e) == k * a - k * b + k * c + k * e
  {
  }

  lemma SumOfThree(s: int, a: int, b: int, c: int)
    ensures s * (a - b - c) == s * a - s * b - s * c
  {
  }

  /** All that multiplies w2, once n2 is gone. */
  lemma BracketOfW(s: int, d: int, t1: int, n1: int, m1: int, t2: int, m2: int, t3: int, n3: int, m3: int,
                   h: int, a: int, b: int)
    requires s == 1 || s == -1
    requires h * n1 == m1 * b - 2 * t1 * h && h * n3 == m3 * a - 2 * t3 * h
    requires a * n3 == m3 * h + 2 * t3 * a && b * n1 == m1 * h + 2 * t1 * b
    ensures var lambda', kappa := d * (t1 * t3) * (t1 * a - t3 * b), d * (t1 * t3) * (t3 * a - t1 * b);
      var e1, e2, e3 := m1 - 1 - d * (t1 * t1), m2 - 1 - d * (t2 * t2), m3 - 1 - d * (t3 * t3);
      s * (-h * (d * (t1 * t1 - t3 * t3) * t2 + s * (t1 * n3 - t3 * n1)))
        + t1 * a * Rest(s, d, t3, t2, t1, n3) - t3 * b * Rest(s, d, t1, t2, t3, n1)
        + kappa * m2 - 2 * (s * (t2 * lambda'))
      == t3 * b * e1 - t1 * a * e3 + s * (d * t2 * (h * (t1 * t1 * e3 - t3 * t3 * e1))) + kappa * e2
  {
    hide Rest;
    var lambda', kappa := d * (t1 * t3) * (t1 * a - t3 * b), d * (t1 * t3) * (t3 * a - t1 * b);
    var e1, e2, e3 := m1 - 1 - d * (t1 * t1), m2 - 1 - d * (t2 * t2), m3 - 1 - d * (t3 * t3);
    var c0, sq, k := t1 * n3 - t3 * n1, d * (t2 * t2), d * t2;
    PlainRestTerm(s, t1 * a, d, t3, t2, t1, n3);
    PlainRestTerm(s, t3 * b, d, t1, t2, t3, n1);
    ConstantOfW(d, t1, n1, m1, t3, n3, m3, h, a, b);
    LinearOfW(d, t1, n1, m1, t3, n3, m3, h, a, b);
    Lambda(d, t1, t3, a, b);
    LastDefect(kappa, m2, sq);
    var p, x := t1 * a * (d * (t3 * t3)), t3 * b * (d * (t1 * t1));
    Distribute(sq, p, x);
    LinearParts(d, t2, h, t1, n3, a, t3, n1, b, t1 * a - t3 * b);
    var l := d * (t1 * t1 - t3 * t3) * t2;
    var y1, y3, z := k * (t1 * (t1 * a * n3)), k * (t3 * (t3 * b * n1)), 2 * (t2 * lambda');
    SignedSum(s, h, l, c0);
    SpreadSigned(s, h * l, y1, y3, z);
    assert 2 * (s * (t2 * lambda')) == s * z;
    var v := h * (t1 * t1 - t3 * t3) - t1 * t1 * (a * n3) + t3 * t3 * (b * n1) + 2 * (t1 * t3) * (t1 * a - t3 * b);
    var v' := h * (t1 * t1 * e3 - t3 * t3 * e1);
    NegatedProduct(h, t1 * t1 - t3 * t3);
    assert v' == -v;
    NegatedProduct(k, v);
    NegatedProduct(s, k * v);
    Commute(kappa, sq);
    Commute(p, sq);
    Commute(x, sq);
  }

  lemma Commute(a: int, b: int)
    ensures a * b == b * a
  {
  }

  lemma PlainRestTerm(s: int, c: int, d: int, t1: int, t2: int, t3: int, n: int)
    requires s == 1 || s == -1
    ensures c * Rest(s, d, t1, t2, t3, n)
         == c - c * (d * (t1 * t1)) * (d * (t2 * t2)) + s * (d * t2 * (t3 * (c * n)))
  {
    hide Rest;
    RestTerm(s, c, d, t1, t2, t3, n);
    SignTwice(s, c * Rest(s, d, t1, t2, t3, n));
    SignedDifference(s, s * c, s * (c * (d * (t1 * t1))) * (d * (t2 * t2)), d * t2 * (t3 * (c * n)));
    SignTwice(s, c);
    SignTwice(s, c * (d * (t1 * t1)) * (d * (t2 * t2)));
    assert s * (c * (d * (t1 * t1))) * (d * (t2 * t2)) == s * (c * (d * (t1 * t1)) * (d * (t2 * t2)));
  }

  lemma SignedSum(s: int, h: int, l: int, c0: int)
    requires s == 1 || s == -1
    ensures s * (-h * (l + s * c0)) == -(s * (h * l)) - h * c0
  {
  }

  lemma SpreadSigned(s: int, a: int, b: int, c: int, e: int)
    ensures s * (a - b + c + e) == s * a - s * b + s * c + s * e
  {
  }

  lemma NegatedProduct(k: int, a: int)
    ensures k * -a == -(k * a) == -k * a
  {
  }

  lemma SignTwice(s: int, a: int)
    requires s == 1 || s == -1
    ensures s * (s * a) == a
  {
  }

  lemma SignedDifference(s: int, a: int, b: int, c: int)
    ensures s * (a - b + c) == s * a - s * b + s * c
  {
  }

  /** What the cross product of the two bracketings leaves over, beside d t2:
      every term holds the defect of one of the points. */
  function Leftover(s: int, d: int, p1: Split, p2: Split, p3: Split): int {
    var g, h, a, b := p1.u * p3.u, p1.w * p3.w, p1.w * p3.u, p1.u * p3.w;
    var lambda' := d * (p1.t * p3.t) * (p1.t * a - p3.t * b);
    var kappa := d * (p1.t * p3.t) * (p3.t * a - p1.t * b);
    var e1, e2, e3 := Defect(d, p1), Defect(d, p2), Defect(d, p3);
    var t1, t3 := p1.t, p3.t;
    p2.u * (s * (t1 * b * e3 - t3 * a * e1) + d * p2.t * (g * (t3 * t3 * e1 - t1 * t1 * e3)) + s * (lambda' * e2))
    + p2.w * (t3 * b * e1 - t1 * a * e3 + s * (d * p2.t * (h * (t1 * t1 * e3 - t3 * t3 * e1))) + kappa * e2)
  }

  lemma HeadTerm(u: int, g: int, s: int, w: int, h: int, x: int)
    ensures (u * g - s * (w * h)) * x == u * (g * x) + w * (s * (-h * x))
  {
  }

  lemma SideTerm(t: int, w: int, a: int, s: int, u: int, b: int, r: int)
    ensures t * (w * a - s * (u * b)) * r == w * (t * a * r) - u * (s * (t * b * r))
  {
  }

  lemma TailTerm(s: int, f: int, n: int, u: int, w: int, m: int, t2: int, t1: int, a: int, t3: int, b: int)
    requires s == 1 || s == -1
    requires u * n == m * w + 2 * t2 * u && w * n == m * u - 2 * t2 * w
    ensures var lambda', kappa := f * (t1 * a - t3 * b), f * (t3 * a - t1 * b);
      s * f * n * (t1 * (w * a - s * (u * b)) - t3 * (w * b - s * (u * a)))
      == u * (s * (lambda' * m)) + u * (2 * (t2 * kappa)) + w * (kappa * m) - w * (2 * (s * (t2 * lambda')))
  {
    var x, y := t1 * a - t3 * b, t3 * a - t1 * b;
    TwoSides(t1, w, a, s, u, b, t3);
    SpreadTail(s * f, n, w * x, s * (u * y));
    MoveIn(n, w, x);
    SignPast(s, f, n, u, y);
    assert s * f * (n * (w * x)) == s * f * ((m * u - 2 * t2 * w) * x);
    assert s * f * (n * (s * (u * y))) == f * ((m * w + 2 * t2 * u) * y);
    OpenU(s, f, m, u, t2, w, x);
    OpenW(f, m, w, t2, u, y);
  }

  lemma MoveIn(n: int, w: int, x: int)
    ensures n * (w * x) == w * n * x
  {
  }

  lemma SignPast(s: int, f: int, n: int, u: int, y: int)
    requires s == 1 || s == -1
    ensures s * f * (n * (s * (u * y))) == f * (u * n * y)
  {
  }

  lemma TwoSides(t1: int, w: int, a: int, s: int, u: int, b: int, t3: int)
    ensures t1 * (w * a - s * (u * b)) - t3 * (w * b - s * (u * a))
         == w * (t1 * a - t3 * b) + s * (u * (t3 * a - t1 * b))
  {
  }

  lemma SpreadTail(k: int, n: int, a: int, b: int)
    ensures k * n * (a + b) == k * (n * a) + k * (n * b)
  {
  }

  lemma OpenU(s: int, f: int, m: int, u: int, t: int, w: int, x: int)
    ensures s * f * ((m * u - 2 * t * w) * x) == u * (s * (f * x * m)) - w * (2 * (s * (t * (f * x))))
  {
    assert (m * u - 2 * t * w) * x == u * (x * m) - w * (2 * (t * x));
    assert s * f * (u * (x * m)) == u * (s * (f * x * m));
    assert s * f * (w * (2 * (t * x))) == w * (2 * (s * (t * (f * x))));
    Distribute(s * f, u * (x * m), w * (2 * (t * x)));
  }

  lemma OpenW(f: int, m: int, w: int, t: int, u: int, y: int)
    ensures f * ((m * w + 2 * t * u) * y) == w * (f * y * m) + u * (2 * (t * (f * y)))
  {
    assert (m * w + 2 * t * u) * y == w * (y * m) + u * (2 * (t * y));
    assert f * (w * (y * m)) == w * (f * y * m);
    assert f * (u * (2 * (t * y))) == u * (2 * (t * (f * y)));
    SumOfTwo(f, w * (y * m), u * (2 * (t * y)));
  }

  lemma FactorOut(d: int, t2: int, c: int, x: int, t1: int, r: int, den': int, t3: int, r': int, den: int)
    ensures c * (d * t2 * x) + d * (t1 * t2) * r * den' - d * (t3 * t2) * r' * den
         == d * t2 * (c * x + t1 * r * den' - t3 * r' * den)
  {
    var k := d * t2;
    assert c * (k * x) == k * (c * x);
    assert d * (t1 * t2) * r * den' == k * (t1 * r * den');
    assert d * (t3 * t2) * r' * den == k * (t3 * r' * den);
    assert k * (c * x + t1 * r * den' - t3 * r' * den) == k * (c * x) + k * (t1 * r * den') - k * (t3 * r' * den);
  }

  lemma SixTerms(u: int, a: int, b: int, c: int, e: int, f: int)
    ensures u * (a - b + c + e + f) == u * a - u * b + u * c + u * e + u * f
    ensures u * (a + b - c + e - f) == u * a + u * b - u * c + u * e - u * f
  {
  }

  /** The two bracketings agree but for the defects. */
  lemma CrossProducts(s: int, d: int, p1: Split, p2: Split, p3: Split)
    requires (s == 1 || s == -1) && Fits(p1) && Fits(p2) && Fits(p3)
    ensures Num(s, d, p1, p2, p3) * Den(s, d, p3, p2, p1) - Num(s, d, p3, p2, p1) * Den(s, d, p1, p2, p3)
         == d * p2.t * Leftover(s, d, p1, p2, p3)
  {
    hide Num, Den, Rest;
    var t1, t2, t3, n1, n2, n3 := p1.t, p2.t, p3.t, p1.n, p2.n, p3.n;
    var u, w, m1, m2, m3 := p2.u, p2.w, p1.u * p1.w, p2.u * p2.w, p3.u * p3.w;
    var g, h, a, b := p1.u * p3.u, p1.w * p3.w, p1.w * p3.u, p1.u * p3.w;
    var f := d * (t1 * t3);
    var x := d * (t1 * t1 - t3 * t3) * t2 + s * (t1 * n3 - t3 * n1);
    var al, al' := Rest(s, d, t1, t2, t3, n1), Rest(s, d, t3, t2, t1, n3);
    var r, r' := w * a - s * (u * b), w * b - s * (u * a);
    var c := u * g - s * (w * h);
    var den, den' := Den(s, d, p1, p2, p3), Den(s, d, p3, p2, p1);
    NumSplits(s, d, p1, p2, p3);
    NumSplits(s, d, p3, p2, p1);
    Difference(c, d * (t1 * t2), d * (t3 * t2), r, r', den, den');
    DenDifference(s, d, p1, p2, p3);
    FactorOut(d, t2, c, x, t1, r, den', t3, r', den);
    DenSplits(s, d, p1, p2, p3);
    DenSplits(s, d, p3, p2, p1);
    OuterTable(p1, p3);
    MixedTable(p1, p3);
    MiddleTable(p2);
    Reach(s, d, t1, n1, m1, t2, n2, m2, t3, n3, m3, u, w, g, h, a, b);
  }

  lemma Reach(s: int, d: int, t1: int, n1: int, m1: int, t2: int, n2: int, m2: int, t3: int, n3: int, m3: int,
              u: int, w: int, g: int, h: int, a: int, b: int)
    requires s == 1 || s == -1
    requires g * n1 == m1 * a + 2 * t1 * g && g * n3 == m3 * b + 2 * t3 * g
    requires h * n1 == m1 * b - 2 * t1 * h && h * n3 == m3 * a - 2 * t3 * h
    requires b * n3 == m3 * g - 2 * t3 * b && a * n1 == m1 * g - 2 * t1 * a
    requires a * n3 == m3 * h + 2 * t3 * a && b * n1 == m1 * h + 2 * t1 * b
    requires u * n2 == m2 * w + 2 * t2 * u && w * n2 == m2 * u - 2 * t2 * w
    ensures var f := d * (t1 * t3);
      var lambda', kappa := f * (t1 * a - t3 * b), f * (t3 * a - t1 * b);
      var e1, e2, e3 := m1 - 1 - d * (t1 * t1), m2 - 1 - d * (t2 * t2), m3 - 1 - d * (t3 * t3);
      var den' := Rest(s, d, t3, t2, t1, n3) + s * (d * (t3 * t1)) * n2;
      var den := Rest(s, d, t1, t2, t3, n1) + s * f * n2;
      (u * g - s * (w * h)) * (d * (t1 * t1 - t3 * t3) * t2 + s * (t1 * n3 - t3 * n1))
        + t1 * (w * a - s * (u * b)) * den' - t3 * (w * b - s * (u * a)) * den
      == u * (s * (t1 * b * e3 - t3 * a * e1) + d * t2 * (g * (t3 * t3 * e1 - t1 * t1 * e3)) + s * (lambda' * e2))
         + w * (t3 * b * e1 - t1 * a * e3 + s * (d * t2 * (h * (t1 * t1 * e3 - t3 * t3 * e1))) + kappa * e2)
  {
    hide Rest;
    var f := d * (t1 * t3);
    var lambda', kappa := f * (t1 * a - t3 * b), f * (t3 * a - t1 * b);
    var x := d * (t1 * t1 - t3 * t3) * t2 + s * (t1 * n3 - t3 * n1);
    var al, al' := Rest(s, d, t1, t2, t3, n1), Rest(s, d, t3, t2, t1, n3);
    var r, r' := w * a - s * (u * b), w * b - s * (u * a);
    assert t3 * t1 == t1 * t3;
    SumOfTwo(t1 * r, al', s * f * n2);
    SumOfTwo(t3 * r', al, s * f * n2);
    assert t1 * r * (s * f * n2) - t3 * r' * (s * f * n2) == s * f * n2 * (t1 * r - t3 * r') by {
      Distribute(s * f * n2, t1 * r, t3 * r');
      Commute(s * f * n2, t1 * r);
      Commute(s * f * n2, t3 * r');
    }
    HeadTerm(u, g, s, w, h, x);
    SideTerm(t1, w, a, s, u, b, al');
    SideTerm(t3, w, b, s, u, a, al);
    TailTerm(s, f, n2, u, w, m2, t2, t1, a, t3, b);
    SixTerms(u, g * x, s * (t1 * b * al'), s * (t3 * a * al), s * (lambda' * m2), 2 * (t2 * kappa));
    SixTerms(w, s * (-h * x), t1 * a * al', t3 * b * al, kappa * m2, 2 * (s * (t2 * lambda')));
    BracketOfU(s, d, t1, n1, m1, t2, m2, t3, n3, m3, g, a, b);
    BracketOfW(s, d, t1, n1, m1, t2, m2, t3, n3, m3, h, a, b);
  }

  // ----- associativity of the affine law -----

  datatype Affine = Affine(x: int, y: int)

  ghost predicate IsAffine(q: Modulus, d: int, p: Affine) {
    Cong(q, p.y * p.y - p.x * p.x, 1 + d * ((p.x * p.y) * (p.x * p.y)))
  }

  function Carry(d: int, p: Affine, r: Affine): int { d * ((p.x * p.y) * (r.x * r.y)) }

  function Cross(p: Affine, r: Affine): int { p.x * r.y + r.x * p.y }

  function Dot(p: Affine, r: Affine): int { p.y * r.y + p.x * r.x }

  /** The rational addition law of the curve, its fractions cleared. */
  ghost predicate AffineSum(q: Modulus, d: int, p: Affine, r: Affine, s: Affine) {
    var k := Carry(d, p, r);
    && Cong(q, s.x * (1 + k), Cross(p, r)) && Cong(q, s.y * (1 - k), Dot(p, r))
    && !Multiple(q, 1 + k) && !Multiple(q, 1 - k)
  }

  function ToSplit(p: Affine): Split {
    Split(p.y + p.x, p.y - p.x, p.x * p.y, p.x * p.x + p.y * p.y)
  }

  lemma SplitFits(q: Modulus, d: int, p: Affine)
    requires IsAffine(q, d, p)
    ensures Fits(ToSplit(p)) && Multiple(q, Defect(d, ToSplit(p)))
  {
    hide Multiple;
    SquaresOfSplit(p.x, p.y);
  }

  lemma SquaresOfSplit(x: int, y: int)
    ensures (y + x) * (y + x) == x * x + y * y + 2 * (x * y)
    ensures (y - x) * (y - x) == x * x + y * y - 2 * (x * y)
    ensures (y + x) * (y - x) == y * y - x * x
  {
  }

  /** The numerator and the denominator of (p + r) + s. */
  lemma NumIs(d: int, p: Affine, r: Affine, s: Affine)
    ensures var k, a, b := Carry(d, p, r), Cross(p, r), Dot(p, r);
      && Num(1, d, ToSplit(p), ToSplit(r), ToSplit(s)) == 2 * (a * (1 - k) * s.y + b * (1 + k) * s.x)
      && Num(-1, d, ToSplit(p), ToSplit(r), ToSplit(s)) == 2 * (b * (1 + k) * s.y + a * (1 - k) * s.x)
  {
    hide Cross, Dot, Carry;
    var k, a, b := Carry(d, p, r), Cross(p, r), Dot(p, r);
    assert k == d * (ToSplit(p).t * ToSplit(r).t) by { CarryIs(d, p, r); }
    UpsAndDowns(p, r);
    assert a + b + k * (b - a) == a * (1 - k) + b * (1 + k);
    assert b - a + k * (a + b) == b * (1 + k) - a * (1 - k);
    TwiceSum(s.x, s.y, a * (1 - k), b * (1 + k));
  }

  lemma CarryIs(d: int, p: Affine, r: Affine)
    ensures Carry(d, p, r) == d * (ToSplit(p).t * ToSplit(r).t)
  {
  }

  lemma UpsAndDowns(p: Affine, r: Affine)
    ensures (p.y + p.x) * (r.y + r.x) == Cross(p, r) + Dot(p, r)
    ensures (p.y - p.x) * (r.y - r.x) == Dot(p, r) - Cross(p, r)
  {
  }

  lemma TwiceSum(x: int, y: int, a: int, b: int)
    ensures (y + x) * (a + b) - 1 * ((y - x) * (b - a)) == 2 * (a * y + b * x)
    ensures (y + x) * (a + b) - -1 * ((y - x) * (b - a)) == 2 * (b * y + a * x)
  {
  }

  lemma DenIs(s: int, d: int, p: Affine, r: Affine, c: Affine)
    ensures var k := Carry(d, p, r);
      Den(s, d, ToSplit(p), ToSplit(r), ToSplit(c)) == 1 - k * k + s * (d * (Cross(p, r) * Dot(p, r) * (c.x * c.y)))
  {
    CrossProduct(p.x, p.y, r.x, r.y);
    CarryIs(d, p, r);
  }

  lemma MultipleOf(q: Modulus, n: int, f: int)
    requires Multiple(q, n)
    ensures Multiple(q, f * n) && Multiple(q, n * f)
  {
    hide Multiple;
    MultipleScale(q, n, f);
    Commute(n, f);
  }

  /** What the second sum's denominator is, over the first one's. */
  lemma SecondCarry(q: Modulus, d: int, p: Affine, r: Affine, x: Affine, c: Affine)
    requires AffineSum(q, d, p, r, x)
    ensures var k := Carry(d, p, r);
      Cong(q, (1 + k) * (1 - k) * Carry(d, x, c), d * (Cross(p, r) * Dot(p, r) * (c.x * c.y)))
  {
    hide Multiple, Carry, Cross, Dot;
    var k, t := Carry(d, p, r), c.x * c.y;
    CongMul(q, x.x * (1 + k), Cross(p, r), x.y * (1 - k), Dot(p, r));
    CongRefl(q, d * t);
    CongMul(q, d * t, d * t, x.x * (1 + k) * (x.y * (1 - k)), Cross(p, r) * Dot(p, r));
    CarryUnfolds(d, x, c);
    ShuffleCarry(d, t, x.x, 1 + k, x.y, 1 - k);
    assert d * t * (Cross(p, r) * Dot(p, r)) == d * (Cross(p, r) * Dot(p, r) * t);
  }

  lemma CarryUnfolds(d: int, p: Affine, r: Affine)
    ensures Carry(d, p, r) == d * (p.x * p.y * (r.x * r.y))
  {
  }

  lemma ShuffleCarry(d: int, t: int, x: int, a: int, y: int, b: int)
    ensures d * t * (x * a * (y * b)) == a * b * (d * (x * y * t))
  {
    assert x * a * (y * b) == a * b * (x * y);
    assert d * t * (a * b * (x * y)) == a * b * (d * (x * y * t));
  }

  lemma Denominators(q: Modulus, d: int, p: Affine, r: Affine, x: Affine, c: Affine, sign: int)
    requires AffineSum(q, d, p, r, x) && (sign == 1 || sign == -1)
    ensures var k := Carry(d, p, r);
      Cong(q, (1 + k) * (1 - k) * (1 + sign * Carry(d, x, c)), Den(sign, d, ToSplit(p), ToSplit(r), ToSplit(c)))
  {
    SecondCarry(q, d, p, r, x, c);
    hide Multiple, Carry, Cross, Dot, Den;
    var k, l := Carry(d, p, r), Carry(d, x, c);
    var e := d * (Cross(p, r) * Dot(p, r) * (c.x * c.y));
    DenIs(sign, d, p, r, c);
    MultipleScale(q, (1 + k) * (1 - k) * l - e, sign);
    DenominatorGap(k, l, e, sign);
  }

  lemma DenominatorGap(k: int, l: int, e: int, sign: int)
    ensures (1 + k) * (1 - k) * (1 + sign * l) - (1 - k * k + sign * e) == sign * ((1 + k) * (1 - k) * l - e)
  {
    assert (1 + k) * (1 - k) == 1 - k * k;
    assert (1 - k * k) * (1 + sign * l) == 1 - k * k + sign * ((1 - k * k) * l);
  }

  /** Twice a coordinate of the result times its denominator is its numerator. */
  lemma TwiceTimesDen(q: Modulus, d: int, p: Affine, r: Affine, x: Affine, c: Affine, l: Affine)
    requires AffineSum(q, d, p, r, x) && AffineSum(q, d, x, c, l)
    ensures var a, b, e := ToSplit(p), ToSplit(r), ToSplit(c);
      Cong(q, 2 * (l.x * Den(1, d, a, b, e)), Num(1, d, a, b, e))
      && Cong(q, 2 * (l.y * Den(-1, d, a, b, e)), Num(-1, d, a, b, e))
  {
    var k, k' := Carry(d, p, r), Carry(d, x, c);
    Denominators(q, d, p, r, x, c, 1);
    Denominators(q, d, p, r, x, c, -1);
    NumIs(d, p, r, c);
    Commute(c.x, x.y);
    Commute(1 + k, 1 - k);
    hide Multiple, Num, Den, Carry;
    var den, den' := Den(1, d, ToSplit(p), ToSplit(r), ToSplit(c)), Den(-1, d, ToSplit(p), ToSplit(r), ToSplit(c));
    Numerator(q, x.x, x.y, 1 + k, 1 - k, Cross(p, r), Dot(p, r), c.x, c.y, l.x, 1 + 1 * k', den);
    Numerator(q, x.y, x.x, 1 - k, 1 + k, Dot(p, r), Cross(p, r), c.x, c.y, l.y, 1 + -1 * k', den');
  }

  lemma Numerator(q: Modulus, x1: int, x2: int, f1: int, f2: int, a1: int, a2: int, cx: int, cy: int,
                  l: int, h: int, den: int)
    requires Cong(q, x1 * f1, a1) && Cong(q, x2 * f2, a2)
    requires Cong(q, l * h, x1 * cy + x2 * cx) && Cong(q, f1 * f2 * h, den)
    ensures Cong(q, 2 * (l * den), 2 * (a1 * f2 * cy + a2 * f1 * cx))
  {
    hide Multiple;
    var m := f1 * f2;
    MultipleOf(q, x1 * f1 - a1, f2 * cy);
    MultipleOf(q, x2 * f2 - a2, f1 * cx);
    MultipleOf(q, l * h - (x1 * cy + x2 * cx), m);
    MultipleOf(q, m * h - den, l);
    MultipleAdd(q, (f2 * cy) * (x1 * f1 - a1), (f1 * cx) * (x2 * f2 - a2));
    MultipleAdd(q, m * (l * h - (x1 * cy + x2 * cx)), l * (m * h - den));
    var first := (f2 * cy) * (x1 * f1 - a1) + (f1 * cx) * (x2 * f2 - a2);
    var second := m * (l * h - (x1 * cy + x2 * cx)) - l * (m * h - den);
    MultipleAdd(q, first, second);
    MultipleScale(q, first + second, 2);
    NumeratorGap(x1, x2, f1, f2, a1, a2, cx, cy, l, h, den);
  }

  lemma NumeratorGap(x1: int, x2: int, f1: int, f2: int, a1: int, a2: int, cx: int, cy: int, l: int, h: int, den: int)
    ensures (f2 * cy) * (x1 * f1 - a1) + (f1 * cx) * (x2 * f2 - a2)
            + (f1 * f2 * (l * h - (x1 * cy + x2 * cx)) - l * (f1 * f2 * h - den))
         == l * den - (a1 * f2 * cy + a2 * f1 * cx)
  {
    assert (f2 * cy) * (x1 * f1 - a1) == f1 * f2 * (x1 * cy) - a1 * f2 * cy;
    assert (f1 * cx) * (x2 * f2 - a2) == f1 * f2 * (x2 * cx) - a2 * f1 * cx;
    assert f1 * f2 * (l * h - (x1 * cy + x2 * cx)) == f1 * f2 * (l * h) - f1 * f2 * (x1 * cy) - f1 * f2 * (x2 * cx);
    assert l * (f1 * f2 * h - den) == f1 * f2 * (l * h) - l * den;
  }

  /** Every term of the leftover holds a defect. */
  lemma LeftoverVanishes(q: Modulus, s: int, d: int, p1: Split, p2: Split, p3: Split)
    requires Multiple(q, Defect(d, p1)) && Multiple(q, Defect(d, p2)) && Multiple(q, Defect(d, p3))
    ensures Multiple(q, Leftover(s, d, p1, p2, p3))
  {
    var g, h, a, b := p1.u * p3.u, p1.w * p3.w, p1.w * p3.u, p1.u * p3.w;
    var lambda' := d * (p1.t * p3.t) * (p1.t * a - p3.t * b);
    var kappa := d * (p1.t * p3.t) * (p3.t * a - p1.t * b);
    var e1, e2, e3, t1, t3 := Defect(d, p1), Defect(d, p2), Defect(d, p3), p1.t, p3.t;
    hide Multiple, Defect;
    MultipleScale(q, e3, t1 * b);
    MultipleScale(q, e1, t3 * a);
    MultipleAdd(q, t1 * b * e3, t3 * a * e1);
    MultipleScale(q, t1 * b * e3 - t3 * a * e1, s);
    MultipleScale(q, e1, t3 * t3);
    MultipleScale(q, e3, t1 * t1);
    MultipleAdd(q, t3 * t3 * e1, t1 * t1 * e3);
    MultipleAdd(q, t1 * t1 * e3, t3 * t3 * e1);
    MultipleScale(q, t3 * t3 * e1 - t1 * t1 * e3, g);
    MultipleScale(q, g * (t3 * t3 * e1 - t1 * t1 * e3), d * p2.t);
    MultipleScale(q, e2, lambda');
    MultipleScale(q, lambda' * e2, s);
    var x1, x2 := s * (t1 * b * e3 - t3 * a * e1), d * p2.t * (g * (t3 * t3 * e1 - t1 * t1 * e3));
    var x3 := s * (lambda' * e2);
    MultipleAdd(q, x1, x2);
    MultipleAdd(q, x1 + x2, x3);
    MultipleScale(q, x1 + x2 + x3, p2.u);
    MultipleScale(q, e1, t3 * b);
    MultipleScale(q, e3, t1 * a);
    MultipleAdd(q, t3 * b * e1, t1 * a * e3);
    MultipleScale(q, t1 * t1 * e3 - t3 * t3 * e1, h);
    MultipleScale(q, h * (t1 * t1 * e3 - t3 * t3 * e1), d * p2.t);
    MultipleScale(q, d * p2.t * (h * (t1 * t1 * e3 - t3 * t3 * e1)), s);
    MultipleScale(q, e2, kappa);
    var y1, y2 := t3 * b * e1 - t1 * a * e3, s * (d * p2.t * (h * (t1 * t1 * e3 - t3 * t3 * e1)));
    MultipleAdd(q, y1, y2);
    MultipleAdd(q, y1 + y2, kappa * e2);
    MultipleScale(q, y1 + y2 + kappa * e2, p2.w);
    MultipleAdd(q, p2.u * (x1 + x2 + x3), p2.w * (y1 + y2 + kappa * e2));
  }

  /** Cross products of two fractions that agree modulo q. */
  lemma CrossProductsAgree(q: Modulus, s: int, d: int, p: Affine, r: Affine, c: Affine)
    requires (s == 1 || s == -1) && IsAffine(q, d, p) && IsAffine(q, d, r) && IsAffine(q, d, c)
    ensures var a, b, e := ToSplit(p), ToSplit(r), ToSplit(c);
      Cong(q, Num(s, d, a, b, e) * Den(s, d, e, b, a), Num(s, d, e, b, a) * Den(s, d, a, b, e))
  {
    hide Multiple, Num, Den, Leftover, Defect;
    var a, b, e := ToSplit(p), ToSplit(r), ToSplit(c);
    SplitFits(q, d, p);
    SplitFits(q, d, r);
    SplitFits(q, d, c);
    CrossProducts(s, d, a, b, e);
    LeftoverVanishes(q, s, d, a, b, e);
    MultipleScale(q, Leftover(s, d, a, b, e), d * b.t);
  }

  lemma EqualFractions(q: Modulus, l: int, r: int, num: int, den: int, num': int, den': int)
    requires IsPrime(q) && !Multiple(q, 2) && !Multiple(q, den) && !Multiple(q, den')
    requires Cong(q, 2 * (l * den), num) && Cong(q, 2 * (r * den'), num') && Cong(q, num * den', num' * den)
    ensures Cong(q, l, r)
  {
    hide Multiple, IsPrime;
    MultipleOf(q, 2 * (l * den) - num, den');
    MultipleOf(q, 2 * (r * den') - num', den);
    MultipleAdd(q, (2 * (l * den) - num) * den', (2 * (r * den') - num') * den);
    MultipleAdd(q, (2 * (l * den) - num) * den' - (2 * (r * den') - num') * den, num * den' - num' * den);
    FractionGap(l, r, num, den, num', den');
    FactorVanishes(q, 2, den * (den' * (l - r)));
    FactorVanishes(q, den, den' * (l - r));
    FactorVanishes(q, den', l - r);
  }

  lemma FractionGap(l: int, r: int, num: int, den: int, num': int, den': int)
    ensures (2 * (l * den) - num) * den' - (2 * (r * den') - num') * den + (num * den' - num' * den)
         == 2 * (den * (den' * (l - r)))
  {
    assert (2 * (l * den) - num) * den' == 2 * (den * (den' * l)) - num * den';
    assert (2 * (r * den') - num') * den == 2 * (den * (den' * r)) - num' * den;
    assert den * (den' * (l - r)) == den * (den' * l) - den * (den' * r);
  }

  lemma AffineSumCommutes(q: Modulus, d: int, p: Affine, r: Affine, s: Affine)
    requires AffineSum(q, d, p, r, s)
    ensures AffineSum(q, d, r, p, s)
  {
    hide Multiple;
    assert p.x * p.y * (r.x * r.y) == r.x * r.y * (p.x * p.y);
    assert Carry(d, p, r) == Carry(d, r, p) && Cross(p, r) == Cross(r, p) && Dot(p, r) == Dot(r, p);
  }

  lemma DenIsNotZero(q: Modulus, d: int, p: Affine, r: Affine, x: Affine, c: Affine, l: Affine, sign: int)
    requires IsPrime(q) && AffineSum(q, d, p, r, x) && AffineSum(q, d, x, c, l) && (sign == 1 || sign == -1)
    ensures !Multiple(q, Den(sign, d, ToSplit(p), ToSplit(r), ToSplit(c)))
  {
    hide Multiple, IsPrime, Den, Carry;
    var k, k' := Carry(d, p, r), Carry(d, x, c);
    Denominators(q, d, p, r, x, c, sign);
    NoZeroDivisors(q, 1 + k, 1 - k);
    NoZeroDivisors(q, (1 + k) * (1 - k), 1 + sign * k');
    var den := Den(sign, d, ToSplit(p), ToSplit(r), ToSplit(c));
    if Multiple(q, den) {
      MultipleAdd(q, den, (1 + k) * (1 - k) * (1 + sign * k') - den);
    }
  }

  /** (p + r) + c and p + (r + c) are the same point. */
  lemma AffineAssociates(q: Modulus, d: int, p: Affine, r: Affine, c: Affine, x: Affine, y: Affine,
                         left: Affine, right: Affine)
    requires IsPrime(q) && !Multiple(q, 2) && IsAffine(q, d, p) && IsAffine(q, d, r) && IsAffine(q, d, c)
    requires AffineSum(q, d, p, r, x) && AffineSum(q, d, x, c, left)
    requires AffineSum(q, d, r, c, y) && AffineSum(q, d, p, y, right)
    ensures Cong(q, left.x, right.x) && Cong(q, left.y, right.y)
  {
    hide Multiple, IsPrime, IsAffine, AffineSum, Num, Den, ToSplit;
    AffineSumCommutes(q, d, r, c, y);
    AffineSumCommutes(q, d, p, y, right);
    var a, b, e := ToSplit(p), ToSplit(r), ToSplit(c);
    TwiceTimesDen(q, d, p, r, x, c, left);
    TwiceTimesDen(q, d, c, r, y, p, right);
    DenIsNotZero(q, d, p, r, x, c, left, 1);
    DenIsNotZero(q, d, p, r, x, c, left, -1);
    DenIsNotZero(q, d, c, r, y, p, right, 1);
    DenIsNotZero(q, d, c, r, y, p, right, -1);
    CrossProductsAgree(q, 1, d, p, r, c);
    CrossProductsAgree(q, -1, d, p, r, c);
    EqualFractions(q, left.x, right.x, Num(1, d, a, b, e), Den(1, d, a, b, e),
                   Num(1, d, e, b, a), Den(1, d, e, b, a));
    EqualFractions(q, left.y, right.y, Num(-1, d, a, b, e), Den(-1, d, a, b, e),
                   Num(-1, d, e, b, a), Den(-1, d, e, b, a));
  }
}

/** Scalar multiplication respects the group: it adds and multiplies scalars, and
    every bracketing of a sum of copies of a point is the same projective point. */
module Ed25519Scalars {
  import opened Ed25519
  import opened Ed25519Group

  ghost predicate Stands(q: Modulus, p: Point, a: Affine) {
    Represents(q, p, a.x, a.y)
  }

  // ----- affine forms -----

  lemma UnitFactor(q: Modulus, a: int, unit: int)
    requires Cong(q, unit, 1)
    ensures Cong(q, a, a * unit) && Cong(q, a * unit, a)
  {
    hide Multiple;
    CongRefl(q, a);
    CongMul(q, a, a, unit, 1);
    CongSym(q, a * unit, a);
  }

  lemma AffineForm(q: Modulus, d: int, p: Point) returns (a: Affine)
    requires IsPrime(q) && IsPoint(q, d, p)
    ensures Stands(q, p, a) && IsAffine(q, d, a)
  {
    var v := Inverse(q, p.z);
    hide Multiple, IsPrime;
    a := Affine(p.x * v, p.y * v);
    UnitFactor(q, p.x, p.z * v);
    UnitFactor(q, p.y, p.z * v);
    Commute3(p.x, p.z, v);
    Commute3(p.y, p.z, v);
    ProductOfForm(q, p.x, p.y, p.z, p.t, v);
    AffineEquation(q, d, p, v);
  }

  lemma Commute3(a: int, b: int, c: int)
    ensures a * (b * c) == b * (a * c)
  {
  }

  /** x y v^2 is congruent to t v when v is the inverse of z. */
  lemma ProductOfForm(q: Modulus, x: int, y: int, z: int, t: int, v: int)
    requires Cong(q, x * y, z * t) && Cong(q, z * v, 1)
    ensures Cong(q, x * v * (y * v), t * v) && Cong(q, t, z * (x * v * (y * v)))
  {
    hide Multiple;
    var xy := x * v * (y * v);
    CongRefl(q, v * v);
    CongMul(q, x * y, z * t, v * v, v * v);
    assert x * y * (v * v) == xy && z * t * (v * v) == t * v * (z * v);
    UnitFactor(q, t * v, z * v);
    CongTrans(q, xy, t * v * (z * v), t * v);
    CongRefl(q, z);
    CongMul(q, z, z, xy, t * v);
    Commute3(z, t, v);
    UnitFactor(q, t, z * v);
    CongTrans(q, z * xy, t * (z * v), t);
    CongSym(q, z * xy, t);
  }

  lemma AffineEquation(q: Modulus, d: int, p: Point, v: int)
    requires OnCurve(q, d, p) && Cong(q, p.z * v, 1) && Cong(q, p.x * v * (p.y * v), p.t * v)
    ensures IsAffine(q, d, Affine(p.x * v, p.y * v))
  {
    hide Multiple;
    var unit, t := p.z * v, p.x * v * (p.y * v);
    var m := p.z * p.z + d * (p.t * p.t);
    CongRefl(q, v * v);
    CongMul(q, p.y * p.y - p.x * p.x, m, v * v, v * v);
    CongMul(q, unit, 1, unit, 1);
    CongMul(q, t, p.t * v, t, p.t * v);
    CongRefl(q, d);
    CongMul(q, d, d, t * t, p.t * v * (p.t * v));
    CongAdd(q, unit * unit, 1, d * (t * t), d * (p.t * v * (p.t * v)));
    CongSym(q, d * (t * t), d * (p.t * v * (p.t * v)));
    CongAdd(q, unit * unit, 1, d * (p.t * v * (p.t * v)), d * (t * t));
    ScaledEquation(p.x, p.y, p.z, p.t, v, d);
    CongTrans(q, (p.y * p.y - p.x * p.x) * (v * v), m * (v * v), 1 + d * (t * t));
  }

  lemma ScaledEquation(x: int, y: int, z: int, t: int, v: int, d: int)
    ensures (y * y - x * x) * (v * v) == y * v * (y * v) - x * v * (x * v)
    ensures (z * z + d * (t * t)) * (v * v) == z * v * (z * v) + d * (t * v * (t * v))
  {
    ProductOfSquares(y, v);
    ProductOfSquares(x, v);
    ProductOfSquares(z, v);
    ProductOfSquares(t, v);
    Distribute(v * v, y * y, x * x);
    SumOfTwo(v * v, z * z, d * (t * t));
    assert v * v * (d * (t * t)) == d * (t * t * (v * v));
  }

  lemma CancelFactor(q: Modulus, f: int, a: int, b: int)
    requires IsPrime(q) && !Multiple(q, f) && Cong(q, f * a, f * b)
    ensures Cong(q, a, b)
  {
    hide Multiple, IsPrime;
    Distribute(f, a, b);
    FactorVanishes(q, f, a - b);
  }

  /** The same affine point makes the same projective point. */
  lemma FormsMakeSame(q: Modulus, p: Point, r: Point, a: Affine, b: Affine)
    requires Stands(q, p, a) && Stands(q, r, b) && Cong(q, a.x, b.x) && Cong(q, a.y, b.y)
    ensures Same(q, p, r)
  {
    hide Multiple;
    CongMul(q, a.x, b.x, a.y, b.y);
    FormMakesSame(q, p.x, p.z, a.x, r.x, r.z, b.x);
    FormMakesSame(q, p.y, p.z, a.y, r.y, r.z, b.y);
    FormMakesSame(q, p.t, p.z, a.x * a.y, r.t, r.z, b.x * b.y);
  }

  lemma FormMakesSame(q: Modulus, x: int, z: int, a: int, x': int, z': int, a': int)
    requires Cong(q, x, z * a) && Cong(q, x', z' * a') && Cong(q, a, a')
    ensures Cong(q, x * z', x' * z)
  {
    hide Multiple;
    CongRefl(q, z');
    CongRefl(q, z);
    CongMul(q, x, z * a, z', z');
    CongMul(q, x', z' * a', z, z);
    CongRefl(q, z * z');
    CongMul(q, z * z', z * z', a, a');
    assert z * z' * a == z * a * z' && z * z' * a' == z' * a' * z;
    CongTrans(q, x * z', z * a * z', z' * a' * z);
    CongSym(q, x' * z, z' * a' * z);
    CongTrans(q, x * z', z' * a' * z, x' * z);
  }

  /** The same projective point has the same affine form. */
  lemma SameKeepsForm(q: Modulus, p: Point, r: Point, a: Affine)
    requires IsPrime(q) && !Multiple(q, p.z) && Stands(q, p, a) && Same(q, p, r)
    ensures Stands(q, r, a)
  {
    hide Multiple, IsPrime;
    KeepsForm(q, p.x, p.z, a.x, r.x, r.z);
    KeepsForm(q, p.y, p.z, a.y, r.y, r.z);
    KeepsForm(q, p.t, p.z, a.x * a.y, r.t, r.z);
  }

  lemma KeepsForm(q: Modulus, x: int, z: int, a: int, x': int, z': int)
    requires IsPrime(q) && !Multiple(q, z) && Cong(q, x, z * a) && Cong(q, x * z', x' * z)
    ensures Cong(q, x', z' * a)
  {
    hide Multiple, IsPrime;
    CongRefl(q, z');
    CongMul(q, x, z * a, z', z');
    CongSym(q, x * z', x' * z);
    CongTrans(q, x' * z, x * z', z * a * z');
    assert x' * z == z * x' && z * a * z' == z * (z' * a);
    CancelFactor(q, z, x', z' * a);
  }

  // ----- the addition on affine forms -----

  /** The affine form of a sum is the affine sum of the forms. */
  lemma FormOfSum(q: Modulus, d: int, i: int, p: Point, r: Point, a: Affine, b: Affine) returns (c: Affine)
    requires IsField(q, d, i) && IsPoint(q, d, p) && IsPoint(q, d, r) && Stands(q, p, a) && Stands(q, r, b)
    ensures AffineSum(q, d, a, b, c) && IsAffine(q, d, c) && Stands(q, EdwardsAdd(q, d, p, r), c)
  {
    AdditionIsComplete(q, d, i, p, r);
    hide Multiple, IsPrime, NonSquare, IsRoot, OnCurve, EdwardsAdd, IsAffine;
    var s := EdwardsAdd(q, d, p, r);
    c := AffineForm(q, d, s);
    AddFollowsTheAffineLaw(q, d, p, r, a.x, a.y, b.x, b.y);
    var k := d * ((a.x * a.y) * (b.x * b.y));
    FactorsRemain(q, s.z, 4 * ((p.z * r.z) * (p.z * r.z)), 1 - k, 1 + k);
    FormFollows(q, s.x, s.z, c.x, 1 + k, Cross(a, b));
    FormFollows(q, s.y, s.z, c.y, 1 - k, Dot(a, b));
  }

  lemma FactorsRemain(q: Modulus, z: int, w: int, f: int, g: int)
    requires !Multiple(q, z) && Cong(q, z, w * (f * g))
    ensures !Multiple(q, f) && !Multiple(q, g)
  {
    hide Multiple;
    if Multiple(q, f) || Multiple(q, g) {
      if Multiple(q, f) {
        MultipleScale(q, f, w * g);
        assert w * g * f == w * (f * g);
      } else {
        MultipleScale(q, g, w * f);
        assert w * f * g == w * (f * g);
      }
      MultipleAdd(q, z - w * (f * g), w * (f * g));
    }
  }

  lemma FormFollows(q: Modulus, x: int, z: int, a: int, f: int, n: int)
    requires IsPrime(q) && !Multiple(q, z) && Cong(q, x, z * a) && Cong(q, x * f, z * n)
    ensures Cong(q, a * f, n)
  {
    hide Multiple, IsPrime;
    CongRefl(q, f);
    CongMul(q, x, z * a, f, f);
    CongSym(q, x * f, z * a * f);
    CongTrans(q, z * a * f, x * f, z * n);
    assert z * a * f == z * (a * f);
    CancelFactor(q, z, a * f, n);
  }

  lemma AffineSumIsUnique(q: Modulus, d: int, a: Affine, b: Affine, c: Affine, c': Affine)
    requires IsPrime(q) && AffineSum(q, d, a, b, c) && AffineSum(q, d, a, b, c')
    ensures Cong(q, c.x, c'.x) && Cong(q, c.y, c'.y)
  {
    hide Multiple, IsPrime, Carry, Cross, Dot;
    var k := Carry(d, a, b);
    UniqueQuotient(q, 1 + k, c.x, c'.x, Cross(a, b));
    UniqueQuotient(q, 1 - k, c.y, c'.y, Dot(a, b));
  }

  lemma UniqueQuotient(q: Modulus, f: int, a: int, b: int, n: int)
    requires IsPrime(q) && !Multiple(q, f) && Cong(q, a * f, n) && Cong(q, b * f, n)
    ensures Cong(q, a, b)
  {
    hide Multiple, IsPrime;
    CongSym(q, b * f, n);
    CongTrans(q, a * f, n, b * f);
    Commute(a, f);
    Commute(b, f);
    CancelFactor(q, f, a, b);
  }

  // ----- the projective points are a group -----

  lemma SameSym(q: Modulus, p: Point, r: Point)
    requires Same(q, p, r)
    ensures Same(q, r, p)
  {
    hide Multiple;
    CongSym(q, p.x * r.z, r.x * p.z);
    CongSym(q, p.y * r.z, r.y * p.z);
    CongSym(q, p.t * r.z, r.t * p.z);
  }

  lemma SameTrans(q: Modulus, d: int, p: Point, r: Point, s: Point)
    requires IsPrime(q) && IsPoint(q, d, p) && IsPoint(q, d, r) && Same(q, p, r) && Same(q, r, s)
    ensures Same(q, p, s)
  {
    hide Multiple, IsPrime, OnCurve, IsAffine, Same, Stands;
    var a := AffineForm(q, d, p);
    SameKeepsForm(q, p, r, a);
    SameKeepsForm(q, r, s, a);
    CongRefl(q, a.x);
    CongRefl(q, a.y);
    FormsMakeSame(q, p, s, a, a);
  }

  /** Sums of the same points are the same. */
  lemma AddRespectsSame(q: Modulus, d: int, i: int, p: Point, p': Point, r: Point, r': Point)
    requires IsField(q, d, i) && IsPoint(q, d, p) && IsPoint(q, d, p') && IsPoint(q, d, r) && IsPoint(q, d, r')
    requires Same(q, p, p') && Same(q, r, r')
    ensures Same(q, EdwardsAdd(q, d, p, r), EdwardsAdd(q, d, p', r'))
  {
    hide Multiple, IsPrime, NonSquare, IsRoot, OnCurve, EdwardsAdd, IsAffine, Same, Stands, AffineSum;
    var a := AffineForm(q, d, p);
    var b := AffineForm(q, d, r);
    SameKeepsForm(q, p, p', a);
    SameKeepsForm(q, r, r', b);
    var c := FormOfSum(q, d, i, p, r, a, b);
    var c' := FormOfSum(q, d, i, p', r', a, b);
    AffineSumIsUnique(q, d, a, b, c, c');
    FormsMakeSame(q, EdwardsAdd(q, d, p, r), EdwardsAdd(q, d, p', r'), c, c');
  }

  /** Associativity. */
  lemma AddAssociates(q: Modulus, d: int, i: int, p: Point, r: Point, s: Point)
    requires IsField(q, d, i) && IsPoint(q, d, p) && IsPoint(q, d, r) && IsPoint(q, d, s)
    ensures Same(q, EdwardsAdd(q, d, EdwardsAdd(q, d, p, r), s), EdwardsAdd(q, d, p, EdwardsAdd(q, d, r, s)))
  {
    TwoIsNotZero(q, d);
    hide Multiple, IsPrime, NonSquare, IsRoot, OnCurve, EdwardsAdd, IsAffine, Same, Stands, AffineSum;
    var pr, rs := EdwardsAdd(q, d, p, r), EdwardsAdd(q, d, r, s);
    AdditionIsComplete(q, d, i, p, r);
    AdditionIsComplete(q, d, i, r, s);
    var a := AffineForm(q, d, p);
    var b := AffineForm(q, d, r);
    var c := AffineForm(q, d, s);
    var x := FormOfSum(q, d, i, p, r, a, b);
    var y := FormOfSum(q, d, i, r, s, b, c);
    var left := FormOfSum(q, d, i, pr, s, x, c);
    var right := FormOfSum(q, d, i, p, rs, a, y);
    AffineAssociates(q, d, a, b, c, x, y, left, right);
    FormsMakeSame(q, EdwardsAdd(q, d, pr, s), EdwardsAdd(q, d, p, rs), left, right);
  }

  // ----- scalar multiples -----

  /** Adding the point n times, one by one. */
  function Times(q: Modulus, d: int, p: Point, n: nat): Point {
    if n == 0 then NEUTRAL else EdwardsAdd(q, d, Times(q, d, p, n - 1), p)
  }

  lemma {:induction false} TimesIsPoint(q: Modulus, d: int, i: int, p: Point, n: nat)
    requires IsField(q, d, i) && IsPoint(q, d, p)
    ensures IsPoint(q, d, Times(q, d, p, n))
  {
    hide EdwardsAdd, IsField, IsPoint;
    if n == 0 {
      NoTimes(q, d, i, p);
    } else {
      TimesIsPoint(q, d, i, p, n - 1);
      AdditionIsComplete(q, d, i, Times(q, d, p, n - 1), p);
    }
  }

  lemma SameRefl(q: Modulus, p: Point)
    ensures Same(q, p, p)
  {
    hide Multiple;
    CongRefl(q, p.x * p.z);
    CongRefl(q, p.y * p.z);
    CongRefl(q, p.t * p.z);
  }

  lemma {:induction false} TimesAdds(q: Modulus, d: int, i: int, p: Point, m: nat, n: nat)
    requires IsField(q, d, i) && IsPoint(q, d, p)
    ensures Same(q, Times(q, d, p, m + n), EdwardsAdd(q, d, Times(q, d, p, m), Times(q, d, p, n)))
    decreases n
  {
    var tm := Times(q, d, p, m);
    TimesIsPoint(q, d, i, p, m);
    if n == 0 {
      AddNeutral(q, d, tm);
      SameSym(q, EdwardsAdd(q, d, tm, NEUTRAL), tm);
    } else {
      hide Multiple, IsPrime, NonSquare, IsRoot, OnCurve, EdwardsAdd, Same, IsPoint;
      var before, tn := Times(q, d, p, m + n - 1), Times(q, d, p, n - 1);
      TimesIsPoint(q, d, i, p, m + n - 1);
      TimesIsPoint(q, d, i, p, n - 1);
      TimesAdds(q, d, i, p, m, n - 1);
      var sum := EdwardsAdd(q, d, tm, tn);
      AdditionIsComplete(q, d, i, tm, tn);
      SameRefl(q, p);
      AddRespectsSame(q, d, i, before, sum, p, p);
      AddAssociates(q, d, i, tm, tn, p);
      AdditionIsComplete(q, d, i, before, p);
      AdditionIsComplete(q, d, i, sum, p);
      SameTrans(q, d, EdwardsAdd(q, d, before, p), EdwardsAdd(q, d, sum, p),
                EdwardsAdd(q, d, tm, EdwardsAdd(q, d, tn, p)));
    }
  }

  lemma OnceIsTheSame(q: Modulus, d: int, p: Point)
    requires IsPoint(q, d, p)
    ensures Same(q, p, Times(q, d, p, 1))
  {
    hide EdwardsAdd, Same, OnCurve, Multiple;
    AddNeutral(q, d, p);
    AddCommutes(q, d, p, NEUTRAL);
    assert Times(q, d, p, 1) == EdwardsAdd(q, d, Times(q, d, p, 0), p);
    SameSym(q, EdwardsAdd(q, d, p, NEUTRAL), p);
  }

  /** Every bracketing of n copies of a point is the same projective point. */
  lemma {:induction false} BracketingsAgree(q: Modulus, d: int, i: int, s: Sum, p: Point)
    requires IsField(q, d, i) && IsPoint(q, d, p)
    ensures IsPoint(q, d, Evaluate(q, d, s, p)) && Same(q, Evaluate(q, d, s, p), Times(q, d, p, Terms(s)))
  {
    hide EdwardsAdd, IsField, IsPoint, Same, Times;
    match s {
      case Empty =>
        NoTimes(q, d, i, p);
        SameRefl(q, NEUTRAL);
      case Once =>
        OnceIsTheSame(q, d, p);
      case Plus(l, r) =>
        BracketingsAgree(q, d, i, l, p);
        BracketingsAgree(q, d, i, r, p);
        SumOfMultiples(q, d, i, p, Evaluate(q, d, l, p), Terms(l), Evaluate(q, d, r, p), Terms(r));
    }
  }

  lemma NoTimes(q: Modulus, d: int, i: int, p: Point)
    requires IsField(q, d, i)
    ensures Times(q, d, p, 0) == NEUTRAL && IsPoint(q, d, NEUTRAL)
  {
    hide IsPrime;
    NeutralIsPoint(q, d);
  }

  /** Points that are the m-th and the n-th multiple add up to the (m + n)-th. */
  lemma SumOfMultiples(q: Modulus, d: int, i: int, p: Point, a: Point, m: nat, b: Point, n: nat)
    requires IsField(q, d, i) && IsPoint(q, d, p) && IsPoint(q, d, a) && IsPoint(q, d, b)
    requires Same(q, a, Times(q, d, p, m)) && Same(q, b, Times(q, d, p, n))
    ensures IsPoint(q, d, EdwardsAdd(q, d, a, b)) && Same(q, EdwardsAdd(q, d, a, b), Times(q, d, p, m + n))
  {
    assert IsPrime(q);
    hide EdwardsAdd, IsField, IsPoint, IsPrime, Same, Times;
    var tm, tn, t := Times(q, d, p, m), Times(q, d, p, n), Times(q, d, p, m + n);
    TimesIsPoint(q, d, i, p, m);
    TimesIsPoint(q, d, i, p, n);
    TimesIsPoint(q, d, i, p, m + n);
    AdditionIsComplete(q, d, i, a, b);
    AdditionIsComplete(q, d, i, tm, tn);
    AddRespectsSame(q, d, i, a, tm, b, tn);
    TimesAdds(q, d, i, p, m, n);
    SameSym(q, t, EdwardsAdd(q, d, tm, tn));
    SameTrans(q, d, EdwardsAdd(q, d, a, b), EdwardsAdd(q, d, tm, tn), t);
  }

  /** Double-and-add is repeated addition. */
  lemma ScalarMultIsTimes(q: Modulus, d: int, i: int, p: Point, e: nat)
    requires IsField(q, d, i) && IsPoint(q, d, p)
    ensures IsPoint(q, d, ScalarMult(q, d, p, e)) && Same(q, ScalarMult(q, d, p, e), Times(q, d, p, e))
  {
    hide *;
    var s := ScalarMultIsASum(q, d, p, e);
    BracketingsAgree(q, d, i, s, p);
  }

  /** Scalars add up: multiplying by m + n is adding the multiples by m and n. */
  lemma ScalarMultAdds(q: Modulus, d: int, i: int, p: Point, m: nat, n: nat)
    requires IsField(q, d, i) && IsPoint(q, d, p)
    ensures Same(q, ScalarMult(q, d, p, m + n), EdwardsAdd(q, d, ScalarMult(q, d, p, m), ScalarMult(q, d, p, n)))
  {
    assert IsPrime(q);
    hide EdwardsAdd, IsField, IsPoint, IsPrime, Same, ScalarMult, Times;
    var sm, sn, s := ScalarMult(q, d, p, m), ScalarMult(q, d, p, n), ScalarMult(q, d, p, m + n);
    var t := Times(q, d, p, m + n);
    ScalarMultIsTimes(q, d, i, p, m);
    ScalarMultIsTimes(q, d, i, p, n);
    ScalarMultIsTimes(q, d, i, p, m + n);
    TimesIsPoint(q, d, i, p, m + n);
    SumOfMultiples(q, d, i, p, sm, m, sn, n);
    SameSym(q, EdwardsAdd(q, d, sm, sn), t);
    SameTrans(q, d, s, t, EdwardsAdd(q, d, sm, sn));
  }

  /** Scalars multiply: the n-th multiple of the m-th multiple is the m n-th. */
  lemma {:induction false} ScalarMultMultiplies(q: Modulus, d: int, i: int, p: Point, m: nat, n: nat)
    requires IsField(q, d, i) && IsPoint(q, d, p)
    ensures Same(q, ScalarMult(q, d, ScalarMult(q, d, p, m), n), ScalarMult(q, d, p, m * n))
  {
    hide EdwardsAdd, IsPrime, NonSquare, IsRoot, Multiple, OnCurve, Same, ScalarMult, Times, IsPoint;
    var r := ScalarMult(q, d, p, m);
    ScalarMultIsTimes(q, d, i, p, m);
    ScalarMultIsTimes(q, d, i, r, n);
    ScalarMultIsTimes(q, d, i, p, m * n);
    TimesIsPoint(q, d, i, r, n);
    TimesIsPoint(q, d, i, p, m * n);
    TimesOfMultiple(q, d, i, p, m, n);
    SameTrans(q, d, ScalarMult(q, d, r, n), Times(q, d, r, n), Times(q, d, p, m * n));
    SameSym(q, ScalarMult(q, d, p, m * n), Times(q, d, p, m * n));
    SameTrans(q, d, ScalarMult(q, d, r, n), Times(q, d, p, m * n), ScalarMult(q, d, p, m * n));
  }

  lemma {:induction false} TimesOfMultiple(q: Modulus, d: int, i: int, p: Point, m: nat, n: nat)
    requires IsField(q, d, i) && IsPoint(q, d, p)
    ensures Same(q, Times(q, d, ScalarMult(q, d, p, m), n), Times(q, d, p, m * n))
    decreases n
  {
    hide EdwardsAdd, IsPrime, NonSquare, IsRoot, Multiple, OnCurve, Same, ScalarMult, IsPoint;
    var r := ScalarMult(q, d, p, m);
    if n == 0 {
      SameRefl(q, NEUTRAL);
    } else {
      assert m * n == m * (n - 1) + m;
      var a, b := Times(q, d, r, n - 1), Times(q, d, p, m * (n - 1));
      ScalarMultIsTimes(q, d, i, p, m);
      TimesIsPoint(q, d, i, r, n - 1);
      TimesIsPoint(q, d, i, p, m * (n - 1));
      TimesIsPoint(q, d, i, p, m);
      TimesIsPoint(q, d, i, p, m * n);
      TimesOfMultiple(q, d, i, p, m, n - 1);
      AddRespectsSame(q, d, i, a, b, r, Times(q, d, p, m));
      TimesAdds(q, d, i, p, m * (n - 1), m);
      var sum := EdwardsAdd(q, d, b, Times(q, d, p, m));
      AdditionIsComplete(q, d, i, a, r);
      AdditionIsComplete(q, d, i, b, Times(q, d, p, m));
      SameSym(q, Times(q, d, p, m * n), sum);
      SameTrans(q, d, EdwardsAdd(q, d, a, r), sum, Times(q, d, p, m * n));
    }
  }
}

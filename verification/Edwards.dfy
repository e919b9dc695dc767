/** Extended twisted-Edwards points (runtime/dsh/ed25519.js:144-204): what addition and the
    double-and-add loop compute. */
module Edwards {
  import opened Modular

  /** 2^255: the bits of a 32-byte encoding below the sign of x. */
  const TOP := 128 * Power(256, 31)

  /** The curve's numbers: the odd modulus, the coefficient, a square root of -1, the group order. */
  datatype Curve = Curve(p: int, d: int, sqrtM1: int, order: int) {
    predicate Valid() {
      && 8 < p < TOP && p % 2 == 1 && 0 <= d < p && order > 0
      && 0 <= sqrtM1 < p && Cong(sqrtM1 * sqrtM1, -1, p)
    }
  }

  datatype Pt = Pt(X: int, Y: int, Z: int, T: int)

  /** An affine point; its coordinates stand for residues. */
  datatype Affine = Affine(x: int, y: int)

  const IDENTITY := Pt(0, 1, 1, 0)
  const NEUTRAL := Affine(0, 1)

  function Reduced(X: int, Y: int, Z: int, T: int, p: int): Pt
    requires p > 0
  {
    Pt(Rem(X, p), Rem(Y, p), Rem(Z, p), Rem(T, p))
  }

  function AddPts(c: Curve, a: Pt, b: Pt): Pt
    requires c.p > 0
  {
    var U := a.X * b.Y + b.X * a.Y;
    var V := a.Y * b.Y + a.X * b.X;
    var W := a.Z * b.Z;
    var Q := c.d * a.T * b.T;
    Reduced(U * (W - Q), V * (W + Q), (W + Q) * (W - Q), U * V, c.p)
  }

  function EqualPts(c: Curve, a: Pt, b: Pt): bool
    requires c.p > 0
  {
    Rem(a.X * b.Z - b.X * a.Z, c.p) == 0 && Rem(a.Y * b.Z - b.Y * a.Z, c.p) == 0
  }

  // ---- representation ---------------------------------------------------------------------

  ghost predicate Unit(z: int, p: int)
    requires p > 0
  {
    exists i :: Cong(z * i, 1, p)
  }

  /** x = X/Z, y = Y/Z and xy = T/Z, with Z invertible. */
  ghost predicate Represents(c: Curve, a: Pt, g: Affine)
    requires c.p > 0
  {
    && Unit(a.Z, c.p)
    && Cong(a.X, g.x * a.Z, c.p) && Cong(a.Y, g.y * a.Z, c.p) && Cong(a.T, g.x * g.y * a.Z, c.p)
  }

  function Twist(c: Curve, g: Affine, h: Affine): int {
    c.d * (g.x * h.x * g.y * h.y)
  }

  /** s is the sum of g and h by the affine law, written without division. */
  ghost predicate IsSum(c: Curve, g: Affine, h: Affine, s: Affine)
    requires c.p > 0
  {
    && Cong(s.x * (1 + Twist(c, g, h)), g.x * h.y + h.x * g.y, c.p)
    && Cong(s.y * (1 - Twist(c, g, h)), g.y * h.y + g.x * h.x, c.p)
  }

  lemma {:induction false} ProductOfUnits(a: int, b: int, p: int)
    requires p > 0 && Unit(a, p) && Unit(b, p)
    ensures Unit(a * b, p)
  {
    hide Cong;
    var i :| Cong(a * i, 1, p);
    var j :| Cong(b * j, 1, p);
    CongMul(a * i, 1, b * j, 1, p);
    assert (a * b) * (i * j) == (a * i) * (b * j);
  }

  lemma UnitCong(a: int, b: int, p: int)
    requires p > 0 && Cong(a, b, p) && Unit(a, p)
    ensures Unit(b, p)
  {
    hide Cong;
    var i :| Cong(a * i, 1, p);
    CongRefl(i, p);
    CongMul(a, b, i, i, p);
    CongChain(b * i, a * i, 1, p);
  }

  /** Cancel a unit. */
  lemma Cancel(a: int, b: int, z: int, p: int)
    requires p > 0 && Unit(z, p) && Cong(a * z, b * z, p)
    ensures Cong(a, b, p)
  {
    hide Cong;
    var i :| Cong(z * i, 1, p);
    CongRefl(i, p);
    CongMul(a * z, b * z, i, i, p);
    assert (a * z) * i == a * (z * i) && (b * z) * i == b * (z * i);
    CongMul(a, a, z * i, 1, p) by { CongRefl(a, p); }
    CongMul(b, b, z * i, 1, p) by { CongRefl(b, p); }
    CongChain(a, a * (z * i), b * (z * i), p);
    CongChain(a, b * (z * i), b, p);
  }


  lemma CongChain(a: int, b: int, c: int, p: int)
    requires p > 0 && (Cong(a, b, p) || Cong(b, a, p)) && Cong(b, c, p)
    ensures Cong(a, c, p)
  {}

  // ---- addition keeps X*Y = Z*T -----------------------------------------------------------------

  /** The product law of the fourth coordinate holds of every sum, whatever is added. */
  lemma SumKeepsProductLaw(c: Curve, a: Pt, b: Pt)
    requires c.p > 0
    ensures var s := AddPts(c, a, b); Cong(s.X * s.Y, s.Z * s.T, c.p)
  {
    var U := a.X * b.Y + b.X * a.Y;
    var V := a.Y * b.Y + a.X * b.X;
    var W := a.Z * b.Z;
    var Q := c.d * a.T * b.T;
    hide Cong, Rem;
    var m, n := W - Q, W + Q;
    RemCong(U * m, c.p);
    RemCong(V * n, c.p);
    RemCong(n * m, c.p);
    RemCong(U * V, c.p);
    var s := AddPts(c, a, b);
    CongMul(s.X, U * m, s.Y, V * n, c.p);
    CongMul(s.Z, n * m, s.T, U * V, c.p);
    assert (U * m) * (V * n) == (n * m) * (U * V);
    CongSame(s.X * s.Y, (U * m) * (V * n), s.Z * s.T, c.p);
  }

  lemma CongSame(a: int, b: int, c: int, p: int)
    requires p > 0 && Cong(a, b, p) && Cong(c, b, p)
    ensures Cong(a, c, p)
  {}

  // ---- addition represents the affine sum ---------------------------------------------------------

  /** Two products of coordinates, with the common factor of the denominators pulled out. */
  lemma CrossTerms(x: int, y: int, x2: int, y2: int, z: int, z2: int)
    ensures (x * z) * (y2 * z2) + (x2 * z2) * (y * z) == (z * z2) * (x * y2 + x2 * y)
  {
    assert (x * z) * (y2 * z2) == (z * z2) * (x * y2);
    assert (x2 * z2) * (y * z) == (z * z2) * (x2 * y);
  }

  lemma SumOfProducts(a: int, ax: int, b: int, bx: int, e: int, ex: int, f: int, fx: int, p: int)
    requires p > 0 && Cong(a, ax, p) && Cong(b, bx, p) && Cong(e, ex, p) && Cong(f, fx, p)
    ensures Cong(a * b + e * f, ax * bx + ex * fx, p)
  {
    hide Cong;
    CongMul(a, ax, b, bx, p);
    CongMul(e, ex, f, fx, p);
    CongAdd(a * b, ax * bx, e * f, ex * fx, p);
  }

  /** The intermediate numbers U and V in affine terms. */
  lemma Intermediates(c: Curve, a: Pt, b: Pt, g: Affine, h: Affine)
    requires c.p > 0 && Represents(c, a, g) && Represents(c, b, h)
    ensures Cong(a.X * b.Y + b.X * a.Y, (a.Z * b.Z) * (g.x * h.y + h.x * g.y), c.p)
    ensures Cong(a.Y * b.Y + a.X * b.X, (a.Z * b.Z) * (g.y * h.y + g.x * h.x), c.p)
  {
    hide Cong, Unit;
    SumOfProducts(a.X, g.x * a.Z, b.Y, h.y * b.Z, b.X, h.x * b.Z, a.Y, g.y * a.Z, c.p);
    CrossTerms(g.x, g.y, h.x, h.y, a.Z, b.Z);
    SumOfProducts(a.Y, g.y * a.Z, b.Y, h.y * b.Z, a.X, g.x * a.Z, b.X, h.x * b.Z, c.p);
    StraightTerms(g.x, g.y, h.x, h.y, a.Z, b.Z);
  }

  lemma StraightTerms(x: int, y: int, x2: int, y2: int, z: int, z2: int)
    ensures (y * z) * (y2 * z2) + (x * z) * (x2 * z2) == (z * z2) * (y * y2 + x * x2)
  {
    assert (y * z) * (y2 * z2) == (z * z2) * (y * y2);
    assert (x * z) * (x2 * z2) == (z * z2) * (x * x2);
  }

  lemma TwistTerm(c: Curve, a: Pt, b: Pt, g: Affine, h: Affine)
    requires c.p > 0 && Represents(c, a, g) && Represents(c, b, h)
    ensures Cong(c.d * a.T * b.T, (a.Z * b.Z) * Twist(c, g, h), c.p)
  {
    hide Cong;
    var m, n := g.x * g.y * a.Z, h.x * h.y * b.Z;
    CongMul(a.T, m, b.T, n, c.p);
    CongRefl(c.d, c.p);
    CongMul(c.d, c.d, a.T * b.T, m * n, c.p);
    assert c.d * (a.T * b.T) == c.d * a.T * b.T;
    calc {
      m * n;
      (g.x * g.y * a.Z) * (h.x * h.y * b.Z);
      (a.Z * b.Z) * (g.x * h.x * g.y * h.y);
    }
    assert c.d * ((a.Z * b.Z) * (g.x * h.x * g.y * h.y)) == (a.Z * b.Z) * (c.d * (g.x * h.x * g.y * h.y));
  }

  /** addPts computes the affine sum whenever W+Q and W-Q are invertible. */
  lemma SumRepresents(c: Curve, a: Pt, b: Pt, g: Affine, h: Affine, s: Affine)
    requires c.p > 0 && Represents(c, a, g) && Represents(c, b, h) && IsSum(c, g, h, s)
    requires Unit(a.Z * b.Z + c.d * a.T * b.T, c.p) && Unit(a.Z * b.Z - c.d * a.T * b.T, c.p)
    ensures Represents(c, AddPts(c, a, b), s)
  {
    hide Cong, Rem, Unit;
    var p, w, t := c.p, a.Z * b.Z, Twist(c, g, h);
    var U := a.X * b.Y + b.X * a.Y;
    var V := a.Y * b.Y + a.X * b.X;
    var Q := c.d * a.T * b.T;
    Intermediates(c, a, b, g, h);
    TwistTerm(c, a, b, g, h);
    Numerator(w, Q, t, 1, s.x, g.x * h.y + h.x * g.y, U, p);
    Numerator(w, Q, t, -1, s.y, g.y * h.y + g.x * h.x, V, p);
    var m, n := w - Q, w + Q;
    assert Cong(U, s.x * n, p) && Cong(V, s.y * m, p);
    ProductOfUnits(n, m, p);
    SumCoordinates(U, V, m, n, s, p);
  }

  /** U is x3*(W+Q), and V is y3*(W-Q): one proof for both signs. */
  lemma Numerator(w: int, q: int, t: int, sign: int, x: int, num: int, u: int, p: int)
    requires p > 0 && (sign == 1 || sign == -1)
    requires Cong(q, w * t, p) && Cong(x * (1 + sign * t), num, p) && Cong(u, w * num, p)
    ensures Cong(u, x * (w + sign * q), p)
  {
    hide Cong;
    CongRefl(w, p);
    CongRefl(x, p);
    CongRefl(sign, p);
    CongMul(w, w, x * (1 + sign * t), num, p);
    CongMul(sign, sign, q, w * t, p);
    CongAdd(w, w, sign * q, sign * (w * t), p);
    CongMul(x, x, w + sign * q, w + sign * (w * t), p);
    assert w * (x * (1 + sign * t)) == x * (w + sign * (w * t));
    CongSame(u, w * num, w * (x * (1 + sign * t)), p);
    CongSame(x * (w + sign * q), x * (w + sign * (w * t)), u, p);
    CongChain(u, x * (w + sign * q), x * (w + sign * q), p);
  }

  lemma SumCoordinates(U: int, V: int, m: int, n: int, s: Affine, p: int)
    requires p > 0 && Cong(U, s.x * n, p) && Cong(V, s.y * m, p) && Unit(n * m, p)
    ensures
      var r := Reduced(U * m, V * n, n * m, U * V, p);
      Unit(r.Z, p) && Cong(r.X, s.x * r.Z, p) && Cong(r.Y, s.y * r.Z, p) && Cong(r.T, s.x * s.y * r.Z, p)
  {
    hide Cong, Rem, Unit;
    var z := Rem(n * m, p);
    RemCong(n * m, p);
    CongSame(n * m, n * m, z, p);
    UnitCong(n * m, z, p);
    CongRefl(m, p);
    CongRefl(n, p);
    CongMul(U, s.x * n, m, m, p);
    CongMul(V, s.y * m, n, n, p);
    CongMul(U, s.x * n, V, s.y * m, p);
    assert (s.x * n) * m == s.x * (n * m) && (s.y * m) * n == s.y * (n * m);
    assert (s.x * n) * (s.y * m) == (s.x * s.y) * (n * m);
    Coordinate(U * m, s.x, n * m, p);
    Coordinate(V * n, s.y, n * m, p);
    Coordinate(U * V, s.x * s.y, n * m, p);
  }

  lemma Coordinate(raw: int, x: int, z: int, p: int)
    requires p > 0 && Cong(raw, x * z, p)
    ensures Cong(Rem(raw, p), x * Rem(z, p), p)
  {
    hide Cong, Rem;
    RemCong(raw, p);
    RemCong(z, p);
    CongRefl(x, p);
    CongMul(x, x, Rem(z, p), z, p);
    CongChain(Rem(raw, p), raw, x * z, p);
    CongSame(Rem(raw, p), x * z, x * Rem(z, p), p);
  }

  // ---- equality ------------------------------------------------------------------------------------

  ghost predicate SameAffine(g: Affine, h: Affine, p: int)
    requires p > 0
  {
    Cong(g.x, h.x, p) && Cong(g.y, h.y, p)
  }

  lemma RemZero(a: int, b: int, p: int)
    requires p > 0
    ensures Rem(a - b, p) == 0 <==> Cong(a, b, p)
  {
    RemCong(a - b, p);
    if Rem(a - b, p) == 0 {
      var k := CongMultiple(0, a - b, p);
      CongByMultiple(a, b, p, -k);
    }
    if Cong(a, b, p) {
      var k := CongMultiple(a, b, p);
      CongByMultiple(a - b, 0, p, k);
      if a - b < 0 {
        CongByMultiple(b - a, 0, p, -k);
      }
    }
  }

  /** equalPts holds exactly of points with the same affine coordinates. */
  lemma EqualPtsExactly(c: Curve, a: Pt, b: Pt, g: Affine, h: Affine)
    requires c.p > 0 && Represents(c, a, g) && Represents(c, b, h)
    ensures EqualPts(c, a, b) <==> SameAffine(g, h, c.p)
  {
    hide Cong, Rem, Unit;
    RemZero(a.X * b.Z, b.X * a.Z, c.p);
    RemZero(a.Y * b.Z, b.Y * a.Z, c.p);
    ProductOfUnits(a.Z, b.Z, c.p);
    EqualCoordinate(a.X, b.X, a.Z, b.Z, g.x, h.x, c.p);
    EqualCoordinate(a.Y, b.Y, a.Z, b.Z, g.y, h.y, c.p);
  }

  lemma EqualCoordinate(X: int, X2: int, z: int, z2: int, x: int, x2: int, p: int)
    requires p > 0 && Cong(X, x * z, p) && Cong(X2, x2 * z2, p) && Unit(z * z2, p)
    ensures Cong(X * z2, X2 * z, p) <==> Cong(x, x2, p)
  {
    hide Cong, Unit;
    CongRefl(z, p);
    CongRefl(z2, p);
    CongRefl(z * z2, p);
    CongMul(X, x * z, z2, z2, p);
    CongMul(X2, x2 * z2, z, z, p);
    assert (x * z) * z2 == x * (z * z2) && (x2 * z2) * z == x2 * (z * z2);
    if Cong(X * z2, X2 * z, p) {
      CongChain(x * (z * z2), X * z2, X2 * z, p);
      CongChain(x * (z * z2), X2 * z, x2 * (z * z2), p);
      Cancel(x, x2, z * z2, p);
    }
    if Cong(x, x2, p) {
      CongMul(x, x2, z * z2, z * z2, p);
      CongChain(X * z2, x * (z * z2), x2 * (z * z2), p);
      CongSame(X * z2, x2 * (z * z2), X2 * z, p);
    }
  }
}

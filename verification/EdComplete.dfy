/** decodePt accepts every point of the curve (runtime/dsh/ed25519.js:220-260), given that p is prime:
    Fermat's little theorem and the absence of zero divisors are what the proof uses of it. */
module EdComplete {
  import opened Wrappers
  import opened JsText
  import opened Modular
  import opened Edwards
  import opened Ed25519
  import opened EdPoint

  ghost predicate Zero(a: int, p: int)
    requires p > 0
  {
    Cong(a, 0, p)
  }

  function Product(a: int, b: int): int {
    a * b
  }

  function FermatPower(a: int, p: int): int
    requires p > 0
  {
    Power(a, p - 1)
  }

  /** What primality gives. */
  ghost predicate Field(p: int)
    requires p > 0
  {
    && (forall a, b {:trigger Product(a, b)} :: Zero(Product(a, b), p) ==> Zero(a, p) || Zero(b, p))
    && (forall a {:trigger FermatPower(a, p)} :: !Zero(a, p) ==> Cong(FermatPower(a, p), 1, p))
  }

  lemma NoZeroDivisors(a: int, b: int, p: int)
    requires p > 1 && Field(p) && Zero(a * b, p)
    ensures Zero(a, p) || Zero(b, p)
  {
    hide Zero;
    assert Product(a, b) == a * b;
  }

  lemma Fermat(a: int, p: int)
    requires p > 1 && Field(p) && !Zero(a, p)
    ensures Cong(Power(a, p - 1), 1, p)
  {
    hide Power, Cong, Zero;
    assert FermatPower(a, p) == Power(a, p - 1);
  }

  lemma Difference(a: int, b: int, p: int)
    requires p > 0
    ensures Zero(a - b, p) <==> Cong(a, b, p)
  {
    if Cong(a, b, p) {
      var k := CongMultiple(a, b, p);
      CongByMultiple(a - b, 0, p, k);
    }
    if Zero(a - b, p) {
      var k := CongMultiple(a - b, 0, p);
      CongByMultiple(a, b, p, k);
    }
  }

  /** Equal squares come from equal or opposite numbers. */
  lemma SquareRoots(a: int, b: int, p: int)
    requires p > 1 && Field(p) && Cong(a * a, b * b, p)
    ensures Cong(a, b, p) || Cong(a, -b, p)
  {
    Difference(a * a, b * b, p);
    assert (a - b) * (a + b) == a * a - b * b;
    NoZeroDivisors(a - b, a + b, p);
    Difference(a, b, p);
    Difference(a, -b, p);
    assert a - (-b) == a + b;
  }

  lemma {:induction false} PowerOfZero(a: int, n: nat, p: int)
    requires p > 1 && Field(p) && Zero(Power(a, n), p)
    ensures Zero(a, p)
  {
    if n == 0 {
      RemainderIsUnique(1, p, 0, 1);
      RemainderIsUnique(0, p, 0, 0);
    } else {
      assert Power(a, n) == a * Power(a, n - 1);
      NoZeroDivisors(a, Power(a, n - 1), p);
      if !Zero(a, p) { PowerOfZero(a, n - 1, p); }
    }
  }

  // ---- the candidate ------------------------------------------------------------------------

  lemma Powers(v: int)
    ensures Power(v, 3) == v * v * v && Power(v, 4) == v * v * v * v && Power(v, 7) == v * Power(v, 3) * Power(v, 3)
    ensures Power(v, 4) * Power(v, 4) == v * Power(v, 7)
  {
    PowerAdd(v, 3, 4);
    PowerAdd(v, 4, 4);
    PowerAdd(v, 1, 3);
    PowerAdd(v, 1, 7);
    PowerAdd(v, 1, 2);
    PowerAdd(v, 1, 1);
    assert Power(v, 0) == 1 && Power(v, 1) == v;
    MulAssociates(v, Power(v, 3), Power(v, 3));
    assert Power(v, 7) == Power(v, 3) * (v * Power(v, 3));
  }

  lemma Squared(v: int, u: int, a: int, b: int, w: int, m: nat)
    requires a == u * Power(v, 3) && w == u * Power(v, 7) && b == Power(w, m)
    ensures v * ((a * b) * (a * b)) == u * Power(w, 2 * m + 1)
  {
    Powers(v);
    PowerAdd(w, m, m);
    assert Power(w, 2 * m + 1) == w * Power(w, 2 * m);
    var v3 := Power(v, 3);
    SquaredTerms(v, u, v3, b);
  }

  lemma SquaredTerms(v: int, u: int, v3: int, b: int)
    ensures v * (((u * v3) * b) * ((u * v3) * b)) == u * ((u * (v * v3 * v3)) * (b * b))
  {
    var k := u * v3;
    assert (k * b) * (k * b) == (k * k) * (b * b);
    assert k * k == (u * u) * (v3 * v3);
    assert v * ((k * k) * (b * b)) == (v * (k * k)) * (b * b);
    assert v * ((u * u) * (v3 * v3)) == u * (u * (v * v3 * v3)) by {
      assert v * v3 * v3 == v * (v3 * v3);
      assert (u * u) * (v * (v3 * v3)) == u * (u * (v * (v3 * v3)));
      assert v * ((u * u) * (v3 * v3)) == (u * u) * (v * (v3 * v3));
    }
    assert u * (u * (v * v3 * v3)) * (b * b) == u * ((u * (v * v3 * v3)) * (b * b));
  }

  /** The candidate, as a number instead of through its residues. */
  lemma CandidateCong(c: Curve, u: nat, v: nat)
    requires c.Valid()
    ensures Cong(Candidate(c, u, v), (u * Power(v, 3)) * Power(u * Power(v, 7), (c.p - 5) / 8), c.p)
  {
    var p, m := c.p, (c.p - 5) / 8;
    var w := u * Power(v, 7);
    var inner := u * Residue(v, 7, p) % p;
    var t, a := Residue(inner, m, p), u * Residue(v, 3, p) % p;
    CongRefl(u, p);
    ModCong(Power(v, 7), p);
    ModCong(Power(v, 3), p);
    ModCong(u * Residue(v, 7, p), p);
    ModCong(u * Residue(v, 3, p), p);
    ModCong(Power(inner, m), p);
    ModCong(a * t, p);
    assert Candidate(c, u, v) == a * t % p;
    assert Residue(v, 7, p) == Power(v, 7) % p && Residue(v, 3, p) == Power(v, 3) % p && t == Power(inner, m) % p;
    hide Cong, Power, Residue, Candidate, Curve.Valid;
    CongMul(u, u, Residue(v, 7, p), Power(v, 7), p);
    CongChain(inner, u * Residue(v, 7, p), w, p);
    PowerCong(inner, w, m, p);
    CongChain(t, Power(inner, m), Power(w, m), p);
    CongMul(u, u, Residue(v, 3, p), Power(v, 3), p);
    CongChain(a, u * Residue(v, 3, p), u * Power(v, 3), p);
    CongMul(a, u * Power(v, 3), t, Power(w, m), p);
    CongChain(a * t % p, a * t, (u * Power(v, 3)) * Power(w, m), p);
  }

  lemma CandidateSquare(c: Curve, u: nat, v: nat)
    requires c.Valid()
    ensures var r := Candidate(c, u, v);
            Cong(v * (r * r), u * Power(u * Power(v, 7), 2 * ((c.p - 5) / 8) + 1), c.p)
  {
    var p, m, r := c.p, (c.p - 5) / 8, Candidate(c, u, v);
    var a, w := u * Power(v, 3), u * Power(v, 7);
    var b := Power(w, m);
    CandidateCong(c, u, v);
    Squared(v, u, a, b, w, m);
    hide Cong, Power, Candidate, Curve.Valid;
    CongMul(r, a * b, r, a * b, p);
    CongRefl(v, p);
    CongMul(v, v, r * r, (a * b) * (a * b), p);
  }

  /** w = u * v^7 is a square when u = v * x^2. */
  lemma SquareInside(u: int, v: int, x: int, p: int)
    requires p > 1 && Cong(v * (x * x), u, p)
    ensures var s := Power(v, 4) * x; Cong(u * Power(v, 7), s * s, p)
  {
    Powers(v);
    var v4, v7 := Power(v, 4), Power(v, 7);
    hide Cong, Power;
    CongRefl(v7, p);
    CongMul(v * (x * x), u, v7, v7, p);
    assert (v4 * x) * (v4 * x) == (v4 * v4) * (x * x);
    assert (v * v7) * (x * x) == (v * (x * x)) * v7;
    CongFlip((v * (x * x)) * v7, u * v7, p);
  }

  lemma HalfPower(s: int, w: int, m: nat, p: int)
    requires p > 1 && p == 8 * m + 5 && Cong(w, s * s, p)
    ensures Cong(Power(w, 2 * m + 1), Power(s, 4 * m + 2), p)
    ensures Power(s, 4 * m + 2) * Power(s, 4 * m + 2) == Power(s, p - 1)
  {
    PowerCong(w, s * s, 2 * m + 1, p);
    PowerSquare(s, 2 * m + 1);
    PowerAdd(s, 4 * m + 2, 4 * m + 2);
    assert 2 * (2 * m + 1) == 4 * m + 2 && (4 * m + 2) + (4 * m + 2) == p - 1;
  }

  /** The exponent (p-1)/2 gives 1 or -1, by Fermat. */
  lemma Euler(s: int, m: nat, p: int)
    requires p > 1 && p == 8 * m + 5 && Field(p) && !Zero(s, p)
    ensures Cong(Power(s, 4 * m + 2), 1, p) || Cong(Power(s, 4 * m + 2), -1, p)
  {
    hide Cong, Power, Field;
    CongRefl(s * s, p);
    HalfPower(s, s * s, m, p);
    Fermat(s, p);
    var h := Power(s, 4 * m + 2);
    assert 1 * 1 == 1;
    SquareRoots(h, 1, p);
  }

  predicate Suits(p: int) {
    p % 8 == 5
  }

  /** A number whose square is v times as much as the candidate's makes v times its square u or -u. */
  lemma CandidateSuits(r: int, u: int, v: int, x: int, m: nat, p: int)
    requires p == 8 * m + 5 && Field(p) && 0 <= u < p && !Zero(v, p)
    requires Cong(v * (x * x), u, p) && Cong(v * (r * r), u * Power(u * Power(v, 7), 2 * m + 1), p)
    ensures Cong(v * (r * r), u, p) || Cong(v * (r * r), -u, p)
  {
    hide Cong, Power, Field, Zero;
    var w, s := u * Power(v, 7), Power(v, 4) * x;
    SquareInside(u, v, x, p);
    HalfPower(s, w, m, p);
    var h := Power(s, 4 * m + 2);
    CongRefl(u, p);
    CongMul(u, u, Power(w, 2 * m + 1), h, p);
    CongChain(v * (r * r), u * Power(w, 2 * m + 1), u * h, p);
    if Zero(s, p) {
      ZeroRoot(v, x, u, p);
      assert u * h == u;
    } else {
      Euler(s, m, p);
      UpToSign(u, h, v * (r * r), p);
    }
  }

  lemma UpToSign(u: int, h: int, t: int, p: int)
    requires p > 0 && Cong(t, u * h, p) && (Cong(h, 1, p) || Cong(h, -1, p))
    ensures Cong(t, u, p) || Cong(t, -u, p)
  {
    hide Cong;
    CongRefl(u, p);
    var sign := if Cong(h, 1, p) then 1 else -1;
    CongMul(u, u, h, sign, p);
    assert u * 1 == u && u * -1 == -u;
    CongChain(t, u * h, u * sign, p);
  }

  /** If v^4 * x vanishes and v does not, x and u do. */
  lemma ZeroRoot(v: int, x: int, u: int, p: int)
    requires p > 1 && Field(p) && !Zero(v, p) && Zero(Power(v, 4) * x, p)
    requires 0 <= u < p && Cong(v * (x * x), u, p)
    ensures u == 0 && Zero(x, p)
  {
    hide Power, Field;
    NoZeroDivisors(Power(v, 4), x, p);
    if !Zero(x, p) { PowerOfZero(v, 4, p); }
    var k := CongMultiple(x, 0, p);
    assert v * (x * x) == (v * x * k) * p by { assert x == k * p; assert v * (x * (k * p)) == (v * x * k) * p; }
    CongByMultiple(v * (x * x), 0, p, v * x * k);
    CongFlip(v * (x * x), u, p);
    hide Cong;
    CongChain(u, v * (x * x), 0, p);
    SmallIsItsResidue(u, 0, p);
  }

  /** The residue a comparison sees. */
  lemma ResidueOf(a: int, u: int, p: int)
    requires p > 0 && 0 <= u < p
    ensures Cong(a, u, p) ==> a % p == u
    ensures Cong(a, -u, p) ==> a % p == (p - u) % p
  {
    ModCong(a, p);
    RemainderIsUnique(u, p, 0, u);
    if Cong(a, -u, p) {
      CongByMultiple(p - u, -u, p, 1);
    }
  }

  /** t stands for v times the square of r. */
  lemma CorrectedSome(c: Curve, u: nat, v: nat, r: nat, t: int)
    requires c.Valid() && u < c.p && r < c.p
    requires Cong(t, u, c.p) || Cong(t, -(u as int), c.p)
    requires t == v * r * r
    ensures Corrected(c, u, v, r).Some?
  {
    ResidueOf(t, u, c.p);
    hide Cong, Power;
  }

  lemma RootIs(c: Curve, u: nat, v: nat)
    requires c.Valid() && u < c.p
    ensures Root(c, u, v) == Corrected(c, u, v, Candidate(c, u, v))
  {}

  /** Root finds a root whenever there is one, and it is that one or its opposite. */
  lemma RootFound(c: Curve, u: nat, v: nat, x: int)
    requires c.Valid() && Field(c.p) && Suits(c.p) && u < c.p && !Zero(v, c.p)
    requires Cong(v * (x * x), u, c.p)
    ensures Root(c, u, v).Some?
    ensures Cong(Root(c, u, v).value, x, c.p) || Cong(Root(c, u, v).value, -x, c.p)
  {
    hide Cong, Root, Field, Zero, Candidate, Power;
    var r, p := Candidate(c, u, v), c.p;
    CandidateSquare(c, u, v);
    CandidateSuits(r, u, v, x, (p - 5) / 8, p);
    assert v * r * r == v * (r * r);
    CorrectedSome(c, u, v, r, v * (r * r));
    assert Root(c, u, v) == Corrected(c, u, v, r) by { RootIs(c, u, v); }
    RootSquares(c, u, v);
    var root := Root(c, u, v).value;
    CongFlip(v * (x * x), u, p);
    CongChain(v * (root * root), u, v * (x * x), p);
    CancelFactor(root * root, x * x, v, p);
    SquareRoots(root, x, p);
  }

  lemma CancelFactor(a: int, b: int, v: int, p: int)
    requires p > 1 && Field(p) && !Zero(v, p) && Cong(v * a, v * b, p)
    ensures Cong(a, b, p)
  {
    hide Zero, Field, Cong;
    Difference(v * a, v * b, p);
    assert v * (a - b) == v * a - v * b;
    NoZeroDivisors(v, a - b, p);
    Difference(a, b, p);
  }

  // ---- decoding an encoding --------------------------------------------------------------------

  /** v = d*y^2 + 1 does not vanish on the curve. */
  lemma DenominatorIsNoZero(c: Curve, g: Affine)
    requires c.Valid() && Element(c, g) && !Zero(c.d + 1, c.p)
    ensures
      var y2 := g.y * g.y % c.p;
      var u, v := (y2 - 1 + c.p) % c.p, (c.d * y2 + 1) % c.p;
      0 <= u < c.p && 0 <= v < c.p && Cong(v * (g.x * g.x), u, c.p) && !Zero(v, c.p)
  {
    var p, yy := c.p, g.y * g.y;
    var y2 := yy % p;
    var u, v := (y2 - 1 + p) % p, (c.d * y2 + 1) % p;
    CurveRearranged(c, g);
    ModCong(y2 - 1 + p, p);
    ModCong(c.d * y2 + 1, p);
    hide Cong, Element, OnCurve, Curve.Valid, Zero;
    DenominatorCong(c.d, yy, p);
    NumeratorCong(yy, p);
    FractionOnCurve(v, u, g.x * g.x, yy, c.d, p);
  }

  lemma CurveRearranged(c: Curve, g: Affine)
    requires c.p > 0 && OnCurve(c, g)
    ensures Cong(g.y * g.y - g.x * g.x, 1 + (c.d * (g.y * g.y)) * (g.x * g.x), c.p)
  {
    hide Cong;
    assert g.x * g.x * g.y * g.y == (g.x * g.x) * (g.y * g.y);
    MulAssociates(c.d, g.y * g.y, g.x * g.x);
  }

  lemma FractionOnCurve(v: int, u: int, xx: int, yy: int, d: int, p: int)
    requires p > 1 && !Zero(d + 1, p)
    requires Cong(v, d * yy + 1, p) && Cong(u, yy - 1, p) && Cong(yy - xx, 1 + (d * yy) * xx, p)
    ensures Cong(v * xx, u, p) && !Zero(v, p)
  {
    hide Cong, Zero;
    CongRefl(xx, p);
    CongMul(v, d * yy + 1, xx, xx, p);
    assert (d * yy + 1) * xx == (d * yy) * xx + xx;
    MovedOver((d * yy) * xx, xx, yy, p);
    CongChain(v * xx, (d * yy) * xx + xx, yy - 1, p);
    CongFlip(u, yy - 1, p);
    CongChain(v * xx, yy - 1, u, p);
    if Zero(v, p) { VanishingDenominator(v, u, xx, yy, d, p); }
  }

  lemma MovedOver(e: int, xx: int, yy: int, p: int)
    requires p > 0 && Cong(yy - xx, 1 + e, p)
    ensures Cong(e + xx, yy - 1, p)
  {
    var k := CongMultiple(yy - xx, 1 + e, p);
    CongByMultiple(e + xx, yy - 1, p, -k);
  }

  lemma VanishingDenominator(v: int, u: int, xx: int, yy: int, d: int, p: int)
    requires p > 1 && Zero(v, p) && Cong(v * xx, u, p) && Cong(u, yy - 1, p) && Cong(v, d * yy + 1, p)
    ensures Zero(d + 1, p)
  {
    var k := CongMultiple(v, 0, p);
    var l := CongMultiple(v * xx, u, p);
    var n := CongMultiple(u, yy - 1, p);
    var q := CongMultiple(v, d * yy + 1, p);
    var j := k * xx - l - n;
    assert v * xx == (k * xx) * p;
    assert yy - 1 == j * p by { assert (k * xx) * p - l * p - n * p == j * p; }
    var f := k - q - d * j;
    assert d * yy == d + (d * j) * p by { assert yy == 1 + j * p; assert d * (1 + j * p) == d + (d * j) * p; }
    assert d + 1 == f * p by { assert k * p - q * p - (d * j) * p == f * p; }
    CongByMultiple(d + 1, 0, p, f);
  }

  /** The bytes of an encoding say y and the parity of x. */
  lemma EncodingReads(g: Affine)
    requires g.x >= 0 && 0 <= g.y < TOP
    ensures |Encoding(g)| == 32 && Encoding(g)[31] / 128 == g.x % 2 && Le(Encoding(g)) % TOP == g.y
  {
    hide Power, Le, ToLe;
    TopBitFree(g.y);
    YFitsBytes(g.y);
    LeInvertsToLe(g.y, 32);
    var low, bytes := ToLe(g.y, 32), Encoding(g);
    SplitTopBit(bytes);
    LastByte(low[31], g.x % 2, bytes[31]);
    assert bytes[..31] == low[..31];
    assert low[..31] + [low[31]] == low;
  }

  lemma LastByte(low: Byte, sign: int, last: Byte)
    requires low < 128 && (sign == 0 || sign == 1) && last == low + sign * 128
    ensures last / 128 == sign && last % 128 == low
  {}

  /** Of two opposite roots the parity picks one. */
  lemma ParityPicks(root: int, x: int, p: int)
    requires p > 1 && p % 2 == 1 && 0 <= root < p && 0 <= x < p && (Cong(root, x, p) || Cong(root, -x, p))
    ensures !(root == 0 && x % 2 == 1) && Signed(root, x % 2, p) == x
  {
    hide Cong;
    if Cong(root, x, p) {
      SmallIsItsResidue(root, x, p);
    } else if x == 0 {
      SmallIsItsResidue(root, 0, p);
    } else {
      CongByMultiple(p - x, -x, p, 1);
      CongFlip(p - x, -x, p);
      CongChain(root, -x, p - x, p);
      SmallIsItsResidue(root, p - x, p);
      RemainderIsUnique(p - root, p, 0, p - root);
    }
  }

  /** Every point of the curve has an encoding that decodePt accepts, and decodes to that point. */
  lemma DecodeInvertsEncoding(c: Curve, g: Affine)
    requires c.Valid() && Field(c.p) && Suits(c.p) && !Zero(c.d + 1, c.p) && Element(c, g)
    ensures |Encoding(g)| == 32 && DecodePt(c, Encoding(g)) == Some(Pt(g.x, g.y, 1, g.x * g.y % c.p))
  {
    EncodingReads(g);
    DenominatorIsNoZero(c, g);
    var y2 := g.y * g.y % c.p;
    var u, v := (y2 - 1 + c.p) % c.p, (c.d * y2 + 1) % c.p;
    RootFound(c, u, v, g.x);
    ParityPicks(Root(c, u, v).value, g.x, c.p);
    hide Cong, Root, Le, Power, Field, Zero, Encoding, Signed;
  }

  /** And so does what encodePt makes of any representative of it. */
  lemma DecodeInvertsEncode(c: Curve, a: Pt, g: Affine)
    requires c.Valid() && Field(c.p) && Suits(c.p) && !Zero(c.d + 1, c.p) && Element(c, g) && Represents(c, a, g)
    ensures |EncodePt(c, a)| == 32 && DecodePt(c, EncodePt(c, a)) == Some(Pt(g.x, g.y, 1, g.x * g.y % c.p))
  {
    hide EncodePt, DecodePt, Field, Encoding;
    UnitsInvert(a.Z, c.p);
    EncodesTheAffinePoint(c, a, g);
    DecodeInvertsEncoding(c, g);
  }

  /** Fermat's inverse. */
  lemma UnitsInvert(z: int, p: int)
    requires p > 2 && Field(p) && Unit(z, p)
    ensures Cong(z * Power(z, p - 2), 1, p)
  {
    if Zero(z, p) {
      var i :| Cong(z * i, 1, p);
      var k := CongMultiple(z, 0, p);
      var l := CongMultiple(z * i, 1, p);
      assert 1 == (k * i - l) * p by { assert z * i == (k * i) * p; assert (k * i) * p - l * p == (k * i - l) * p; }
      CongByMultiple(1, 0, p, k * i - l);
      SmallIsItsResidue(1, 0, p);
    }
    Fermat(z, p);
    assert Power(z, p - 1) == z * Power(z, p - 2);
  }

  // ---- the curve itself ----------------------------------------------------------------------------

  /** The base point. */
  const BASE_POINT := Affine(
    15112221349535400772501151409588531511454012693041857206046113283949847762202,
    46316835694926478169428394003475163141307993866256225615783033603165251855960)

  lemma BaseIsElement()
    ensures Element(ED25519, BASE_POINT)
  {}

  lemma Ed25519Suits()
    ensures ED25519.Valid() && Suits(ED25519.p) && !Zero(ED25519.d + 1, ED25519.p)
  {
    Ed25519IsValid();
  }
}

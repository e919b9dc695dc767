/** Residues: the remainder operator of JavaScript, congruence, powers. */
module Modular {
  /** `a % p` on BigInts: truncated division, the sign of a. */
  function Rem(a: int, p: int): (r: int)
    requires p > 0
    ensures -p < r < p && (a >= 0 ==> r == a % p)
  {
    if a >= 0 then a % p else -((-a) % p)
  }

  predicate Cong(a: int, b: int, p: int)
    requires p > 0
  {
    a % p == b % p
  }

  lemma MultipleIsFar(k: int, p: int)
    requires p > 0
    ensures k >= 1 ==> k * p >= p
    ensures k <= -1 ==> k * p <= -p
  {}

  lemma RemainderIsUnique(x: int, p: int, q: int, r: int)
    requires p > 0 && x == q * p + r && 0 <= r < p
    ensures x % p == r && x / p == q
  {
    var k := x / p - q;
    assert k * p == r - x % p;
    MultipleIsFar(k, p);
  }

  /** Congruent numbers differ by a multiple, and conversely. */
  lemma CongByMultiple(a: int, b: int, p: int, k: int)
    requires p > 0 && a == b + k * p
    ensures Cong(a, b, p)
  {
    assert a == (b / p + k) * p + b % p;
    RemainderIsUnique(a, p, b / p + k, b % p);
  }

  lemma CongMultiple(a: int, b: int, p: int) returns (k: int)
    requires p > 0 && Cong(a, b, p)
    ensures a == b + k * p
  {
    k := a / p - b / p;
    assert a == a / p * p + a % p && b == b / p * p + b % p;
  }

  lemma CongAdd(a: int, b: int, c: int, e: int, p: int)
    requires p > 0 && Cong(a, b, p) && Cong(c, e, p)
    ensures Cong(a + c, b + e, p)
  {
    var k := CongMultiple(a, b, p);
    var l := CongMultiple(c, e, p);
    CongByMultiple(a + c, b + e, p, k + l);
  }

  lemma CongSub(a: int, b: int, c: int, e: int, p: int)
    requires p > 0 && Cong(a, b, p) && Cong(c, e, p)
    ensures Cong(a - c, b - e, p)
  {
    var k := CongMultiple(a, b, p);
    var l := CongMultiple(c, e, p);
    CongByMultiple(a - c, b - e, p, k - l);
  }

  lemma CongMul(a: int, b: int, c: int, e: int, p: int)
    requires p > 0 && Cong(a, b, p) && Cong(c, e, p)
    ensures Cong(a * c, b * e, p)
  {
    var k := CongMultiple(a, b, p);
    var l := CongMultiple(c, e, p);
    hide Cong;
    calc {
      a * c;
      (b + k * p) * (e + l * p);
      b * e + b * (l * p) + (k * p) * e + (k * p) * (l * p);
      b * e + (b * l + k * e + k * (l * p)) * p;
    }
    CongByMultiple(a * c, b * e, p, b * l + k * e + k * (l * p));
  }

  lemma RemCong(a: int, p: int)
    requires p > 0
    ensures Cong(Rem(a, p), a, p)
  {
    if a >= 0 {
      CongByMultiple(a, a % p, p, a / p);
    } else {
      CongByMultiple(-((-a) % p), a, p, (-a) / p);
    }
  }

  lemma ModCong(a: int, p: int)
    requires p > 0
    ensures Cong(a % p, a, p) && 0 <= a % p < p
  {
    CongByMultiple(a, a % p, p, a / p);
  }

  lemma SmallIsItsResidue(a: int, b: int, p: int)
    requires p > 0 && 0 <= a < p && 0 <= b < p && Cong(a, b, p)
    ensures a == b
  {
    RemainderIsUnique(a, p, 0, a);
    RemainderIsUnique(b, p, 0, b);
  }

  // ---- powers -------------------------------------------------------------------------

  function Power(b: int, e: nat): int {
    if e == 0 then 1 else b * Power(b, e - 1)
  }

  lemma {:induction false} PowerAdd(b: int, m: nat, n: nat)
    ensures Power(b, m + n) == Power(b, m) * Power(b, n)
  {
    if m > 0 {
      PowerAdd(b, m - 1, n);
      assert b * (Power(b, m - 1) * Power(b, n)) == (b * Power(b, m - 1)) * Power(b, n);
    }
  }

  lemma {:induction false} PowerSquare(b: int, n: nat)
    ensures Power(b * b, n) == Power(b, 2 * n)
  {
    if n > 0 {
      PowerSquare(b, n - 1);
      PowerAdd(b, 2, 2 * (n - 1));
      assert Power(b, 2) == b * Power(b, 1) == b * (b * Power(b, 0));
    }
  }

  lemma {:induction false} PowerCong(a: int, b: int, e: nat, p: int)
    requires p > 0 && Cong(a, b, p)
    ensures Cong(Power(a, e), Power(b, e), p)
  {
    hide Cong;
    if e > 0 {
      PowerCong(a, b, e - 1, p);
      CongMul(a, b, Power(a, e - 1), Power(b, e - 1), p);
    } else {
      CongByMultiple(1, 1, p, 0);
    }
  }

  lemma {:induction false} PowerOfOne(e: nat)
    ensures Power(1, e) == 1
  {
    if e > 0 { PowerOfOne(e - 1); }
  }

  /** modPow of runtime/dsh/ed25519.js: the truncated remainder of every product. The result is a
      representative of base^exp, and the least non-negative one when the base is not negative. */
  method ModPow(base: int, exp: nat, p: int) returns (result: int)
    requires p > 1
    ensures Cong(result, Power(base, exp), p) && -p < result < p
    ensures base >= 0 ==> result == Power(base, exp) % p
  {
    result := 1;
    var b := Rem(base, p);
    var e := exp;
    RemCong(base, p);
    PowerCong(b, base, exp, p);
    hide Cong, Power;
    while e > 0
      invariant e >= 0 && -p < result < p && (base >= 0 ==> result >= 0 && b >= 0)
      invariant Cong(result * Power(b, e), Power(base, exp), p)
    {
      PowerStep(result, b, e, p);
      if e % 2 == 1 { result := Rem(result * b, p); }
      b := Rem(b * b, p);
      e := e / 2;
    }
    PowerDone(result, b, Power(base, exp), p);
  }

  lemma PowerDone(result: int, b: int, target: int, p: int)
    requires p > 1 && Cong(result * Power(b, 0), target, p)
    ensures Cong(result, target, p) && (0 <= result < p ==> result == target % p)
  {
    assert result * Power(b, 0) == result;
    if 0 <= result < p { RemainderIsUnique(result, p, 0, result); }
  }

  lemma ProductsKeepSign(a: int, b: int, p: int)
    requires p > 1 && a >= 0 && b >= 0
    ensures Rem(a * b, p) >= 0
  {
    assert a * b >= 0;
  }

  /** The half of the exponent the loop keeps, and the factor it drops. */
  lemma PowerHalved(result: int, b: int, e: nat)
    requires e > 0
    ensures (if e % 2 == 1 then result * b else result) * Power(b * b, e / 2) == result * Power(b, e)
  {
    PowerSquare(b, e / 2);
    if e % 2 == 1 {
      assert e == 2 * (e / 2) + 1;
      OddPower(result, b, e);
    } else {
      assert e == 2 * (e / 2);
    }
  }

  lemma OddPower(result: int, b: int, e: nat)
    requires e > 0
    ensures (result * b) * Power(b, e - 1) == result * Power(b, e)
  {
    assert Power(b, e) == b * Power(b, e - 1);
    MulAssociates(result, b, Power(b, e - 1));
  }

  lemma MulAssociates(x: int, y: int, z: int)
    ensures (x * y) * z == x * (y * z)
  {}

  lemma PowerStep(result: int, b: int, e: nat, p: int)
    requires p > 1 && e > 0
    ensures Cong((if e % 2 == 1 then Rem(result * b, p) else result) * Power(Rem(b * b, p), e / 2), result * Power(b, e), p)
    ensures result >= 0 && b >= 0 ==> Rem(result * b, p) >= 0 && Rem(b * b, p) >= 0
  {
    if result >= 0 && b >= 0 {
      ProductsKeepSign(result, b, p);
      ProductsKeepSign(b, b, p);
    }
    PowerHalved(result, b, e);
    RemCong(b * b, p);
    RemCong(result * b, p);
    PowerCong(Rem(b * b, p), b * b, e / 2, p);
    CongRefl(result, p);
    hide Cong, Power, Rem;
    CongMul(if e % 2 == 1 then Rem(result * b, p) else result, if e % 2 == 1 then result * b else result,
            Power(Rem(b * b, p), e / 2), Power(b * b, e / 2), p);
  }

  lemma CongRefl(a: int, p: int)
    requires p > 0
    ensures Cong(a, a, p)
  {}
}

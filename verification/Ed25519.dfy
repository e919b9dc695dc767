/** Scalar multiplication, point encoding and the verification equation (runtime/dsh/ed25519.js:188-280). */
module Ed25519 {
  import opened Wrappers
  import opened JsText
  import opened Modular
  import opened Edwards

  // ---- double-and-add -------------------------------------------------------------------

  /** What the loop of mulPt makes of its three variables. */
  function Ladder(c: Curve, result: Pt, addend: Pt, k: nat): Pt
    requires c.p > 0
    decreases k
  {
    if k == 0 then result
    else Ladder(c, if k % 2 == 1 then AddPts(c, result, addend) else result, AddPts(c, addend, addend), k / 2)
  }

  method MulPt(c: Curve, a: Pt, n: int) returns (result: Pt)
    requires c.p > 0 && c.order > 0
    ensures result == Ladder(c, IDENTITY, a, n % c.order)
  {
    result := IDENTITY;
    var addend := a;
    var k := Rem(Rem(n, c.order) + c.order, c.order);
    Normalized(n, c.order);
    while k > 0
      invariant k >= 0 && Ladder(c, result, addend, k) == Ladder(c, IDENTITY, a, n % c.order)
    {
      if k % 2 == 1 { result := AddPts(c, result, addend); }
      addend := AddPts(c, addend, addend);
      k := k / 2;
    }
  }

  /** `((n % m) + m) % m` is the residue in [0, m). */
  lemma Normalized(n: int, m: int)
    requires m > 0
    ensures Rem(Rem(n, m) + m, m) == n % m
  {
    var r := Rem(n, m) + m;
    RemCong(n, m);
    CongByMultiple(r, Rem(n, m), m, 1);
    assert Rem(r, m) == r % m;
  }

  /** The curve equation, with a = -1. */
  ghost predicate OnCurve(c: Curve, g: Affine)
    requires c.p > 0
  {
    Cong(g.y * g.y - g.x * g.x, 1 + c.d * (g.x * g.x * g.y * g.y), c.p)
  }

  ghost predicate Element(c: Curve, g: Affine)
    requires c.p > 0
  {
    0 <= g.x < c.p && 0 <= g.y < c.p && OnCurve(c, g)
  }

  type Sum = (Affine, Affine) -> Affine

  /** The assumption on the curve: the affine law is defined for all points (d is not a square) and
      makes them a group. */
  ghost predicate GroupLaw(c: Curve, plus: Sum)
    requires c.p > 0
  {
    && (forall g, h :: Element(c, g) && Element(c, h) ==>
          Element(c, plus(g, h)) && IsSum(c, g, h, plus(g, h))
          && Unit(1 + Twist(c, g, h), c.p) && Unit(1 - Twist(c, g, h), c.p))
    && (forall g, h, k :: Element(c, g) && Element(c, h) && Element(c, k) ==>
          plus(plus(g, h), k) == plus(g, plus(h, k)))
    && (forall g :: Element(c, g) ==> plus(NEUTRAL, g) == g && plus(g, NEUTRAL) == g)
  }

  lemma GroupCloses(c: Curve, plus: Sum, g: Affine, h: Affine)
    requires c.p > 0 && GroupLaw(c, plus) && Element(c, g) && Element(c, h)
    ensures Element(c, plus(g, h)) && IsSum(c, g, h, plus(g, h))
    ensures Unit(1 + Twist(c, g, h), c.p) && Unit(1 - Twist(c, g, h), c.p)
  {
    hide Element, IsSum, Unit, Twist;
  }

  lemma GroupAssociates(c: Curve, plus: Sum, g: Affine, h: Affine, k: Affine)
    requires c.p > 0 && GroupLaw(c, plus) && Element(c, g) && Element(c, h) && Element(c, k)
    ensures plus(plus(g, h), k) == plus(g, plus(h, k))
  {
    hide Element, IsSum, Unit, Twist;
  }

  lemma GroupNeutral(c: Curve, plus: Sum, g: Affine)
    requires c.p > 0 && GroupLaw(c, plus) && Element(c, g)
    ensures plus(NEUTRAL, g) == g && plus(g, NEUTRAL) == g
  {
    hide Element, IsSum, Unit, Twist;
  }

  /** g added up n times. */
  function Times(plus: Sum, g: Affine, n: nat): Affine {
    if n == 0 then NEUTRAL else plus(Times(plus, g, n - 1), g)
  }

  lemma NeutralIsElement(c: Curve)
    requires c.p > 1
    ensures Element(c, NEUTRAL)
  {
    assert 1 * 1 - 0 * 0 == 1 + c.d * (0 * 0 * 1 * 1);
  }

  lemma {:induction false} TimesIsElement(c: Curve, plus: Sum, g: Affine, n: nat)
    requires c.p > 1 && GroupLaw(c, plus) && Element(c, g)
    ensures Element(c, Times(plus, g, n))
  {
    hide Element, GroupLaw;
    NeutralIsElement(c);
    if n > 0 {
      TimesIsElement(c, plus, g, n - 1);
      GroupCloses(c, plus, Times(plus, g, n - 1), g);
    }
  }

  lemma {:induction false} TimesAdd(c: Curve, plus: Sum, g: Affine, m: nat, n: nat)
    requires c.p > 1 && GroupLaw(c, plus) && Element(c, g)
    ensures Times(plus, g, m + n) == plus(Times(plus, g, m), Times(plus, g, n))
  {
    hide Element, GroupLaw;
    TimesIsElement(c, plus, g, m);
    if n == 0 {
      GroupNeutral(c, plus, Times(plus, g, m));
    } else {
      TimesAdd(c, plus, g, m, n - 1);
      TimesIsElement(c, plus, g, n - 1);
      GroupAssociates(c, plus, Times(plus, g, m), Times(plus, g, n - 1), g);
    }
  }

  lemma TimesOneTwo(c: Curve, plus: Sum, g: Affine)
    requires c.p > 1 && GroupLaw(c, plus) && Element(c, g)
    ensures Times(plus, g, 1) == g && Times(plus, g, 2) == plus(g, g)
  {
    hide Element, GroupLaw;
    GroupNeutral(c, plus, g);
    assert Times(plus, g, 1) == plus(Times(plus, g, 0), g);
    assert Times(plus, g, 2) == plus(Times(plus, g, 1), g);
  }

  lemma {:induction false} TimesDouble(c: Curve, plus: Sum, g: Affine, n: nat)
    requires c.p > 1 && GroupLaw(c, plus) && Element(c, g)
    ensures Times(plus, plus(g, g), n) == Times(plus, g, 2 * n)
  {
    hide Element, GroupLaw;
    if n > 0 {
      TimesDouble(c, plus, g, n - 1);
      TimesAdd(c, plus, g, 2 * (n - 1), 2);
      TimesOneTwo(c, plus, g);
    }
  }

  /** Adding representatives represents the sum. */
  lemma AddRepresents(c: Curve, plus: Sum, a: Pt, b: Pt, g: Affine, h: Affine)
    requires c.p > 1 && GroupLaw(c, plus) && Element(c, g) && Element(c, h)
    requires Represents(c, a, g) && Represents(c, b, h)
    ensures Represents(c, AddPts(c, a, b), plus(g, h)) && Element(c, plus(g, h))
  {
    hide Cong, Unit, Element, IsSum, Twist, GroupLaw, AddPts;
    GroupCloses(c, plus, g, h);
    TwistTerm(c, a, b, g, h);
    DenominatorsAreUnits(a.Z, b.Z, c.d * a.T * b.T, Twist(c, g, h), c.p);
    SumRepresents(c, a, b, g, h, plus(g, h));
  }

  lemma DenominatorsAreUnits(z: int, z2: int, q: int, t: int, p: int)
    requires p > 0 && Unit(z, p) && Unit(z2, p) && Unit(1 + t, p) && Unit(1 - t, p) && Cong(q, (z * z2) * t, p)
    ensures Unit(z * z2 + q, p) && Unit(z * z2 - q, p)
  {
    hide Cong, Unit;
    var w := z * z2;
    ProductOfUnits(z, z2, p);
    ProductOfUnits(w, 1 + t, p);
    ProductOfUnits(w, 1 - t, p);
    CongRefl(w, p);
    CongAdd(w, w, q, w * t, p);
    CongSub(w, w, q, w * t, p);
    assert w * (1 + t) == w + w * t && w * (1 - t) == w - w * t;
    CongFlip(w + q, w + w * t, p);
    CongFlip(w - q, w - w * t, p);
    UnitCong(w + w * t, w + q, p);
    UnitCong(w - w * t, w - q, p);
  }

  lemma CongFlip(a: int, b: int, p: int)
    requires p > 0 && Cong(a, b, p)
    ensures Cong(b, a, p)
  {}

  lemma IdentityRepresents(c: Curve)
    requires c.p > 1
    ensures Represents(c, IDENTITY, NEUTRAL)
  {
    assert Cong(1 * 1, 1, c.p);
  }

  lemma {:induction false} LadderRepresents(c: Curve, plus: Sum, result: Pt, addend: Pt, r: Affine, g: Affine, k: nat)
    requires c.p > 1 && GroupLaw(c, plus) && Element(c, r) && Element(c, g)
    requires Represents(c, result, r) && Represents(c, addend, g)
    ensures Represents(c, Ladder(c, result, addend, k), plus(r, Times(plus, g, k)))
    decreases k
  {
    hide Represents, AddPts, Element, GroupLaw;
    if k == 0 {
      GroupNeutral(c, plus, r);
    } else {
      var half := k / 2;
      AddRepresents(c, plus, result, addend, r, g);
      AddRepresents(c, plus, addend, addend, g, g);
      TimesDouble(c, plus, g, half);
      if k % 2 == 1 {
        LadderRepresents(c, plus, AddPts(c, result, addend), AddPts(c, addend, addend), plus(r, g), plus(g, g), half);
        TimesIsElement(c, plus, g, 2 * half);
        GroupAssociates(c, plus, r, g, Times(plus, g, 2 * half));
        TimesAdd(c, plus, g, 1, 2 * half);
        TimesOneTwo(c, plus, g);
        assert k == 1 + 2 * half;
      } else {
        LadderRepresents(c, plus, result, AddPts(c, addend, addend), r, plus(g, g), half);
      }
    }
  }

  /** mulPt computes the (n mod L)-fold sum. */
  lemma MulRepresents(c: Curve, plus: Sum, a: Pt, g: Affine, n: int)
    requires c.p > 1 && c.order > 0 && GroupLaw(c, plus) && Element(c, g) && Represents(c, a, g)
    ensures Represents(c, Ladder(c, IDENTITY, a, n % c.order), Times(plus, g, n % c.order))
  {
    hide Represents, Element, GroupLaw, Ladder;
    IdentityRepresents(c);
    NeutralIsElement(c);
    LadderRepresents(c, plus, IDENTITY, a, NEUTRAL, g, n % c.order);
    TimesIsElement(c, plus, g, n % c.order);
    GroupNeutral(c, plus, Times(plus, g, n % c.order));
  }
}

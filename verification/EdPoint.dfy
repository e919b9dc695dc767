/** Point encodings and signature verification (runtime/dsh/ed25519.js:203-280). */
module EdPoint {
  import opened Wrappers
  import opened JsText
  import opened Modular
  import opened Edwards
  import opened Ed25519

  // ---- little-endian numbers ------------------------------------------------------------

  function Le(bytes: Bytes): (v: nat) {
    if bytes == [] then 0 else bytes[0] + 256 * Le(bytes[1..])
  }

  function ToLe(v: nat, n: nat): (r: Bytes)
    ensures |r| == n
  {
    if n == 0 then [] else [v % 256] + ToLe(v / 256, n - 1)
  }

  lemma {:induction false} ToLeInvertsLe(bytes: Bytes)
    ensures ToLe(Le(bytes), |bytes|) == bytes
  {
    if bytes != [] {
      ToLeInvertsLe(bytes[1..]);
      RemainderIsUnique(Le(bytes), 256, Le(bytes[1..]), bytes[0]);
      assert bytes == [bytes[0]] + bytes[1..];
    }
  }

  lemma {:induction false} LeBound(bytes: Bytes)
    ensures Le(bytes) < Power(256, |bytes|)
  {
    if bytes != [] { LeBound(bytes[1..]); }
  }

  /** The last byte is the most significant one. */
  lemma {:induction false} LeLast(bytes: Bytes, last: Byte)
    ensures Le(bytes + [last]) == Le(bytes) + last * Power(256, |bytes|)
    decreases |bytes|
  {
    if bytes == [] {
      assert [] + [last] == [last] && [last][1..] == [];
    } else {
      assert (bytes + [last])[1..] == bytes[1..] + [last];
      LeLast(bytes[1..], last);
      assert 256 * (last * Power(256, |bytes| - 1)) == last * Power(256, |bytes|);
    }
  }

  /** le256 and le512: n bytes from an offset, most significant last. */
  method ReadLe(bytes: Bytes, off: nat, n: nat) returns (v: nat)
    requires off + n <= |bytes|
    ensures v == Le(bytes[off..off + n])
  {
    v := 0;
    var i := n;
    assert bytes[off + n..off + n] == [];
    while i > 0
      invariant 0 <= i <= n && v == Le(bytes[off + i..off + n])
    {
      i := i - 1;
      assert bytes[off + i..off + n][1..] == bytes[off + i + 1..off + n];
      v := v * 256 + bytes[off + i];
    }
  }

  // ---- decodePt --------------------------------------------------------------------------

  function Residue(b: int, e: nat, p: int): (r: nat)
    requires p > 0
    ensures r < p
  {
    Power(b, e) % p
  }

  /** The candidate for x: the square root of u/v when there is one. */
  function Candidate(c: Curve, u: nat, v: nat): (x: nat)
    requires c.Valid()
    ensures x < c.p
  {
    var t := Residue(u * Residue(v, 7, c.p) % c.p, (c.p - 5) / 8, c.p);
    u * Residue(v, 3, c.p) % c.p * t % c.p
  }

  /** x with v*x^2 = u, up to sign. */
  function Root(c: Curve, u: nat, v: nat): (x: Option<nat>)
    requires c.Valid() && u < c.p
    ensures x.Some? ==> x.value < c.p
  {
    Corrected(c, u, v, Candidate(c, u, v))
  }

  /** A candidate x itself, or x times the square root of -1. */
  function Corrected(c: Curve, u: nat, v: nat, x: nat): (r: Option<nat>)
    requires c.Valid() && u < c.p && x < c.p
    ensures r.Some? ==> r.value < c.p
  {
    var vxx := v * x * x % c.p;
    if vxx == u then Some(x)
    else if vxx == (c.p - u) % c.p then Some(x * c.sqrtM1 % c.p)
    else None
  }

  /** The root of the wanted parity. */
  function Signed(x: nat, sign: int, p: int): (r: nat)
    requires p > 0
  {
    if x % 2 != sign then (p - x) % p else x
  }

  function DecodePt(c: Curve, bytes: Bytes): Option<Pt>
    requires c.Valid() && |bytes| == 32
  {
    var sign := bytes[31] / 128;
    var y := Le(bytes) % TOP;
    if y >= c.p then None
    else
      var y2 := y * y % c.p;
      var root := Root(c, (y2 - 1 + c.p) % c.p, (c.d * y2 + 1) % c.p);
      if root.None? || (root.value == 0 && sign == 1) then None
      else
        var x := Signed(root.value, sign, c.p);
        Some(Pt(x, y, 1, x * y % c.p))
  }

  lemma RootSquares(c: Curve, u: nat, v: nat)
    requires c.Valid() && u < c.p && Root(c, u, v).Some?
    ensures var x := Root(c, u, v).value; Cong(v * (x * x), u, c.p)
  {
    hide Candidate, Cong, Power, Corrected;
    CorrectedSquares(c, u, v, Candidate(c, u, v));
  }

  lemma CorrectedSquares(c: Curve, u: nat, v: nat, x: nat)
    requires c.Valid() && u < c.p && x < c.p && Corrected(c, u, v, x).Some?
    ensures var r := Corrected(c, u, v, x).value; Cong(v * (r * r), u, c.p)
  {
    hide Cong, Power;
    var p := c.p;
    MulAssociates(v, x, x);
    if v * x * x % p == u {
      ModCong(v * (x * x), p);
      CongFlip(u, v * (x * x), p);
    } else {
      OtherRoot(x, v, u, c.sqrtM1, p);
    }
  }

  /** If v*x^2 = -u, then multiplying x by a square root of -1 gives a root. */
  lemma OtherRoot(x: int, v: int, u: int, i: int, p: int)
    requires p > 0 && 0 <= u < p && v * (x * x) % p == (p - u) % p && Cong(i * i, -1, p)
    ensures Cong(v * ((x * i % p) * (x * i % p)), u, p)
  {
    hide Cong;
    var r, s := x * i % p, x * x;
    NegatedSquare(v * s, u, p);
    ModCong(x * i, p);
    CongMul(r, x * i, r, x * i, p);
    assert (x * i) * (x * i) == s * (i * i);
    CongRefl(s, p);
    CongMul(s, s, i * i, -1, p);
    CongChain(r * r, s * (i * i), s * -1, p);
    CongRefl(v, p);
    CongMul(v, v, r * r, s * -1, p);
    assert v * (s * -1) == -(v * s);
    CongChain(v * (r * r), -(v * s), u, p);
  }

  lemma NegatedSquare(s: int, u: int, p: int)
    requires p > 0 && 0 <= u < p && s % p == (p - u) % p
    ensures Cong(-s, u, p)
  {
    ModCong(s, p);
    ModCong(p - u, p);
    CongByMultiple(p - u, -u, p, 1);
    CongSub(0, 0, s, -u, p);
  }

  lemma DenominatorCong(d: int, yy: int, p: int)
    requires p > 0
    ensures Cong((d * (yy % p) + 1) % p, d * yy + 1, p)
  {
    hide Cong;
    ModCong(yy, p);
    CongRefl(d, p);
    CongRefl(1, p);
    CongMul(d, d, yy % p, yy, p);
    CongAdd(d * (yy % p), d * yy, 1, 1, p);
    ModCong(d * (yy % p) + 1, p);
    CongChain((d * (yy % p) + 1) % p, d * (yy % p) + 1, d * yy + 1, p);
  }

  lemma NumeratorCong(yy: int, p: int)
    requires p > 0
    ensures Cong((yy % p - 1 + p) % p, yy - 1, p)
  {
    hide Cong;
    var r := yy % p;
    ModCong(yy, p);
    CongRefl(1, p);
    CongSub(r, yy, 1, 1, p);
    CongByMultiple(r - 1 + p, r - 1, p, 1);
    ModCong(r - 1 + p, p);
    CongChain((r - 1 + p) % p, r - 1 + p, r - 1, p);
    CongChain((r - 1 + p) % p, r - 1, yy - 1, p);
  }

  /** -x^2 + y^2 = 1 + d x^2 y^2, from v x^2 = u. */
  lemma CurveEquation(c: Curve, x: int, y: int)
    requires c.p > 0
    requires Cong((c.d * (y * y % c.p) + 1) % c.p * (x * x), (y * y % c.p - 1 + c.p) % c.p, c.p)
    ensures OnCurve(c, Affine(x, y))
  {
    hide Cong;
    var p, v, u := c.p, (c.d * (y * y % c.p) + 1) % c.p, (y * y % c.p - 1 + c.p) % c.p;
    DenominatorCong(c.d, y * y, p);
    NumeratorCong(y * y, p);
    CongRefl(x * x, p);
    CongMul(v, c.d * (y * y) + 1, x * x, x * x, p);
    CongChain((c.d * (y * y) + 1) * (x * x), v * (x * x), u, p);
    CongChain((c.d * (y * y) + 1) * (x * x), u, y * y - 1, p);
    CurveTerms(c.d, x, y);
    Rearranged(c.d * (x * x * y * y), x * x, y * y, p);
  }

  lemma CurveTerms(d: int, x: int, y: int)
    ensures (d * (y * y) + 1) * (x * x) == d * (x * x * y * y) + x * x
  {
    assert (y * y) * (x * x) == x * x * y * y;
    assert (d * (y * y)) * (x * x) == d * ((y * y) * (x * x));
  }

  lemma Rearranged(e: int, xx: int, yy: int, p: int)
    requires p > 0 && Cong(e + xx, yy - 1, p)
    ensures Cong(yy - xx, 1 + e, p)
  {
    var k := CongMultiple(e + xx, yy - 1, p);
    CongByMultiple(yy - xx, 1 + e, p, -k);
  }

  /** Negating x keeps its square. */
  lemma NegationSquares(x: int, p: int)
    requires 0 <= x < p
    ensures Cong(((p - x) % p) * ((p - x) % p), x * x, p)
  {
    hide Cong;
    var r := (p - x) % p;
    ModCong(p - x, p);
    CongByMultiple(p - x, -x, p, 1);
    CongChain(r, p - x, -x, p);
    CongMul(r, -x, r, -x, p);
    assert (-x) * (-x) == x * x;
  }

  /** The sign fix keeps a root a root and gives x the parity of the sign bit. */
  lemma SignedRoot(c: Curve, u: nat, v: nat, sign: int)
    requires c.Valid() && u < c.p && Root(c, u, v).Some?
    requires (sign == 0 || sign == 1) && !(Root(c, u, v).value == 0 && sign == 1)
    ensures
      var x := Signed(Root(c, u, v).value, sign, c.p);
      0 <= x < c.p && x % 2 == sign && Cong(v * (x * x), u, c.p)
  {
    RootSquares(c, u, v);
    var r, p := Root(c, u, v).value, c.p;
    hide Root, Curve.Valid;
    if r % 2 != sign {
      SignParity(r, sign, p);
      NegationSquares(r, p);
      hide Cong;
      var n := (p - r) % p;
      CongRefl(v, p);
      CongMul(v, v, n * n, r * r, p);
      CongChain(v * (n * n), v * (r * r), u, p);
    }
  }

  lemma SignParity(r: int, sign: int, p: int)
    requires p > 0 && p % 2 == 1 && 0 <= r < p && (sign == 0 || sign == 1) && r % 2 != sign && !(r == 0 && sign == 1)
    ensures 0 <= (p - r) % p < p && (p - r) % p % 2 == sign
  {
    RemainderIsUnique(p - r, p, 0, p - r);
  }

  /** decodePt returns only points of the curve, in normal form: Z = 1, T = xy, x of the parity the
      sign bit asks for. */
  lemma DecodedIsOnCurve(c: Curve, bytes: Bytes)
    requires c.Valid() && |bytes| == 32 && DecodePt(c, bytes).Some?
    ensures
      var a := DecodePt(c, bytes).value;
      && Element(c, Affine(a.X, a.Y)) && a.Z == 1 && a.T == a.X * a.Y % c.p
      && Represents(c, a, Affine(a.X, a.Y))
      && a.X % 2 == bytes[31] / 128 && a.Y == Le(bytes) % TOP
  {
    hide Cong, Root, Le, Power;
    var a, p := DecodePt(c, bytes).value, c.p;
    var y := a.Y;
    var y2 := y * y % p;
    SignedRoot(c, (y2 - 1 + p) % p, (c.d * y2 + 1) % p, bytes[31] / 128);
    CurveEquation(c, a.X, y);
    ModCong(a.X * a.Y, p);
    CongRefl(a.X, p);
    CongRefl(a.Y, p);
    CongRefl(1, p);
    assert a.X * 1 == a.X && a.Y * 1 == a.Y && a.X * a.Y * 1 == a.X * a.Y && 1 * 1 == 1;
    assert Cong(1 * 1, 1, p);
  }

  // ---- encodePt -----------------------------------------------------------------------------

  /** The 32 bytes of affine coordinates: y, and the parity of x in the top bit. */
  function Encoding(g: Affine): Bytes
    requires g.x >= 0 && 0 <= g.y < TOP
  {
    TopBitFree(g.y);
    var low := ToLe(g.y, 32);
    low[..31] + [low[31] + g.x % 2 * 128]
  }

  lemma TopBitFree(y: nat)
    requires y < TOP
    ensures ToLe(y, 32)[31] < 128
  {
    var low := ToLe(y, 32);
    YFitsBytes(y);
    LeInvertsToLe(y, 32);
    LeLast(low[..31], low[31]);
    hide Power, ToLe, Le;
    assert low[..31] + [low[31]] == low;
    Larger(low[31], Power(256, 31));
    LeNonNegative(low[..31]);
  }

  lemma YFitsBytes(y: nat)
    requires y < TOP
    ensures y < Power(256, 32) && Power(256, 31) > 0
  {
    assert Power(256, 32) == 256 * Power(256, 31);
    PowerPositive(31);
  }

  lemma {:induction false} PowerPositive(n: nat)
    ensures Power(256, n) > 0
  {
    if n > 0 { PowerPositive(n - 1); }
  }

  lemma LeNonNegative(bytes: Bytes)
    ensures Le(bytes) >= 0
  {}

  lemma Larger(b: int, unit: int)
    requires unit > 0
    ensures b >= 128 ==> b * unit >= 128 * unit
  {}

  lemma {:induction false} LeInvertsToLe(v: nat, n: nat)
    requires v < Power(256, n)
    ensures Le(ToLe(v, n)) == v
  {
    if n > 0 { LeInvertsToLe(v / 256, n - 1); }
  }

  function EncodePt(c: Curve, a: Pt): Bytes
    requires c.Valid()
  {
    Encoding(Affine(a.X * Power(a.Z, c.p - 2) % c.p, a.Y * Power(a.Z, c.p - 2) % c.p))
  }

  /** The sign bit and the 255 bits of y. */
  lemma SplitTopBit(bytes: Bytes)
    requires |bytes| == 32
    ensures TOP > 0 && Le(bytes) % TOP == Le(bytes[..31] + [bytes[31] % 128]) < TOP
  {
    hide Power, Le;
    var unit := Power(256, 31);
    PowerPositive(31);
    assert bytes[..31] + [bytes[31]] == bytes;
    LeLast(bytes[..31], bytes[31]);
    LeLast(bytes[..31], bytes[31] % 128);
    LeBound(bytes[..31]);
    LeNonNegative(bytes[..31]);
    TopBitOff(Le(bytes[..31]), bytes[31], unit);
  }

  lemma TopBitOff(low: int, b: int, unit: int)
    requires 0 <= low < unit && 0 <= b < 256
    ensures (low + b * unit) % (128 * unit) == low + b % 128 * unit < 128 * unit
  {
    var q, r := b / 128, b % 128;
    TopBitTerms(q, r, unit);
    assert b == 128 * q + r;
    RemainderIsUnique(low + b * unit, 128 * unit, q, low + r * unit);
  }

  lemma TopBitTerms(q: int, r: int, unit: int)
    requires unit > 0 && 0 <= r < 128
    ensures (128 * q + r) * unit == q * (128 * unit) + r * unit
    ensures 0 <= r * unit <= 127 * unit
  {
    assert (127 - r) * unit >= 0;
  }

  /** Encoding a decoded point gives the bytes back: every accepted encoding is canonical. */
  lemma EncodeInvertsDecode(c: Curve, bytes: Bytes)
    requires c.Valid() && |bytes| == 32 && DecodePt(c, bytes).Some?
    ensures EncodePt(c, DecodePt(c, bytes).value) == bytes
  {
    DecodedIsOnCurve(c, bytes);
    SplitTopBit(bytes);
    var a, low := DecodePt(c, bytes).value, bytes[..31] + [bytes[31] % 128];
    ToLeInvertsLe(low);
    PowerOfOne(c.p - 2);
    hide Power, Le, ToLe, DecodePt, Element, Represents;
    RemainderIsUnique(a.X, c.p, 0, a.X);
    RemainderIsUnique(a.Y, c.p, 0, a.Y);
    assert a.X * 1 == a.X && a.Y * 1 == a.Y;
    assert EncodePt(c, a) == Encoding(Affine(a.X, a.Y));
    assert ToLe(a.Y, 32) == low;
    assert bytes[..31] + [bytes[31]] == bytes;
  }

  /** So two encodings of the same point are the same bytes. */
  lemma DecodeIsInjective(c: Curve, bytes: Bytes, other: Bytes)
    requires c.Valid() && |bytes| == 32 && |other| == 32
    requires DecodePt(c, bytes).Some? && DecodePt(c, bytes) == DecodePt(c, other)
    ensures bytes == other
  {
    EncodeInvertsDecode(c, bytes);
    EncodeInvertsDecode(c, other);
  }

  /** encodePt depends on the affine point alone, given that Z^(p-2) inverts Z (Fermat). */
  lemma EncodesTheAffinePoint(c: Curve, a: Pt, g: Affine)
    requires c.Valid() && Represents(c, a, g) && 0 <= g.x < c.p && 0 <= g.y < c.p
    requires Cong(a.Z * Power(a.Z, c.p - 2), 1, c.p)
    ensures EncodePt(c, a) == Encoding(g)
  {
    Divided(a.X, g.x, a.Z, Power(a.Z, c.p - 2), c.p);
    Divided(a.Y, g.y, a.Z, Power(a.Z, c.p - 2), c.p);
  }

  lemma Divided(X: int, x: int, z: int, i: int, p: int)
    requires p > 0 && 0 <= x < p && Cong(X, x * z, p) && Cong(z * i, 1, p)
    ensures X * i % p == x
  {
    hide Cong;
    CongRefl(i, p);
    CongRefl(x, p);
    CongMul(X, x * z, i, i, p);
    CongMul(x, x, z * i, 1, p);
    assert (x * z) * i == x * (z * i) && x * 1 == x;
    CongChain(X * i, x * (z * i), x, p);
    ModCong(X * i, p);
    CongChain(X * i % p, X * i, x, p);
    SmallIsItsResidue(X * i % p, x, p);
  }

  // ---- the methods ------------------------------------------------------------------------------

  method DecodePoint(c: Curve, bytes: Bytes) returns (r: Option<Pt>)
    requires c.Valid() && |bytes| == 32
    ensures r == DecodePt(c, bytes)
  {
    var sign := bytes[31] / 128;
    var all := ReadLe(bytes, 0, 32);
    assert bytes[0..0 + 32] == bytes;
    var y := all % TOP;
    if y >= c.p { return None; }
    var y2 := y * y % c.p;
    var u, v := (y2 - 1 + c.p) % c.p, (c.d * y2 + 1) % c.p;
    var v7 := ModPow(v, 7, c.p);
    var t := ModPow(u * v7 % c.p, (c.p - 5) / 8, c.p);
    var v3 := ModPow(v, 3, c.p);
    var x := u * v3 % c.p * t % c.p;
    assert x == Candidate(c, u, v);
    hide Candidate, Power, Le;
    var vxx := v * x * x % c.p;
    if vxx == u {
    } else if vxx == (c.p - u) % c.p {
      x := x * c.sqrtM1 % c.p;
    } else {
      return None;
    }
    if x == 0 && sign == 1 { return None; }
    if x % 2 != sign { x := (c.p - x) % c.p; }
    r := Some(Pt(x, y, 1, x * y % c.p));
  }

  method EncodePoint(c: Curve, a: Pt) returns (r: Bytes)
    requires c.Valid()
    ensures r == EncodePt(c, a)
  {
    ghost var power := Power(a.Z, c.p - 2);
    ResidueBelow(a.X * power, c.p);
    ResidueBelow(a.Y * power, c.p);
    assert EncodePt(c, a) == Encoding(Affine(a.X * power % c.p, a.Y * power % c.p));
    var zInv := ModPow(a.Z, c.p - 2, c.p);
    NormalizedProduct(a.X, zInv, power, c.p);
    NormalizedProduct(a.Y, zInv, power, c.p);
    hide Power, Cong, Encoding, EncodePt;
    var x := Rem(Rem(a.X * zInv, c.p) + c.p, c.p);
    var y := Rem(Rem(a.Y * zInv, c.p) + c.p, c.p);
    r := WriteEncoding(x, y);
  }

  lemma ResidueBelow(a: int, p: int)
    requires p > 0
    ensures 0 <= a % p < p
  {}

  /** y, and the parity of x in the top bit. */
  method WriteEncoding(x: int, y: int) returns (r: Bytes)
    requires x >= 0 && 0 <= y < TOP
    ensures r == Encoding(Affine(x, y))
  {
    hide Power;
    TopBitFree(y);
    var out := new Byte[32](_ => 0);
    WriteLe(out, y);
    out[31] := out[31] + x % 2 * 128;
    r := out[..];
  }

  method WriteLe(out: array<Byte>, y: nat)
    modifies out
    ensures out[..] == ToLe(y, out.Length)
  {
    var v, i := y, 0;
    while i < out.Length
      invariant 0 <= i <= out.Length && v >= 0
      invariant ToLe(y, out.Length) == out[..i] + ToLe(v, out.Length - i)
    {
      out[i] := v % 256;
      v := v / 256;
      i := i + 1;
      assert out[..i] == out[..i - 1] + [out[i - 1]];
    }
  }

  lemma NormalizedProduct(X: int, zInv: int, power: int, p: int)
    requires p > 0 && Cong(zInv, power, p)
    ensures Rem(Rem(X * zInv, p) + p, p) == X * power % p
  {
    CongRefl(X, p);
    CongMul(X, X, zInv, power, p);
    Normalized(X * zInv, p);
  }

  // ---- verification ---------------------------------------------------------------------------------

  /** SHA-512 of some bytes, read as a little-endian number. */
  type Hash = Bytes -> nat

  /** The computation of ed25519Verify on decoded base64. */
  function Verifies(c: Curve, base: Pt, hash: Hash, pk: Bytes, message: Bytes, sig: Bytes): bool
    requires c.Valid()
  {
    |pk| == 32 && |sig| == 64 &&
    var a, r, s := DecodePt(c, pk), DecodePt(c, sig[..32]), Le(sig[32..]);
    var k := hash(sig[..32] + pk + message) % c.order;
    && a.Some? && r.Some? && s < c.order
    && EqualPts(c, Ladder(c, IDENTITY, base, s % c.order), AddPts(c, r.value, Ladder(c, IDENTITY, a.value, k % c.order)))
  }

  method Verify(c: Curve, base: Pt, hash: Hash, pk: Bytes, message: Bytes, sig: Bytes) returns (ok: bool)
    requires c.Valid()
    ensures ok == Verifies(c, base, hash, pk, message, sig)
  {
    if |pk| != 32 || |sig| != 64 { return false; }
    var a := DecodePoint(c, pk);
    var r := DecodePoint(c, sig[..32]);
    if a.None? || r.None? { return false; }
    var s := ReadLe(sig, 32, 32);
    assert sig[32..32 + 32] == sig[32..];
    if s >= c.order { return false; }
    var k := hash(sig[..32] + pk + message) % c.order;
    hide DecodePt, Ladder, AddPts, Le;
    var left := MulPt(c, base, s);
    var right := MulPt(c, a.value, k);
    ok := EqualPts(c, left, AddPts(c, r.value, right));
  }

  /** The affine point a 32-byte encoding stands for. */
  function PointOf(c: Curve, bytes: Bytes): Affine
    requires c.Valid() && |bytes| == 32 && DecodePt(c, bytes).Some?
  {
    Affine(DecodePt(c, bytes).value.X, DecodePt(c, bytes).value.Y)
  }

  /** A signature is accepted exactly when both encodings decode, s is below L, and [s]B = R + [k]A as
      points of the curve, given that the affine law makes the curve a group. */
  lemma VerifiesExactly(c: Curve, plus: Sum, base: Pt, b: Affine, hash: Hash, pk: Bytes, message: Bytes, sig: Bytes)
    requires c.Valid() && GroupLaw(c, plus) && Element(c, b) && Represents(c, base, b)
    requires |pk| == 32 && |sig| == 64
    ensures Verifies(c, base, hash, pk, message, sig)
       <==> (DecodePt(c, pk).Some? && DecodePt(c, sig[..32]).Some? && Le(sig[32..]) < c.order
             && Times(plus, b, Le(sig[32..]))
                == plus(PointOf(c, sig[..32]),
                        Times(plus, PointOf(c, pk), hash(sig[..32] + pk + message) % c.order)))
  {
    if DecodePt(c, pk).Some? && DecodePt(c, sig[..32]).Some? && Le(sig[32..]) < c.order {
      DecodedIsOnCurve(c, pk);
      DecodedIsOnCurve(c, sig[..32]);
      hide DecodePt, GroupLaw, Element, Represents, Le, Ladder, EqualPts, AddPts, Curve.Valid;
      var a, r, s := DecodePt(c, pk).value, DecodePt(c, sig[..32]).value, Le(sig[32..]);
      var k := hash(sig[..32] + pk + message) % c.order;
      SidesAgree(c, plus, base, b, a, PointOf(c, pk), r, PointOf(c, sig[..32]), s, k);
    }
  }

  lemma SidesAgree(c: Curve, plus: Sum, base: Pt, b: Affine, a: Pt, g: Affine, r: Pt, h: Affine, s: nat, k: nat)
    requires c.p > 1 && GroupLaw(c, plus) && s < c.order && k < c.order
    requires Element(c, b) && Represents(c, base, b) && Element(c, g) && Represents(c, a, g)
    requires Element(c, h) && Represents(c, r, h)
    ensures EqualPts(c, Ladder(c, IDENTITY, base, s % c.order), AddPts(c, r, Ladder(c, IDENTITY, a, k % c.order)))
       <==> Times(plus, b, s) == plus(h, Times(plus, g, k))
  {
    hide GroupLaw, Represents, Ladder, EqualPts, AddPts, OnCurve;
    RemainderIsUnique(s, c.order, 0, s);
    RemainderIsUnique(k, c.order, 0, k);
    MulRepresents(c, plus, base, b, s);
    MulRepresents(c, plus, a, g, k);
    TimesIsElement(c, plus, b, s);
    TimesIsElement(c, plus, g, k);
    AddRepresents(c, plus, r, Ladder(c, IDENTITY, a, k), h, Times(plus, g, k));
    var left, right := Times(plus, b, s), plus(h, Times(plus, g, k));
    EqualPtsExactly(c, Ladder(c, IDENTITY, base, s), AddPts(c, r, Ladder(c, IDENTITY, a, k)), left, right);
    if SameAffine(left, right, c.p) {
      SmallIsItsResidue(left.x, right.x, c.p);
      SmallIsItsResidue(left.y, right.y, c.p);
    }
  }

  // ---- the curve itself --------------------------------------------------------------------------------

  /** 2^255 - 19, the coefficient -121665/121666, a square root of -1, and the order of the base point. */
  const ED25519 := Curve(
    57896044618658097711785492504343953926634992332820282019728792003956564819949,
    37095705934669439343138083508754565189542113879843219016388785533085940283555,
    19681161376707505956807079304988542015446066515923890162744021073123829784752,
    7237005577332262213973186563042994240857116359379907606001950938285454250989)

  lemma Ed25519IsValid()
    ensures ED25519.Valid() && ED25519.p == TOP - 19
    ensures Cong(ED25519.d * 121666, -121665, ED25519.p)
  {
    var h := Power(256, 1);
    assert Power(256, 2) == 65536;
    PowerAdd(256, 2, 2);
    PowerAdd(256, 4, 4);
    PowerAdd(256, 8, 8);
    PowerAdd(256, 16, 8);
    PowerAdd(256, 24, 4);
    PowerAdd(256, 28, 2);
    PowerAdd(256, 30, 1);
  }
}

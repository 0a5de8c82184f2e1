/**
 * The secp256k1 field and curve parameters (section 2.4.1 of SEC 2) as the
 * Montgomery-form field code consumes them: each modulus, R^2 mod modulus
 * and -1/modulus mod 2^64 as 64-bit limbs, least significant first, with
 * R = 2^256; and the two constexpr functions that compute the last two.
 */
module Secp256k1 {
  import opened Digits
  import opened ByteCodec

  const TwoTo64: nat := 0x1_0000_0000_0000_0000
  const TwoTo256: nat := 0x1_0000_0000_0000_0000_0000_0000_0000_0000_0000_0000_0000_0000_0000_0000_0000_0000
  /** R^2, for the Montgomery radix R = 2^256. */
  const TwoTo512: nat := 0x1_0000_0000_0000_0000_0000_0000_0000_0000_0000_0000_0000_0000_0000_0000_0000_0000_0000_0000_0000_0000_0000_0000_0000_0000_0000_0000_0000_0000_0000_0000_0000_0000

  type Uint64 = x: nat | x < 0x1_0000_0000_0000_0000
  type Uint256 = x: nat | x < 0x1_0000_0000_0000_0000_0000_0000_0000_0000_0000_0000_0000_0000_0000_0000_0000_0000

  /** A uint256 given by its limbs data[0] .. data[3], least significant first. */
  function FromLimbs(l0: Uint64, l1: Uint64, l2: Uint64, l3: Uint64): (x: Uint256)
    ensures x % 0x1_0000_0000_0000_0000 == l0
  {
    var x := l0 + 0x1_0000_0000_0000_0000 * (l1 + 0x1_0000_0000_0000_0000 * (l2 + 0x1_0000_0000_0000_0000 * l3));
    DivModUnique(x, TwoTo64, l1 + 0x1_0000_0000_0000_0000 * (l2 + 0x1_0000_0000_0000_0000 * l3), l0);
    x
  }

  // ----- get_r_squared -----

  /**
   * get_r_squared: R^2 = 2^512 computed in 1024 bits, reduced mod the
   * prime, and the low 256 bits of the remainder returned.
   */
  function GetRSquared(prime: Uint256): (r: Uint256)
    requires prime > 0
    ensures r < prime && (TwoTo512 - r) % prime == 0
  {
    var rSquaredModP := TwoTo512 % prime;
    DivModUnique(TwoTo512 - rSquaredModP, prime, TwoTo512 / prime, 0);
    ModBelow(rSquaredModP, TwoTo256);
    DivModUnique(rSquaredModP, TwoTo256, 0, rSquaredModP);
    rSquaredModP % TwoTo256
  }

  // ----- get_r_inv -----

  /**
   * Extended Euclid on a and b: their gcd g with coefficients x, y such that
   * a * x + b * y == g (the algorithm behind uint512_t::invmod).
   */
  function Egcd(a: nat, b: nat): (nat, int, int)
    decreases b
  {
    if b == 0 then (a, 1, 0)
    else
      var (g, x, y) := Egcd(b, a % b);
      (g, y, x - (a / b) * y)
  }

  /** a's inverse mod m as invmod returns it: the Bezout coefficient of a, reduced mod m. */
  function InvMod(a: nat, m: nat): (r: nat)
    requires m > 0
    ensures r < m
  {
    Egcd(a, m).1 % m
  }

  /**
   * get_r_inv: q = -prime in uint256 arithmetic (2^256 - prime, 0 when prime
   * is 0), q's inverse mod R = 2^256, and the low limb of that.
   */
  function GetRInv(prime: Uint256): Uint64
  {
    var q := (TwoTo256 - prime) % TwoTo256;
    var qInv := InvMod(q, TwoTo256) % TwoTo256;
    qInv % TwoTo64
  }

  // ----- number theory behind get_r_inv -----

  /** A common divisor of b and r divides q * b + r. */
  lemma DividesCombination(g: nat, q: nat, b: nat, r: nat)
    requires g > 0 && b % g == 0 && r % g == 0
    ensures (q * b + r) % g == 0
  {
    var s, t := b / g, r / g;
    assert b == s * g && r == t * g;
    assert q * b + r == (q * s + t) * g by {
      MulAssoc(q, s, g);
      MulDistrib(q * s, t, g);
    }
    DivModUnique(q * b + r, g, q * s + t, 0);
  }

  /** Egcd's g is a positive common divisor of a and b. */
  lemma {:induction false} EgcdDivides(a: nat, b: nat)
    requires 0 < a || 0 < b
    ensures Egcd(a, b).0 > 0 && a % Egcd(a, b).0 == 0 && b % Egcd(a, b).0 == 0
    decreases b
  {
    if b == 0 {
      DivModUnique(a, a, 1, 0);
      DivModUnique(0, a, 0, 0);
    } else {
      var g := Egcd(b, a % b).0;
      assert g > 0 && b % g == 0 && (a % b) % g == 0 by {
        EgcdDivides(b, a % b);
      }
      assert a == (a / b) * b + a % b;
      DividesCombination(g, a / b, b, a % b);
      assert Egcd(a, b).0 == g;
    }
  }

  /** One step of extended Euclid keeps the Bezout identity. */
  lemma BezoutStep(a: int, b: int, q: int, r: int, x: int, y: int, g: int)
    requires a == q * b + r && b * x + r * y == g
    ensures a * y + b * (x - q * y) == g
  {
    assert a * y == q * b * y + r * y;
    assert b * (x - q * y) == b * x - q * b * y;
  }

  /** Egcd's coefficients satisfy a * x + b * y == g. */
  lemma {:induction false} EgcdBezout(a: nat, b: nat)
    ensures a * Egcd(a, b).1 + b * Egcd(a, b).2 == Egcd(a, b).0
    decreases b
  {
    if b > 0 {
      var (g, x, y) := Egcd(b, a % b);
      assert b * x + (a % b) * y == g by {
        EgcdBezout(b, a % b);
      }
      assert a == (a / b) * b + a % b;
      BezoutStep(a, b, a / b, a % b, x, y, g);
      assert Egcd(a, b) == (g, y, x - (a / b) * y);
    }
  }

  /** The product of two odd numbers is odd. */
  lemma OddProduct(c: int, g: int)
    requires c % 2 == 1 && g % 2 == 1
    ensures (c * g) % 2 == 1
  {
    var u, v := c / 2, g / 2;
    assert c * g == 2 * (2 * u * v + u + v) + 1 by {
      assert c == 2 * u + 1 && g == 2 * v + 1;
    }
    DivModUnique(c * g, 2, 2 * u * v + u + v, 1);
  }

  /** An odd number that divides a power of two is 1. */
  lemma {:induction false} OddDivisorOfPowerOfTwo(g: nat, k: nat)
    requires g > 0 && g % 2 == 1 && Pow(2, k) % g == 0
    ensures g == 1
    decreases k
  {
    if k == 0 {
      if g > 1 {
        DivModUnique(1, g, 0, 1);
      }
    } else {
      var c := Pow(2, k) / g;
      assert Pow(2, k) == c * g;
      assert Pow(2, k) == 2 * Pow(2, k - 1);
      if c % 2 == 1 {
        OddProduct(c, g);
        assert false;
      }
      var h := c / 2;
      assert Pow(2, k - 1) == h * g by {
        assert c == 2 * h;
        MulAssoc(2, h, g);
      }
      DivModUnique(Pow(2, k - 1), g, h, 0);
      OddDivisorOfPowerOfTwo(g, k - 1);
    }
  }

  /** An even number divides only even numbers. */
  lemma EvenDivisor(g: nat, q: nat)
    requires g > 0 && g % 2 == 0 && q % g == 0
    ensures q % 2 == 0
  {
    var s, h := q / g, g / 2;
    assert q == s * g && g == 2 * h;
    assert q == 2 * (s * h) by {
      MulAssoc(s, 2, h);
      MulComm(s, 2);
      MulAssoc(2, s, h);
    }
    DivModUnique(q, 2, s * h, 0);
  }

  /** R = 2^256 as a power of two. */
  lemma TwoTo256IsPow()
    ensures Pow(2, 256) == TwoTo256
  {
    Pow2Bytes(Uint256Bytes);
    Pow256Widths();
  }

  /** Reducing mod M and then mod a divisor m of M is reducing mod m. */
  lemma ModOfMod(x: int, bigM: nat, m: nat)
    requires m > 0 && bigM > 0 && bigM % m == 0
    ensures (x % bigM) % m == x % m
  {
    var a, s := x / bigM, bigM / m;
    var b, r := (x % bigM) / m, (x % bigM) % m;
    assert x == a * bigM + x % bigM;
    assert bigM == s * m;
    assert x % bigM == b * m + r;
    assert x == (a * s + b) * m + r by {
      MulAssoc(a, s, m);
      MulDistrib(a * s, b, m);
    }
    DivModUnique(x, m, a * s + b, r);
  }

  /** For odd q, invmod really inverts q mod 2^256: Egcd(q, 2^256) has gcd 1. */
  lemma InvModOfOdd(q: nat)
    requires 0 < q < TwoTo256 && q % 2 == 1
    ensures Egcd(q, TwoTo256).0 == 1
    ensures q * Egcd(q, TwoTo256).1 + TwoTo256 * Egcd(q, TwoTo256).2 == 1
  {
    var g := Egcd(q, TwoTo256).0;
    EgcdDivides(q, TwoTo256);
    if g % 2 == 0 {
      EvenDivisor(g, q);
    }
    TwoTo256IsPow();
    OddDivisorOfPowerOfTwo(g, 256);
    EgcdBezout(q, TwoTo256);
  }

  /** prime * x + 1 is a multiple of 2^256 when x inverts -prime mod 2^256. */
  lemma NegatedInverse(prime: nat, x: int, y: int)
    requires 0 < prime < TwoTo256 && (TwoTo256 - prime) * x + TwoTo256 * y == 1
    ensures prime * x + 1 == TwoTo256 * (x + y)
  {
    assert (TwoTo256 - prime) * x == TwoTo256 * x - prime * x;
  }

  /** A multiple of 2^256 plus nothing is a multiple of 2^64, and so stays when x is replaced by x mod 2^64. */
  lemma LowLimbInverse(prime: nat, x: int, y: int)
    requires prime * x + 1 == TwoTo256 * (x + y)
    ensures ((x % TwoTo64) * prime + 1) % TwoTo64 == 0
  {
    var t, r := x / TwoTo64, x % TwoTo64;
    assert x == TwoTo64 * t + r;
    assert prime * x == TwoTo64 * (prime * t) + prime * r by {
      MulDistrib(TwoTo64 * t, r, prime);
      MulAssoc(TwoTo64, t, prime);
      MulComm(prime, TwoTo64 * t);
      MulComm(t, prime);
      MulComm(prime, r);
    }
    var k := 0x1_0000_0000_0000_0000_0000_0000_0000_0000_0000_0000_0000_0000 * (x + y) - prime * t;
    assert r * prime + 1 == k * TwoTo64;
    DivModUnique(r * prime + 1, TwoTo64, k, 0);
  }

  /** get_r_inv(p) * p == -1 (mod 2^64) for an odd p: the Montgomery constant the field code needs. */
  lemma GetRInvIsMontgomeryInverse(prime: Uint256)
    requires prime % 2 == 1
    ensures (GetRInv(prime) * prime + 1) % TwoTo64 == 0
  {
    var q := TwoTo256 - prime;
    assert (TwoTo256 - prime) % TwoTo256 == q by {
      DivModUnique(q, TwoTo256, 0, q);
    }
    assert q % 2 == 1 by {
      assert prime == 2 * (prime / 2) + 1;
      DivModUnique(q, 2, 0x8000_0000_0000_0000_0000_0000_0000_0000_0000_0000_0000_0000_0000_0000_0000_0000 - prime / 2 - 1, 1);
    }
    var e := Egcd(q, TwoTo256);
    var x := e.1;
    assert q * x + TwoTo256 * e.2 == 1 by {
      InvModOfOdd(q);
    }
    assert GetRInv(prime) == x % TwoTo64 by {
      assert InvMod(q, TwoTo256) == x % TwoTo256;
      DivModUnique(x % TwoTo256, TwoTo256, 0, x % TwoTo256);
      ModOfMod(x, TwoTo256, TwoTo64);
    }
    assert prime * x + 1 == TwoTo256 * (x + e.2) by {
      NegatedInverse(prime, x, e.2);
    }
    LowLimbInverse(prime, x, e.2);
  }

  /** At most one 64-bit r satisfies r * p == -1 (mod 2^64). */
  lemma MontgomeryInverseUnique(a: Uint64, b: Uint64, p: nat)
    requires (a * p + 1) % TwoTo64 == 0 && (b * p + 1) % TwoTo64 == 0
    ensures a == b
  {
    var j, k := (a * p + 1) / TwoTo64, (b * p + 1) / TwoTo64;
    assert a * p + 1 == TwoTo64 * j && b * p + 1 == TwoTo64 * k;
    assert a - b == a * (b * p + 1) - b * (a * p + 1) by {
      MulAssoc(a, b, p);
      MulAssoc(b, a, p);
      MulComm(a, b);
    }
    assert a - b == TwoTo64 * (a * k - b * j) by {
      MulAssoc(a, TwoTo64, k);
      MulAssoc(b, TwoTo64, j);
      MulComm(a, TwoTo64);
      MulComm(b, TwoTo64);
    }
    if a * k - b * j > 0 {
      MulMonotone(1, a * k - b * j, TwoTo64);
    } else if a * k - b * j < 0 {
      MulMonotone(1, b * j - a * k, TwoTo64);
    }
  }

  // ----- Secp256k1FqParams -----

  const FqModulus: Uint256 := FromLimbs(0xFFFFFFFEFFFFFC2F, 0xFFFFFFFFFFFFFFFF, 0xFFFFFFFFFFFFFFFF, 0xFFFFFFFFFFFFFFFF)
  const FqRSquared: Uint256 := FromLimbs(8392367050913, 1, 0, 0)
  const FqRInv: Uint64 := 15580212934572586289

  /** The Fq modulus limbs spell p = 2^256 - 2^32 - 977. */
  lemma FqModulusIsP()
    ensures FqModulus == TwoTo256 - 0x1_0000_0000 - 977
  {
  }

  /** The Fq r_squared limbs are get_r_squared(p), which is 2^64 + 8392367050913. */
  lemma FqRSquaredIsGetRSquared()
    ensures FqRSquared == TwoTo64 + 8392367050913
    ensures GetRSquared(FqModulus) == FqRSquared
  {
    DivModUnique(TwoTo512, FqModulus, 0x1_0000_0000_0000_0000_0000_0000_0000_0000_0000_0000_0000_0000_0000_0001_0000_03d1, FqRSquared);
    DivModUnique(FqRSquared, TwoTo256, 0, FqRSquared);
  }

  /** The Fq r_inv is get_r_inv(p): r_inv * p == -1 (mod 2^64). */
  lemma FqRInvIsGetRInv()
    ensures (FqRInv * FqModulus + 1) % TwoTo64 == 0
    ensures GetRInv(FqModulus) == FqRInv
  {
    DivModUnique(FqRInv * FqModulus + 1, TwoTo64, 0xd838091dd2253530ffffffffffffffffffffffffffffffffffffffff27c7f3a9, 0);
    GetRInvIsMontgomeryInverse(FqModulus);
    MontgomeryInverseUnique(GetRInv(FqModulus), FqRInv, FqModulus);
  }

  // ----- Secp256k1FrParams -----

  const FrModulus: Uint256 := FromLimbs(0xBFD25E8CD0364141, 0xBAAEDCE6AF48A03B, 0xFFFFFFFFFFFFFFFE, 0xFFFFFFFFFFFFFFFF)
  const FrRSquared: Uint256 := FromLimbs(9902555850136342848, 8364476168144746616, 16616019711348246470, 11342065889886772165)
  const FrRInv: Uint64 := 5408259542528602431

  /** The Fr modulus limbs spell the group order n of SEC 2. */
  lemma FrModulusIsGroupOrder()
    ensures FrModulus == 0xFFFFFFFF_FFFFFFFF_FFFFFFFF_FFFFFFFE_BAAEDCE6_AF48A03B_BFD25E8C_D0364141
  {
  }

  /** The Fr r_squared limbs are get_r_squared(n) = 2^512 mod n. */
  lemma FrRSquaredIsGetRSquared()
    ensures GetRSquared(FrModulus) == FrRSquared
  {
    DivModUnique(TwoTo512, FrModulus, 0x1_0000_0000_0000_0000_0000_0000_0000_0001_4551_2319_50b7_5fc4_402d_a173_2fc9_bec0, FrRSquared);
    DivModUnique(FrRSquared, TwoTo256, 0, FrRSquared);
  }

  /** The Fr r_inv is get_r_inv(n): r_inv * n == -1 (mod 2^64). */
  lemma FrRInvIsGetRInv()
    ensures (FrRInv * FrModulus + 1) % TwoTo64 == 0
    ensures GetRInv(FrModulus) == FrRInv
  {
    DivModUnique(FrRInv * FrModulus + 1, TwoTo64, 0x4b0dff665588b13effffffffffffffffa09f710af01555259d4ad302583de6dc, 0);
    GetRInvIsMontgomeryInverse(FrModulus);
    MontgomeryInverseUnique(GetRInv(FrModulus), FrRInv, FrModulus);
  }

  // ----- Secp256k1G1Params -----

  /** has_a is false and b = 7: the curve y^2 = x^3 + 7 over Fq. */
  const CurveB: nat := 7

  /** one_x and one_y before to_montgomery_form. */
  const GeneratorX: Uint256 := FromLimbs(0x59F2815B16F81798, 0x029BFCDB2DCE28D9, 0x55A06295CE870B07, 0x79BE667EF9DCBBAC)
  const GeneratorY: Uint256 := FromLimbs(0x9C47D08FFB10D4B8, 0xFD17B448A6855419, 0x5DA4FBFC0E1108A8, 0x483ADA7726A3C465)

  predicate OnCurve(x: nat, y: nat)
  {
    x < FqModulus && y < FqModulus && (y * y) % FqModulus == (x * x * x + CurveB) % FqModulus
  }

  /** The generator (one_x, one_y) is a point of the curve. */
  lemma GeneratorOnCurve()
    ensures OnCurve(GeneratorX, GeneratorY)
  {
    // both sides leave the remainder 0x4866...26f2 modulo p
    var r := 0x4866d6a5ab41ab2c6bcc57ccd3735da5f16f80a548e5e20a44e4e9b8118c26f2;
    DivModUnique(GeneratorY * GeneratorY, FqModulus,
      0x1461286abe28c5f1df2d7d4bca391b5070f6ec678fe75b56871bf154987e3e12, r);
    DivModUnique(GeneratorX * GeneratorX * GeneratorX + CurveB, FqModulus,
      0x1b888e01a06e974017a28a5b4da436169761c9730b7aeedf75fc60f6a33cfc77a75f9cdbdd2b234aea3e62cae573983400f338efec38b3eb3b780b1e8c9223fb, r);
  }
}

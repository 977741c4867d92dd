/** Bin prices by truncated exponentiation by squaring, and how far truncation can take
    them from the exact power. */
module BinPrice {
  import opened Rounding
  import opened Basics
  import opened FixedPoint

  const BPS: nat := 10_000
  const PRICE_BITS: nat := 19
  const EXPONENT_LIMIT: nat := 0x80000

  /** 1 + step/10000 in Q64.64. */
  function Base(binStep: nat): nat { W + binStep * W / BPS }

  /** A Q64.64 product with its low bits dropped. */
  function Truncated(a: nat, b: nat): nat { a * b / W }

  /** Square-and-multiply with every product truncated to 64 fractional bits. */
  function Ladder(result: nat, squared: nat, exp: nat): nat
    decreases exp
  {
    if exp == 0 then result
    else Ladder(if exp % 2 == 1 then Truncated(result, squared) else result, Truncated(squared, squared), exp / 2)
  }

  function NegativePrice(n: nat, binStep: nat): nat { Ladder(W, U128_MAX / Base(binStep), n) }

  /** Price of a bin in Q64.64, or None. */
  function PriceFromId(binId: int, binStep: nat): Option<nat> {
    if binId == 0 then Some(W)
    else
      var n := if binId < 0 then -binId else binId;
      if n >= EXPONENT_LIMIT then None
      else
        var p := NegativePrice(n, binStep);
        if p == 0 then None
        else if binId < 0 then Some(p) else Some(U128_MAX / p)
  }

  lemma PricePositive(binId: int, binStep: nat)
    ensures PriceFromId(binId, binStep).Some? ==> PriceFromId(binId, binStep).value > 0
  {
    var n := if binId < 0 then -binId else binId;
    var p := NegativePrice(n, binStep);
    InverseBase(binStep);
    LadderShrinks(W, U128_MAX / Base(binStep), n);
    if p > 0 {
      FloorGalois(U128_MAX, p, 1);
    }
  }

  /** exp >> bit; its parity is the bit test of the source's loop. */
  function ShiftRight(exp: nat, bit: nat): nat {
    if bit == 0 then exp else ShiftRight(exp, bit - 1) / 2
  }

  lemma {:induction false} ShiftBound(exp: nat, bit: nat, width: nat)
    requires bit <= width && exp < Pow2(width)
    ensures ShiftRight(exp, bit) < Pow2(width - bit)
  {
    if bit == 0 {
    } else {
      ShiftBound(exp, bit - 1, width);
    }
  }

  lemma NoBitsLeft(exp: nat)
    requires exp < EXPONENT_LIMIT
    ensures ShiftRight(exp, PRICE_BITS) == 0
  {
    assert Pow2(10) == 1024;
    assert Pow2(19) == 512 * Pow2(10);
    ShiftBound(exp, PRICE_BITS, PRICE_BITS);
  }

  lemma InverseBase(binStep: nat)
    ensures Base(binStep) >= W
    ensures U128_MAX / Base(binStep) < W
  {
    FloorGalois(U128_MAX, Base(binStep), W);
    MulLe(W, Base(binStep), W);
  }

  lemma ProductBelow(a: nat, b: nat)
    requires a <= W && b < W
    ensures a * b / W < W && a * b / W <= b && a * b < W * W
  {
    MulLe(a, W, b);
    MulLt(b, W, W);
    FloorGalois(a * b, W, b + 1);
    assert (b + 1) * W == b * W + W;
  }

  lemma LadderStep(result: nat, squared: nat, exp: nat)
    requires result <= W && squared < W
    ensures var r, s := MulShr64(result, squared, false), MulShr64(squared, squared, false);
            && r.Some? && r.value <= W
            && s.Some? && s.value < W
            && Ladder(result, squared, exp) == Ladder(if exp % 2 == 1 then r.value else result, s.value, exp / 2)
  {
    ProductBelow(result, squared);
    ProductBelow(squared, squared);
    MulShr64Exact(result, squared, false);
    MulShr64Exact(squared, squared, false);
  }

  /** Nineteen bit tests, every product through the limb multiply. None of the refusals of the
      multiply can happen. */
  method Climb(exp: nat, base: nat) returns (result: nat)
    requires exp < EXPONENT_LIMIT && base < W
    ensures result == Ladder(W, base, exp)
  {
    result := W;
    var squared: nat := base;
    for bit := 0 to PRICE_BITS
      invariant result <= W && squared < W
      invariant Ladder(result, squared, ShiftRight(exp, bit)) == Ladder(W, base, exp)
    {
      LadderStep(result, squared, ShiftRight(exp, bit));
      if ShiftRight(exp, bit) % 2 == 1 {
        result := MulShr64(result, squared, false).value;
      }
      if bit + 1 < PRICE_BITS {
        squared := MulShr64(squared, squared, false).value;
      } else {
        NoBitsLeft(exp);
      }
    }
    NoBitsLeft(exp);
  }

  method ComputePrice(binId: int, binStep: nat) returns (price: Option<nat>)
    ensures price == PriceFromId(binId, binStep)
  {
    if binId == 0 {
      return Some(W);
    }
    var invert := binId < 0;
    var exp: nat := if invert then -binId else binId;
    if exp >= EXPONENT_LIMIT {
      return None;
    }
    var bps := binStep * W / BPS;
    var squared: nat := W + bps;
    InverseBase(binStep);
    if squared >= W {
      squared := U128_MAX / squared;
      invert := !invert;
    }
    var result := Climb(exp, squared);
    if result == 0 {
      return None;
    }
    if invert {
      result := U128_MAX / result;
    }
    return Some(result);
  }

  // ---- distance from the exact power ----

  function Pow(x: real, n: nat): real { if n == 0 then 1.0 else x * Pow(x, n - 1) }

  lemma PowSquare(x: real, k: nat)
    ensures Pow(x * x, k) == Pow(x, 2 * k)
  {
    if k > 0 {
      PowSquare(x, k - 1);
      assert Pow(x, 2 * k) == x * (x * Pow(x, 2 * k - 2));
    }
  }

  /** approx is a Q64.64 value of the real x, low by at most err ulps. */
  ghost predicate Within(x: real, approx: nat, err: real) {
    0.0 <= x <= 1.0 && 0.0 <= W as real * x - approx as real <= err
  }

  /** One truncated product loses at most one ulp on top of the errors of its factors. */
  lemma TruncatedProduct(a: nat, b: nat, x: real, y: real, ex: real, ey: real)
    requires Within(x, a, ex) && Within(y, b, ey)
    ensures Within(x * y, Truncated(a, b), ex + ey + 1.0)
  {
    hide Truncated;
    Rectangle(x, y, 1.0, 1.0);
    TruncatedBounds(a, b);
    ProductError(a as real, b as real, Truncated(a, b) as real, x, y, ex, ey, W as real);
  }

  lemma TruncatedBounds(a: nat, b: nat)
    ensures Truncated(a, b) as real * W as real <= a as real * b as real <= (Truncated(a, b) as real + 1.0) * W as real
  {
    var q := Truncated(a, b);
    FloorGalois(a * b, W, q);
    FloorGalois(a * b, W, q + 1);
    CastProduct(a, b);
    CastProduct(q, W);
    CastProduct(q + 1, W);
  }

  lemma CastProduct(a: int, b: int)
    ensures (a * b) as real == a as real * b as real
  {
  }

  lemma ScaleLe(x: real, y: real, k: real)
    requires x <= y && k >= 0.0
    ensures x * k <= y * k
  {
    assert (y - x) * k >= 0.0;
  }

  lemma Distribute(x: real, y: real, k: real)
    ensures (x + y) * k == x * k + y * k
  {
  }

  lemma CancelLe(x: real, y: real, w: real)
    requires w > 0.0 && x * w <= y * w
    ensures x <= y
  {
    assert x <= y || (x - y) * w > 0.0;
  }

  lemma ProductError(a: real, b: real, q: real, x: real, y: real, ex: real, ey: real, w: real)
    requires w > 0.0 && 0.0 <= x <= 1.0 && 0.0 <= y <= 1.0
    requires 0.0 <= a <= w * x <= a + ex && 0.0 <= b <= w * y <= b + ey
    requires q * w <= a * b <= (q + 1.0) * w
    ensures 0.0 <= w * (x * y) - q <= ex + ey + 1.0
  {
    ProductGap(a, b, x, y, ex, ey, w);
    TruncationGap(a * b, w * (x * y), q, ex + ey, w);
  }

  lemma TruncationGap(ab: real, exact: real, q: real, e: real, w: real)
    requires w > 0.0 && q * w <= ab <= (q + 1.0) * w
    requires ab <= exact * w <= ab + e * w
    ensures 0.0 <= exact - q <= e + 1.0
  {
    GapBelow(ab, exact, q, w);
    GapAbove(ab, exact, q + 1.0, e, w);
  }

  lemma GapBelow(ab: real, exact: real, q: real, w: real)
    requires w > 0.0 && q * w <= ab && ab <= exact * w
    ensures q <= exact
  {
    CancelLe(q, exact, w);
  }

  lemma GapAbove(ab: real, exact: real, r: real, e: real, w: real)
    requires w > 0.0 && ab <= r * w && exact * w <= ab + e * w
    ensures exact <= r + e
  {
    Distribute(r, e, w);
    CancelLe(exact, r + e, w);
  }

  lemma ProductGap(a: real, b: real, x: real, y: real, ex: real, ey: real, w: real)
    requires w > 0.0 && 0.0 <= x <= 1.0 && 0.0 <= y <= 1.0
    requires 0.0 <= a <= w * x <= a + ex && 0.0 <= b <= w * y <= b + ey
    ensures a * b <= w * (x * y) * w <= a * b + (ex + ey) * w
  {
    var A, B := w * x, w * y;
    assert w * (x * y) * w == A * B;
    assert A * B - a * b == (B - b) * A + (A - a) * b;
    ScaleLe(x, 1.0, w);
    ScaleLe(y, 1.0, w);
    assert 0.0 <= (B - b) * A <= ey * w by { Rectangle(B - b, A, ey, w); }
    assert 0.0 <= (A - a) * b <= ex * w by { Rectangle(A - a, b, ex, w); }
  }

  lemma Rectangle(u: real, v: real, U: real, V: real)
    requires 0.0 <= u <= U && 0.0 <= v <= V
    ensures 0.0 <= u * v <= U * V
  {
    ScaleLe(u, U, v);
    ScaleLe(v, V, U);
  }

  /** The ladder without truncation, and the error it accumulates. */
  function ExactLadder(x: real, y: real, exp: nat): real
    decreases exp
  {
    if exp == 0 then x else ExactLadder(if exp % 2 == 1 then x * y else x, y * y, exp / 2)
  }

  /** The error ex of the result grows by u, one ulp more than the error of the squared factor,
      at each bit of the exponent, and u doubles at each squaring. */
  function Loss(ex: real, u: real, exp: nat): real
    decreases exp
  {
    if exp == 0 then ex else Loss(if exp % 2 == 1 then ex + u else ex, 2.0 * u, exp / 2)
  }

  lemma {:induction false} LadderError(result: nat, squared: nat, exp: nat, x: real, y: real, ex: real, u: real)
    requires Within(x, result, ex) && Within(y, squared, u - 1.0)
    ensures Within(ExactLadder(x, y, exp), Ladder(result, squared, exp), Loss(ex, u, exp))
    decreases exp
  {
    if exp == 0 {
    } else {
      TruncatedProduct(squared, squared, y, y, u - 1.0, u - 1.0);
      if exp % 2 == 1 {
        TruncatedProduct(result, squared, x, y, ex, u - 1.0);
        LadderError(Truncated(result, squared), Truncated(squared, squared), exp / 2, x * y, y * y, ex + u, 2.0 * u);
      } else {
        LadderError(result, Truncated(squared, squared), exp / 2, x, y * y, ex, 2.0 * u);
      }
    }
  }

  lemma {:induction false} ExactLadderIsPower(x: real, y: real, exp: nat)
    ensures ExactLadder(x, y, exp) == x * Pow(y, exp)
    decreases exp
  {
    if exp == 0 {
    } else {
      var h := exp / 2;
      PowSquare(y, h);
      if exp % 2 == 1 {
        ExactLadderIsPower(x * y, y * y, h);
        assert x * y * Pow(y, 2 * h) == x * (y * Pow(y, 2 * h));
      } else {
        ExactLadderIsPower(x, y * y, h);
      }
    }
  }

  lemma {:induction false} LossIsLinear(ex: real, u: real, exp: nat)
    ensures Loss(ex, u, exp) == ex + exp as real * u
    decreases exp
  {
    if exp == 0 {
    } else {
      var h := exp / 2;
      LossIsLinear(if exp % 2 == 1 then ex + u else ex, 2.0 * u, h);
      HalvedProduct(u, exp, h);
    }
  }

  lemma HalvedProduct(u: real, exp: nat, h: nat)
    requires h == exp / 2
    ensures (if exp % 2 == 1 then u else 0.0) + h as real * (2.0 * u) == exp as real * u
  {
    var n, k := exp as real, h as real;
    assert k * (2.0 * u) == 2.0 * (k * u);
    assert n == 2.0 * k + (if exp % 2 == 1 then 1.0 else 0.0);
    assert exp % 2 == 1 ==> n * u == 2.0 * (k * u) + u;
  }

  /** 2^64 * (2^64/base)^n: what the price of bin -n would be without truncation. */
  function ExactNegative(n: nat, binStep: nat): real {
    W as real * Pow(W as real / Base(binStep) as real, n)
  }

  /** The computed price of bin -n never exceeds the exact one and is below it by at most 2n ulps. */
  lemma NegativePriceError(n: nat, binStep: nat)
    ensures 0.0 <= ExactNegative(n, binStep) - NegativePrice(n, binStep) as real <= 2.0 * n as real
  {
    var b := Base(binStep);
    var s, w, y := U128_MAX / b, W as real, W as real / b as real;
    InverseBase(binStep);
    FloorGalois(U128_MAX, b, s);
    FloorGalois(U128_MAX, b, s + 1);
    CastProduct(s, b);
    CastProduct(s + 1, b);
    assert y * b as real == w;
    CancelLe(0.0, y, b as real);
    CancelLe(y, 1.0, b as real);
    assert w * y * b as real == w * w;
    TruncationGap(w * w, w * y, s as real, 0.0, b as real);
    LadderError(W, s, n, 1.0, y, 0.0, 2.0);
    ExactLadderIsPower(1.0, y, n);
    LossIsLinear(0.0, 2.0, n);
  }

  /** Prices of negative bins lie below one, prices of positive bins at or above one. */
  lemma {:induction false} LadderShrinks(result: nat, squared: nat, exp: nat)
    requires result <= W && squared < W
    ensures Ladder(result, squared, exp) <= result
    ensures exp > 0 ==> Ladder(result, squared, exp) < W
    decreases exp
  {
    if exp == 0 {
    } else {
      ProductBelow(squared, squared);
      if exp % 2 == 1 {
        ProductBelow(result, squared);
        assert Truncated(result, squared) <= result by {
          FloorGalois(result * squared, W, result + 1);
          MulLe(squared, W, result);
          assert (result + 1) * W == result * W + W;
        }
        LadderShrinks(Truncated(result, squared), Truncated(squared, squared), exp / 2);
      } else {
        LadderShrinks(result, Truncated(squared, squared), exp / 2);
      }
    }
  }

  /** The whole contract of the price function: its domain, the side of one each price lies on,
      the error of a negative bin, and the reciprocal relation of the two signs. */
  lemma PriceContract(n: int, binStep: nat)
    requires n > 0
    ensures var down, up := PriceFromId(-n, binStep), PriceFromId(n, binStep);
            && (down.None? <==> up.None?)
            && (n >= EXPONENT_LIMIT ==> down.None?)
            && (n < EXPONENT_LIMIT && ExactNegative(n, binStep) > 2.0 * n as real ==> down.Some?)
            && (down.Some? ==>
                  && 0 < down.value < W <= up.value
                  && 0.0 <= ExactNegative(n, binStep) - down.value as real <= 2.0 * n as real
                  && down.value * up.value < W * W <= down.value * (up.value + 1))
  {
    NegativePriceError(n, binStep);
    NegativePriceBelowOne(n, binStep);
    hide ExactNegative, NegativePrice;
    var p := NegativePrice(n, binStep);
    if p > 0 {
      Reciprocal(p);
    }
  }

  lemma NegativePriceBelowOne(n: nat, binStep: nat)
    requires n > 0
    ensures NegativePrice(n, binStep) < W
  {
    InverseBase(binStep);
    LadderShrinks(W, U128_MAX / Base(binStep), n);
  }

  lemma Reciprocal(p: nat)
    requires 0 < p < W
    ensures U128_MAX / p >= W && p * (U128_MAX / p) < W * W <= p * (U128_MAX / p + 1)
  {
    FloorGalois(U128_MAX, p, U128_MAX / p);
    FloorGalois(U128_MAX, p, U128_MAX / p + 1);
    FloorGalois(U128_MAX, p, W);
    MulLe(p, W - 1, W);
  }

  /** A positive bin's price is never more than one ulp below the exact power of the base. */
  lemma PositivePriceLowerBound(n: int, binStep: nat)
    requires 0 < n && PriceFromId(n, binStep).Some?
    ensures (PriceFromId(n, binStep).value + 1) as real * ExactNegative(n, binStep) >= W as real * W as real
  {
    PriceContract(n, binStep);
    var p, q := PriceFromId(-n, binStep).value, PriceFromId(n, binStep).value;
    var e := ExactNegative(n, binStep);
    CastProduct(p, q + 1);
    CastProduct(W, W);
    ScaleLe(p as real, e, (q + 1) as real);
    assert p as real * (q + 1) as real == (p * (q + 1)) as real >= (W * W) as real;
    assert e * (q + 1) as real == (q + 1) as real * e;
  }

  /** Nor is it further above the exact power than the error of the negative bin allows. */
  lemma PositivePriceUpperBound(n: int, binStep: nat)
    requires 0 < n && PriceFromId(n, binStep).Some?
    ensures PriceFromId(n, binStep).value as real * (ExactNegative(n, binStep) - 2.0 * n as real)
            < W as real * W as real
  {
    PriceContract(n, binStep);
    var p, q := PriceFromId(-n, binStep).value, PriceFromId(n, binStep).value;
    var e := ExactNegative(n, binStep) - 2.0 * n as real;
    hide PriceFromId, ExactNegative;
    CastProduct(p, q);
    CastProduct(W, W);
    ScaleLe(e, p as real, q as real);
    assert p as real * q as real == (p * q) as real < (W * W) as real;
    assert e * q as real == q as real * e;
  }


  // ---- against the rational step ----

  /** The exact price of bin -n, in units of the last place: a step is a part of 10_000. */
  function TruePrice(n: nat, binStep: nat): real {
    18_446_744_073_709_551_616.0 * Pow(10_000.0 / (10_000.0 + binStep as real), n)
  }

  lemma PowIs(x: real, n: nat)
    ensures Pow(x, 0) == 1.0 && Pow(x, n + 1) == x * Pow(x, n)
  {
  }

  lemma {:induction false} PowUnit(x: real, n: nat)
    requires 0.0 <= x <= 1.0
    ensures 0.0 <= Pow(x, n) <= 1.0
  {
    if n == 0 {
    } else {
      PowUnit(x, n - 1);
      Rectangle(x, Pow(x, n - 1), 1.0, 1.0);
    }
  }

  /** Powers of two numbers in the unit interval lie no further apart than n times the numbers. */
  lemma {:induction false} PowGap(x: real, y: real, n: nat)
    requires 0.0 <= x <= y <= 1.0
    ensures 0.0 <= Pow(y, n) - Pow(x, n) <= n as real * (y - x)
  {
    hide Pow;
    if n == 0 {
      PowIs(x, 0);
      PowIs(y, 0);
    } else {
      PowGap(x, y, n - 1);
      PowUnit(x, n - 1);
      PowIs(x, n - 1);
      PowIs(y, n - 1);
      GapStep(x, y, Pow(x, n - 1), Pow(y, n - 1), (n - 1) as real * (y - x));
      Distribute((n - 1) as real, 1.0, y - x);
    }
  }

  lemma GapStep(x: real, y: real, a: real, b: real, m: real)
    requires 0.0 <= x <= y <= 1.0 && 0.0 <= a <= 1.0 && 0.0 <= b - a <= m
    ensures 0.0 <= y * b - x * a <= m + (y - x)
  {
    Rectangle(b - a, y, m, 1.0);
    Rectangle(y - x, a, y - x, 1.0);
    Minus(b, a, y);
    Minus(y, x, a);
  }

  lemma Minus(x: real, y: real, k: real)
    ensures (x - y) * k == k * x - y * k
  {
  }

  /** Truncating the base moves its reciprocal by at most one unit in the last place, upwards. */
  lemma BaseGap(binStep: nat)
    ensures var x, y := 10_000.0 / (10_000.0 + binStep as real), W as real / Base(binStep) as real;
            0.0 <= x <= y <= 1.0 && (y - x) * W as real <= 1.0
  {
    var b, bps := Base(binStep), binStep * W / 10_000;
    var t, w := 10_000.0 + binStep as real, W as real;
    var x, y, B := 10_000.0 / t, w / b as real, b as real;
    InverseBase(binStep);
    FloorGalois(binStep * W, 10_000, bps);
    FloorGalois(binStep * W, 10_000, bps + 1);
    CastProduct(binStep, W);
    assert b == W + bps;
    assert x * t == 10_000.0 && y * B == w;
    assert 10_000.0 * B <= t * w < 10_000.0 * B + 10_000.0 by {
      assert t * w == 10_000.0 * w + binStep as real * w;
    }
    ReciprocalGap(x, y, t, B, w);
  }

  lemma ReciprocalGap(x: real, y: real, t: real, b: real, w: real)
    requires w > 0.0 && b >= w && t >= 10_000.0 && x * t == 10_000.0 && y * b == w
    requires 10_000.0 * b <= t * w < 10_000.0 * b + 10_000.0
    ensures 0.0 <= x <= y <= 1.0 && (y - x) * w <= 1.0
  {
    CancelLe(0.0, x, t);
    CancelLe(x, 1.0, t);
    CancelLe(y, 1.0, b);
    ScaleLe(10_000.0 * b, t * w, x);
    ScaleLe(t * w, 10_000.0 * b + 10_000.0, x);
    assert x * (t * w) == 10_000.0 * w by { assert x * (t * w) == (x * t) * w; }
    assert (10_000.0 * b) * x == 10_000.0 * (x * b);
    assert (10_000.0 * b + 10_000.0) * x == 10_000.0 * (x * b) + 10_000.0 * x;
    assert x * b <= w <= x * b + x;
    CancelLe(x, y, b);
    ScaleLe(w, b, y - x);
    assert (y - x) * b == y * b - x * b;
    assert (y - x) * w == w * (y - x) && (y - x) * b == b * (y - x);
  }

  /** The power of the truncated base is at most n units above the exact price. */
  lemma TruePriceNear(n: nat, binStep: nat)
    ensures TruePrice(n, binStep) <= ExactNegative(n, binStep) <= TruePrice(n, binStep) + n as real
  {
    var x, y := 10_000.0 / (10_000.0 + binStep as real), W as real / Base(binStep) as real;
    BaseGap(binStep);
    PowGap(x, y, n);
    hide Pow, Base;
    ScaledGap(Pow(x, n), Pow(y, n), y - x, n as real, W as real);
  }

  lemma ScaledGap(a: real, b: real, d: real, m: real, w: real)
    requires w > 0.0 && m >= 0.0 && 0.0 <= b - a <= m * d && d * w <= 1.0
    ensures w * a <= w * b <= w * a + m
  {
    ScaleLe(0.0, b - a, w);
    ScaleLe(b - a, m * d, w);
    ScaleLe(d * w, 1.0, m);
    assert m * d * w == (d * w) * m;
    assert w * b == w * a + (b - a) * w;
  }

  /** The price of bin -n is at most 2n units below the exact price and at most n above it; it is refused
      beyond 524_287 bins, or when it is nothing. */
  lemma NegativePriceIs(n: int, binStep: nat)
    requires n > 0
    ensures PriceFromId(0, binStep) == Some(18_446_744_073_709_551_616)
    ensures n >= 524_288 ==> PriceFromId(-n, binStep).None?
    ensures n < 524_288 && TruePrice(n, binStep) > 2.0 * n as real ==> PriceFromId(-n, binStep).Some?
    ensures PriceFromId(-n, binStep).Some? ==>
              var price := PriceFromId(-n, binStep).value as real;
              TruePrice(n, binStep) - 2.0 * n as real <= price <= TruePrice(n, binStep) + n as real
  {
    NegativePriceError(n, binStep);
    TruePriceNear(n, binStep);
    hide NegativePrice, TruePrice, ExactNegative;
  }

  /** The price of bin n is the rounded-down reciprocal, so it is bounded by the same units. */
  lemma PositivePriceIs(n: int, binStep: nat)
    requires n > 0
    ensures PriceFromId(n, binStep).Some? <==> PriceFromId(-n, binStep).Some?
    ensures PriceFromId(n, binStep).Some? ==>
              var price, exact := PriceFromId(n, binStep).value, TruePrice(n, binStep);
              && price >= 18_446_744_073_709_551_616
              && price as real * (exact - 2.0 * n as real) < 340_282_366_920_938_463_463_374_607_431_768_211_456.0
                 <= (price + 1) as real * (exact + n as real)
  {
    hide TruePrice, ExactNegative, PriceFromId;
    PriceContract(n, binStep);
    NegativePriceIs(n, binStep);
    if PriceFromId(n, binStep).Some? {
      var exact := TruePrice(n, binStep);
      ReciprocalBounds(PriceFromId(-n, binStep).value, PriceFromId(n, binStep).value,
                       exact - 2.0 * n as real, exact + n as real);
    }
  }

  lemma ReciprocalBounds(p: nat, q: nat, low: real, high: real)
    requires p * q < W * W <= p * (q + 1) && low <= p as real <= high
    ensures q as real * low < 340_282_366_920_938_463_463_374_607_431_768_211_456.0 <= (q + 1) as real * high
  {
    CastProduct(p, q);
    CastProduct(p, q + 1);
    ProductBounds(p as real, q as real, (q + 1) as real, low, high, (W * W) as real);
  }

  lemma ProductBounds(p: real, q: real, r: real, low: real, high: real, c: real)
    requires q >= 0.0 && r >= 0.0 && p * q < c <= p * r && low <= p <= high
    ensures q * low < c <= r * high
  {
    ScaleLe(low, p, q);
    ScaleLe(p, high, r);
  }
}

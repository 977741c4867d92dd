/** Q64.64 arithmetic of the DLMM quote kernel: the four-limb multiply-shift, the
    shift-divide, and the two amount conversions built on them. */
module FixedPoint {
  import opened Rounding

  const W: nat := 0x1_0000_0000_0000_0000  // 2^64
  const U64_MAX: nat := W - 1
  const U128_MAX: nat := W * W - 1

  type u64 = x: nat | x < W

  /** a*b >> 64 on 64-bit limbs; refuses when any limb above the low 128 bits is set. */
  function MulShr64(a: nat, b: nat, roundUp: bool): Option<nat> {
    var a0, a1 := a % W, a / W;
    var b0, b1 := b % W, b / W;
    var p00, p01, p10, p11 := a0 * b0, a0 * b1, a1 * b0, a1 * b1;
    var mid := p00 / W + p01 % W + p10 % W;
    var hi := p11 + p01 / W + p10 / W + mid / W;
    if hi != 0 then None
    else
      var r := mid % W;
      if roundUp && p00 % W != 0 then
        if r == U128_MAX then None else Some(r + 1)
      else Some(r)
  }

  /** (num << 64) / den, refusing a zero divisor and a numerator wider than 64 bits. */
  function Shl64Div(num: nat, den: nat, roundUp: bool): Option<nat> {
    if den == 0 || num > U128_MAX / W then None
    else
      var q, rem := num * W / den, num * W % den;
      if roundUp && rem != 0 then
        if q == U128_MAX then None else Some(q + 1)
      else Some(q)
  }

  function AmountOut(amountIn: nat, price: nat, swapForY: bool): Option<nat> {
    var r := if swapForY then MulShr64(price, amountIn, false) else Shl64Div(amountIn, price, false);
    if r.None? || r.value > U64_MAX then None else r
  }

  function AmountIn(amountOut: nat, price: nat, swapForY: bool, roundUp: bool): Option<nat> {
    var r := if swapForY then Shl64Div(amountOut, price, roundUp) else MulShr64(amountOut, price, roundUp);
    if r.None? || r.value > U64_MAX then None else r
  }

  // ---- exactness of the limb arithmetic ----

  lemma LimbProduct(a0: nat, a1: nat, b0: nat, b1: nat)
    ensures (a1 * W + a0) * (b1 * W + b0) == a0 * b0 + W * (a0 * b1 + a1 * b0) + W * W * (a1 * b1)
  {
    assert (a1 * W + a0) * (b1 * W + b0) == a1 * W * (b1 * W + b0) + a0 * (b1 * W + b0);
    assert a1 * W * (b1 * W + b0) == W * W * (a1 * b1) + W * (a1 * b0);
    assert a0 * (b1 * W + b0) == W * (a0 * b1) + a0 * b0;
  }

  /** The limbs recombine: a*b splits as lo + W*middle + W^2*hi with lo, middle < W. */
  lemma LimbSum(a: nat, b: nat) returns (lo: nat, middle: nat, hi: nat)
    ensures lo == (a % W) * (b % W) % W
    ensures hi == (a / W) * (b / W) + (a % W) * (b / W) / W + (a / W) * (b % W) / W
               + ((a % W) * (b % W) / W + (a % W) * (b / W) % W + (a / W) * (b % W) % W) / W
    ensures middle == ((a % W) * (b % W) / W + (a % W) * (b / W) % W + (a / W) * (b % W) % W) % W
    ensures a * b == lo + W * middle + W * W * hi
  {
    var a0, a1, b0, b1 := a % W, a / W, b % W, b / W;
    LimbProduct(a0, a1, b0, b1);
    var p00, p01, p10, p11 := a0 * b0, a0 * b1, a1 * b0, a1 * b1;
    var mid := p00 / W + p01 % W + p10 % W;
    lo, middle, hi := p00 % W, mid % W, p11 + p01 / W + p10 / W + mid / W;
  }

  /** The multiply-shift is the exact floor or ceiling of a*b / 2^64, and it refuses
      exactly the products of 2^128 or more, that is, results of 2^64 or more. */
  lemma MulShr64Exact(a: nat, b: nat, roundUp: bool)
    ensures MulShr64(a, b, roundUp).None? <==> a * b >= W * W
    ensures MulShr64(a, b, roundUp).Some? ==>
              MulShr64(a, b, roundUp).value == if roundUp then CeilDiv(a * b, W) else a * b / W
  {
    var lo, middle, hi := LimbSum(a, b);
    if hi == 0 {
      DivUnique(a * b, W, middle, lo);
    }
  }

  lemma Shl64DivExact(num: nat, den: nat, roundUp: bool)
    ensures Shl64Div(num, den, roundUp).None? <==> den == 0 || num >= W
    ensures Shl64Div(num, den, roundUp).Some? ==>
              Shl64Div(num, den, roundUp).value == if roundUp then CeilDiv(num * W, den) else num * W / den
  {
    assert U128_MAX / W == W - 1;
    if den > 0 && num < W {
      FloorGalois(num * W, den, W * W);
      if num * W / den >= W * W {
        MulLe(1, den, W * W);
      }
      MulLt(num, W, W);
      if num * W / den >= U128_MAX {
        FloorGalois(num * W, den, U128_MAX);
        MulLe(1, den, U128_MAX);
      }
    }
  }

  // ---- the two conversions as one exact rational rate ----

  /** Output per input is Num/Den: price/2^64 towards y, 2^64/price towards x. */
  function Num(price: nat, swapForY: bool): nat { if swapForY then price else W }
  function Den(price: nat, swapForY: bool): nat { if swapForY then W else price }

  /** AmountOut is the exact rounded-down conversion; it refuses exactly the results above 64 bits
      and, towards x, inputs above 64 bits. */
  lemma AmountOutExact(x: nat, price: nat, y: bool)
    requires price > 0
    ensures var exact := x * Num(price, y) / Den(price, y);
            if exact <= U64_MAX && (y || x <= U64_MAX)
            then AmountOut(x, price, y) == Some(exact) else AmountOut(x, price, y).None?
  {
    if y {
      MulShr64Exact(price, x, false);
      assert price * x == x * price;
      FloorGalois(x * price, W, W);
    } else {
      Shl64DivExact(x, price, false);
    }
  }

  /** AmountIn rounded up is the exact rounded-up conversion back. */
  lemma AmountInExact(o: nat, price: nat, y: bool)
    requires price > 0
    ensures var exact := CeilDiv(o * Den(price, y), Num(price, y));
            if exact <= U64_MAX && (!y || o <= U64_MAX)
            then AmountIn(o, price, y, true) == Some(exact) else AmountIn(o, price, y, true).None?
  {
    if y {
      Shl64DivExact(o, price, true);
    } else {
      MulShr64Exact(o, price, true);
      CeilGalois(o * price, W, U64_MAX);
    }
  }

  /** Rounded-up input and rounded-down output are adjoint in both directions: paying x buys
      at least y exactly when x covers the input asked for y. */
  lemma ConversionsAdjoint(x: nat, o: nat, price: nat, y: bool)
    requires price > 0
    requires AmountIn(o, price, y, true).Some? && AmountOut(x, price, y).Some?
    ensures AmountIn(o, price, y, true).value <= x <==> o <= AmountOut(x, price, y).value
  {
    AmountInExact(o, price, y);
    AmountOutExact(x, price, y);
    Adjoint(x, o, Num(price, y), Den(price, y));
  }


  // ---- in plain numbers ----

  /** Towards y an amount is multiplied by price / 2^64, towards x divided by it: rounded down on the way
      out and rounded up on the way in, up to 2^64 - 1. */
  lemma ConversionsAre(a: nat, price: nat, y: bool, out: nat, cost: nat)
    requires price > 0
    ensures AmountOut(a, price, y) == Some(out) <==>
            && out <= 18_446_744_073_709_551_615 && (y || a <= 18_446_744_073_709_551_615)
            && (if y then Most(out, 18_446_744_073_709_551_616, a * price)
                else Most(out, price, a * 18_446_744_073_709_551_616))
    ensures AmountIn(a, price, y, true) == Some(cost) <==>
            && cost <= 18_446_744_073_709_551_615 && (!y || a <= 18_446_744_073_709_551_615)
            && (if y then Least(cost, price, a * 18_446_744_073_709_551_616)
                else Least(cost, 18_446_744_073_709_551_616, a * price))
  {
    AmountOutExact(a, price, y);
    AmountInExact(a, price, y);
    MostIsFloor(out, Den(price, y), a * Num(price, y));
    LeastIsCeil(cost, Num(price, y), a * Den(price, y));
    hide AmountOut, AmountIn, Most, Least, CeilDiv;
  }
}

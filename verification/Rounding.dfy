/** Floor and ceiling division, each characterised by the inequality it solves.
    Every rounding argument in the project goes through these two equivalences. */
module Rounding {

  datatype Option<+T> = None | Some(value: T)

  /** Smallest integer not below n/d. */
  function CeilDiv(n: int, d: int): int
    requires d > 0
  {
    n / d + (if n % d != 0 then 1 else 0)
  }

  lemma MulLe(a: int, b: int, c: int)
    requires a <= b && 0 <= c
    ensures a * c <= b * c
  {
    assert 0 <= (b - a) * c;
  }

  lemma MulLt(a: int, b: int, c: int)
    requires a < b && 0 < c
    ensures a * c < b * c
  {
    assert 0 < (b - a) * c;
  }

  /** x/d is the largest k with k*d <= x. */
  lemma FloorGalois(x: int, d: int, k: int)
    requires d > 0
    ensures k <= x / d <==> k * d <= x
  {
    assert x == x / d * d + x % d;
    if k <= x / d {
      MulLe(k, x / d, d);
    } else {
      MulLe(x / d + 1, k, d);
      assert (x / d + 1) * d == x / d * d + d;
    }
  }

  /** CeilDiv(x, d) is the smallest k with x <= k*d. */
  lemma CeilGalois(x: int, d: int, k: int)
    requires d > 0
    ensures CeilDiv(x, d) <= k <==> x <= k * d
  {
    var q := CeilDiv(x, d);
    assert x == x / d * d + x % d;
    assert (x / d + 1) * d == x / d * d + d;
    if q <= k {
      MulLe(q, k, d);
    } else {
      MulLe(k, q - 1, d);
      assert (q - 1) * d < x by {
        if x % d == 0 { assert (q - 1) * d == x - d; }
      }
    }
  }

  lemma DivUnique(x: int, d: int, q: int, r: int)
    requires d > 0 && x == q * d + r && 0 <= r < d
    ensures x / d == q && x % d == r
  {
    FloorGalois(x, d, q);
    FloorGalois(x, d, q + 1);
    assert (q + 1) * d == q * d + d;
    assert x / d == q;
    assert x == x / d * d + x % d;
  }

  lemma FloorMono(x: int, y: int, d: int)
    requires d > 0 && x <= y
    ensures x / d <= y / d
  {
    FloorGalois(x, d, x / d);
    FloorGalois(y, d, x / d);
  }

  lemma CeilMono(x: int, y: int, d: int)
    requires d > 0 && x <= y
    ensures CeilDiv(x, d) <= CeilDiv(y, d)
  {
    CeilGalois(y, d, CeilDiv(y, d));
    CeilGalois(x, d, CeilDiv(y, d));
  }

  lemma CeilNonNeg(x: int, d: int)
    requires d > 0 && x >= 0
    ensures 0 <= CeilDiv(x, d)
    ensures x > 0 ==> 0 < CeilDiv(x, d)
  {
    FloorGalois(x, d, 0);
  }

  /** The rounding-up idiom (x + d - 1) // d. */
  lemma CeilByAdding(x: int, d: int)
    requires d > 0
    ensures (x + d - 1) / d == CeilDiv(x, d)
  {
    var q := CeilDiv(x, d);
    CeilGalois(x, d, q);
    CeilGalois(x, d, q - 1);
    assert (q - 1) * d == q * d - d;
    FloorGalois(x + d - 1, d, q);
    FloorGalois(x + d - 1, d, q + 1);
    assert (q + 1) * d == q * d + d;
  }

  /** The rounding-up idiom on naturals. */
  function UpDiv(x: nat, d: nat): (r: nat)
    requires d > 0
    ensures r == CeilDiv(x, d)
  {
    CeilByAdding(x, d);
    CeilNonNeg(x, d);
    (x + d - 1) / d
  }

  /** A rounded-up conversion and the rounded-down conversion back are adjoint:
      y*den/num rounded up fits in x exactly when y is reached by x*num/den rounded down. */
  lemma Adjoint(x: int, y: int, num: int, den: int)
    requires num > 0 && den > 0
    ensures CeilDiv(y * den, num) <= x <==> y <= x * num / den
  {
    CeilGalois(y * den, num, x);
    FloorGalois(x * num, den, y);
  }


  // ---- divisions told without dividing ----

  /** f is the least integer whose product with d reaches x. */
  predicate Least(f: int, d: int, x: int) { (f - 1) * d < x <= f * d }

  /** g is the largest integer whose product with d stays within x. */
  predicate Most(g: int, d: int, x: int) { g * d <= x < (g + 1) * d }

  lemma LeastIsCeil(f: int, d: int, x: int)
    requires d > 0
    ensures Least(f, d, x) <==> f == CeilDiv(x, d)
  {
    CeilGalois(x, d, f);
    CeilGalois(x, d, f - 1);
  }

  lemma MostIsFloor(g: int, d: int, x: int)
    requires d > 0
    ensures Most(g, d, x) <==> g == x / d
  {
    FloorGalois(x, d, g);
    FloorGalois(x, d, g + 1);
  }
}

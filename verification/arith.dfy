/** Multiplication by repeated addition. Proofs about slot positions are
    kept in linear arithmetic by reasoning about `Times` and converting to
    `*` only at the end. */
module Arith {

  function Times(a: nat, b: nat): nat
    decreases a
  {
    if a == 0 then 0 else Times(a - 1, b) + b
  }

  lemma {:induction false} TimesIsMul(a: nat, b: nat)
    ensures Times(a, b) == a * b
    decreases a
  {
    if a > 0 {
      TimesIsMul(a - 1, b);
      assert (a - 1) * b + b == a * b;
    }
  }

  lemma {:induction false} TimesMono(a: nat, c: nat, b: nat)
    requires a <= c
    ensures Times(a, b) <= Times(c, b)
    decreases c
  {
    if a < c {
      TimesMono(a, c - 1, b);
    }
  }

  lemma {:induction false} TimesAdd(a: nat, c: nat, b: nat)
    ensures Times(a + c, b) == Times(a, b) + Times(c, b)
    decreases c
  {
    if c > 0 {
      TimesAdd(a, c - 1, b);
    }
  }

  /** `(k * h) * b == h * (k * b)`, by induction on `h`. */
  lemma {:induction false} TimesScale(k: nat, h: nat, b: nat)
    ensures Times(k * h, b) == Times(h, Times(k, b))
    decreases h
  {
    if h > 0 {
      TimesScale(k, h - 1, b);
      TimesAdd(k * (h - 1), k, b);
      assert k * (h - 1) + k == k * h;
    }
  }

  lemma MulAtLeast(x: nat, d: nat)
    requires x >= 1
    ensures x * d >= d
  {
    TimesIsMul(x, d);
    TimesMono(1, x, d);
  }

  /** Integer division is determined by the bracketing multiples. */
  lemma DivFromBounds(n: nat, d: nat, q: nat)
    requires d > 0 && q * d <= n < q * d + d
    ensures n / d == q
  {
    var p := n / d;
    assert p * d <= n < p * d + d;
    if p > q {
      MulAtLeast(p - q, d);
    } else if p < q {
      MulAtLeast(q - p, d);
    }
  }

  /** The position of row `row` of the `h`-th block of `rows` rows of
      width `r`. */
  lemma BlockOffset(rows: nat, h: nat, row: nat, r: nat)
    ensures Times(rows * h + row, r) == Times(h, Times(rows, r)) + Times(row, r)
  {
    TimesScale(rows, h, r);
    TimesAdd(rows * h, row, r);
  }

  lemma BlockSize(g: nat, rows: nat, r: nat)
    ensures Times(g, Times(rows, r)) == g * rows * r
  {
    TimesScale(rows, g, r);
    TimesIsMul(rows * g, r);
    assert rows * g * r == g * rows * r;
  }

  lemma MulPositive(a: nat, b: nat)
    ensures a * b > 0 <==> a > 0 && b > 0
  {
    if a > 0 && b > 0 {
      MulAtLeast(a, b);
    }
  }

  lemma TimesCommutes(a: nat, b: nat)
    ensures Times(a, b) == b * a
  {
    TimesIsMul(a, b);
  }
}

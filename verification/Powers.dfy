/** Powers of two, halving, and the shifts the C code writes with them. */
module Powers {
  function Pow2(k: nat): (p: nat)
    ensures p >= 1
  {
    if k == 0 then 1 else 2 * Pow2(k - 1)
  }

  lemma {:induction false} Pow2Monotone(a: nat, b: nat)
    requires a <= b
    ensures Pow2(a) <= Pow2(b)
    decreases b
  {
    if a == b {
    } else {
      Pow2Monotone(a, b - 1);
    }
  }

  /** x >> k, one halving at a time. */
  function Up(x: nat, k: nat): nat
    decreases k
  {
    if k == 0 then x else Up(x / 2, k - 1)
  }

  lemma {:induction false} UpCompose(x: nat, a: nat, b: nat)
    ensures Up(x, a + b) == Up(Up(x, a), b)
    decreases a
  {
    if a == 0 {
    } else {
      UpCompose(x / 2, a - 1, b);
    }
  }

  lemma UpLast(x: nat, k: nat)
    requires k > 0
    ensures Up(x, k) == Up(x, k - 1) / 2
  {
    UpCompose(x, k - 1, 1);
  }

  lemma MulDouble(a: nat, p: nat)
    ensures a * (2 * p) == 2 * (a * p)
  {
  }

  /** Halving k times is division by Pow2(k). */
  lemma {:induction false} UpInterval(x: nat, k: nat)
    ensures Up(x, k) * Pow2(k) <= x < (Up(x, k) + 1) * Pow2(k)
    decreases k
  {
    if k == 0 {
    } else {
      UpInterval(x / 2, k - 1);
      var q, p := Up(x / 2, k - 1), Pow2(k - 1);
      MulDouble(q, p);
      MulDouble(q + 1, p);
    }
  }

  lemma MulMonotone(a: nat, b: nat, c: nat)
    requires a <= b
    ensures a * c <= b * c
  {
    assert b * c == a * c + (b - a) * c;
  }

  lemma IntervalUp(x: nat, k: nat, i: nat)
    requires i * Pow2(k) <= x < (i + 1) * Pow2(k)
    ensures Up(x, k) == i
  {
    UpInterval(x, k);
    var u, p := Up(x, k), Pow2(k);
    if u < i {
      MulMonotone(u + 1, i, p);
    } else if i < u {
      MulMonotone(i + 1, u, p);
    }
  }

  lemma {:induction false} UpOfShifted(i: nat, d: nat)
    ensures Up(i * Pow2(d), d) == i
  {
    assert (i + 1) * Pow2(d) == i * Pow2(d) + Pow2(d);
    IntervalUp(i * Pow2(d), d, i);
  }

  lemma {:induction false} Pow2Add(a: nat, b: nat)
    ensures Pow2(a + b) == Pow2(a) * Pow2(b)
  {
    if a == 0 {
    } else {
      Pow2Add(a - 1, b);
      assert 2 * Pow2(a - 1) * Pow2(b) == 2 * (Pow2(a - 1) * Pow2(b));
    }
  }

  lemma {:induction false} UpMonotone(x: nat, y: nat, k: nat)
    requires x <= y
    ensures Up(x, k) <= Up(y, k)
    decreases k
  {
    if k == 0 {
    } else {
      UpMonotone(x / 2, y / 2, k - 1);
    }
  }
}

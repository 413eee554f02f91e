/** Facts about Euclidean division that the solver does not find on its own. */
module DivMod {

  /** Quotient and remainder are the unique pair that rebuilds the dividend. */
  lemma DivModUnique(n: int, w: int, q: int, r: int)
    requires w > 0 && 0 <= r < w && n == w * q + r
    ensures n / w == q && n % w == r
  {
    var q', r' := n / w, n % w;
    assert n == w * q' + r';
    if q' > q {
      assert w * q' >= w * (q + 1) by { MulMonotone(w, q + 1, q'); }
    } else if q' < q {
      assert w * q >= w * (q' + 1) by { MulMonotone(w, q' + 1, q); }
    }
  }

  lemma MulMonotone(w: int, a: int, b: int)
    requires w > 0 && a <= b
    ensures w * a <= w * b
  {
    assert w * b - w * a == w * (b - a);
  }
}

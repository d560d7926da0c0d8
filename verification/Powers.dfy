/** Powers of two. */
module Powers {
  function Pow2(k: nat): (r: nat)
    ensures r > 0
  {
    if k == 0 then 1 else 2 * Pow2(k - 1)
  }

  lemma {:induction false} Pow2Split(a: nat, b: nat)
    requires a <= b
    ensures Pow2(b) == Pow2(a) * Pow2(b - a)
    ensures Pow2(a) <= Pow2(b)
    decreases b - a
  {
    if a < b {
      Pow2Split(a, b - 1);
      MulTwo(Pow2(a), Pow2(b - 1 - a));
    }
  }

  lemma MulTwo(x: nat, y: nat)
    ensures x * (2 * y) == 2 * (x * y)
  {
  }
}

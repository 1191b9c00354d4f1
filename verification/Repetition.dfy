/** Multiplication by repeated addition, which keeps products of variables out of inductions. */
module Repetition {

  function Times(n: nat, k: nat): nat {
    if k == 0 then 0 else n + Times(n, k - 1)
  }

  lemma {:induction false} TimesIsProduct(n: nat, k: nat)
    ensures Times(n, k) == n * k
  {
    if k > 0 {
      TimesIsProduct(n, k - 1);
      assert n * k == n * (k - 1) + n;
    }
  }
}

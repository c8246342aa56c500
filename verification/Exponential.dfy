/** The exponential, known only by its functional equation. */
module Exponential {
  import opened LinearAlgebra

  ghost predicate ExpAdds(exp: real -> real, a: real, b: real) {
    exp(a + b) == Times(exp(a), exp(b))
  }

  ghost predicate IsExp(exp: real -> real) {
    exp(0.0) == 1.0 && forall a, b :: ExpAdds(exp, a, b)
  }

  lemma ExpPositive(exp: real -> real, a: real)
    requires IsExp(exp)
    ensures exp(a) > 0.0
  {
    assert ExpAdds(exp, a / 2.0, a / 2.0);
    assert ExpAdds(exp, a, -a);
    assert exp(a / 2.0) * exp(a / 2.0) == exp(a);
    assert exp(a) * exp(-a) == 1.0;
  }
}

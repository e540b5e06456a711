/** The older u64 `MulDiv::mul_div`: `a * n / d` through a u128
    intermediate, every failure reported as `MathOverflow`. */
module MathMulDiv {
  import opened Errors
  import opened SafeArithmetics

  function MulDiv(a: nat, n: nat, d: nat): (r: Result<nat>)
    requires Fits(U64, a) && Fits(U64, n) && Fits(U64, d)
    ensures r.Ok? <==> d > 0 && a * n / d <= U64_MAX
    ensures r.Ok? ==> r.value * d <= a * n < (r.value + 1) * d
    ensures r.Err? ==> r.error == MathOverflow
  {
    // `checked_mul` of two widened u64 values always succeeds in u128
    WideProductFits(U64, a, n);
    var product := SafeMul(U128, a, n).value;
    if d == 0 then Err(MathOverflow)
    else
      var q := product / d;
      FloorBounds(product, d);
      if q <= U64_MAX then Ok(q) else Err(MathOverflow)
  }

  /** `mul_div` and `safe_mul_div` on u64 succeed on the same inputs and
      then agree; they differ only in the error code they report. */
  lemma MulDivAgreesWithSafeMulDiv(a: nat, n: nat, d: nat)
    requires Fits(U64, a) && Fits(U64, n) && Fits(U64, d)
    ensures MulDiv(a, n, d).Ok? == SafeMulDiv(U64, a, n, d).Ok?
    ensures MulDiv(a, n, d).Ok? ==> MulDiv(a, n, d).value == SafeMulDiv(U64, a, n, d).value
  {
    var r1, r2 := MulDiv(a, n, d), SafeMulDiv(U64, a, n, d);
    if r1.Ok? {
      FloorUnique(a * n, d, r1.value, r2.value);
    }
  }

  /** Two quotients that both satisfy the floor bounds are equal. */
  lemma FloorUnique(n: nat, d: nat, q1: nat, q2: nat)
    requires q1 * d <= n < (q1 + 1) * d
    requires q2 * d <= n < (q2 + 1) * d
    ensures q1 == q2
  {
    if q1 < q2 {
      MulMono(q1 + 1, d, q2, d);
    } else if q2 < q1 {
      MulMono(q2 + 1, d, q1, d);
    }
  }
}

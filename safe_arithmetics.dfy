/** Checked fixed-width arithmetic: `safe_add/sub/mul/div` over u64, u128
    and U256, and the double-width `safe_mul_div` with its round-up variant.
    Machine integers are `nat`s kept within `Max(w)` by the `Fits` predicate. */
module SafeArithmetics {
  import opened Errors

  const TWO_64: nat := 0x1_0000_0000_0000_0000
  const TWO_128: nat := 0x1_0000_0000_0000_0000_0000_0000_0000_0000
  const TWO_192: nat := 0x1_0000_0000_0000_0000_0000_0000_0000_0000_0000_0000_0000_0000
  const TWO_256: nat := 0x1_0000_0000_0000_0000_0000_0000_0000_0000_0000_0000_0000_0000_0000_0000_0000_0000

  const U64_MAX: nat := TWO_64 - 1
  const U128_MAX: nat := TWO_128 - 1
  const U256_MAX: nat := TWO_256 - 1

  /** The unsigned widths the program computes in. */
  datatype Width = U64 | U128 | U256

  function Modulus(w: Width): nat
  {
    match w
    case U64 => TWO_64
    case U128 => TWO_128
    case U256 => TWO_256
  }

  function Max(w: Width): nat
  {
    Modulus(w) - 1
  }

  predicate Fits(w: Width, x: nat)
  {
    x <= Max(w)
  }

  /** The double width that `safe_mul_div` computes its product in. */
  function Wider(w: Width): Width
    requires w != U256
  {
    if w == U64 then U128 else U256
  }

  /** `checked_add`: the wrap-around sum, rejected when the addition carried out. */
  function SafeAdd(w: Width, x: nat, y: nat): (r: Result<nat>)
    requires Fits(w, x) && Fits(w, y)
    ensures r.Ok? <==> x + y <= Max(w)
    ensures r.Ok? ==> r.value == x + y
    ensures r.Err? ==> r.error == MathOverflowAdd
  {
    var wrapped := (x + y) % Modulus(w);
    if wrapped < x then Err(MathOverflowAdd) else Ok(wrapped)
  }

  /** `checked_sub`: no borrow below zero. */
  function SafeSub(w: Width, x: nat, y: nat): (r: Result<nat>)
    requires Fits(w, x) && Fits(w, y)
    ensures r.Ok? <==> y <= x
    ensures r.Ok? ==> r.value + y == x
    ensures r.Err? ==> r.error == MathOverflowSub
  {
    if x < y then Err(MathOverflowSub) else Ok(x - y)
  }

  /** `checked_mul`: the wrap-around product, rejected when dividing it back
      by one factor does not give the other one. */
  function SafeMul(w: Width, x: nat, y: nat): (r: Result<nat>)
    requires Fits(w, x) && Fits(w, y)
    ensures r.Ok? <==> x * y <= Max(w)
    ensures r.Ok? ==> r.value == x * y
    ensures r.Err? ==> r.error == MathOverflowMul
  {
    var wrapped := (x * y) % Modulus(w);
    WrappedProductCheck(x, y, Modulus(w));
    if x != 0 && wrapped / x != y then Err(MathOverflowMul) else Ok(wrapped)
  }

  /** `checked_div`: the floor quotient, absent for a zero divisor. */
  function SafeDiv(w: Width, x: nat, y: nat): (r: Result<nat>)
    requires Fits(w, x) && Fits(w, y)
    ensures r.Ok? <==> y != 0
    ensures r.Ok? ==> r.value * y <= x < (r.value + 1) * y
    ensures r.Err? ==> r.error == MathZeroDivision
  {
    if y == 0 then Err(MathZeroDivision) else Ok(x / y)
  }

  /** `try_into` a narrower width. */
  function TryInto(w: Width, x: nat): (r: Result<nat>)
    ensures r.Ok? <==> Fits(w, x)
    ensures r.Ok? ==> r.value == x
    ensures r.Err? ==> r.error == MathOverflowConversion
  {
    if x <= Max(w) then Ok(x) else Err(MathOverflowConversion)
  }

  /** The reference ceiling of `n / d`, defined without the `+ d - 1` offset. */
  function CeilDiv(n: nat, d: nat): nat
    requires d > 0
  {
    if n % d == 0 then n / d else n / d + 1
  }

  /** The error a failing mul-div reports: a zero divisor is reported as a
      division by zero, except when rounding up a zero product, where the
      `- 1` of the offset underflows first; with a non-zero divisor the only
      failure is a quotient too wide for the result. */
  function MulDivFailure(d: nat, product: nat, isRound: bool): ErrorCode
  {
    if d > 0 then MathOverflowConversion
    else if isRound && product == 0 then MathOverflowSub
    else MathZeroDivision
  }

  /** `safe_mul_div_is_round`: `x * m` in the wider width, plus `d - 1` when
      rounding up, divided by `d`, converted back to `w`. */
  function SafeMulDivIsRound(w: Width, x: nat, m: nat, d: nat, isRound: bool): (r: Result<nat>)
    requires w != U256 && Fits(w, x) && Fits(w, m) && Fits(w, d)
    ensures r.Ok? <==> d > 0 && (if isRound then CeilDiv(x * m, d) else x * m / d) <= Max(w)
    ensures r.Ok? ==> r.value == if isRound then CeilDiv(x * m, d) else x * m / d
    ensures r.Err? ==> r.error == MulDivFailure(d, x * m, isRound)
  {
    var wide := Wider(w);
    WideProductFits(w, x, m);
    // neither the product nor the offset can overflow the wider width
    var product := SafeMul(wide, x, m).value;
    var num :- if isRound then SafeSub(wide, SafeAdd(wide, product, d).value, 1) else Ok(product);
    var q :- SafeDiv(wide, num, d);
    CeilByOffset(product, d);
    TryInto(w, q)
  }

  /** `safe_mul_div`: floor of `x * m / d`. */
  function SafeMulDiv(w: Width, x: nat, m: nat, d: nat): (r: Result<nat>)
    requires w != U256 && Fits(w, x) && Fits(w, m) && Fits(w, d)
    ensures r.Ok? <==> d > 0 && x * m / d <= Max(w)
    ensures r.Ok? ==> r.value * d <= x * m < (r.value + 1) * d
    ensures r.Err? ==> r.error == MulDivFailure(d, x * m, false)
  {
    var r := SafeMulDivIsRound(w, x, m, d, false);
    if r.Ok? then FloorBounds(x * m, d); r else r
  }

  /** `safe_mul_div_round_up`: ceiling of `x * m / d`. */
  function SafeMulDivRoundUp(w: Width, x: nat, m: nat, d: nat): (r: Result<nat>)
    requires w != U256 && Fits(w, x) && Fits(w, m) && Fits(w, d)
    ensures r.Ok? <==> d > 0 && CeilDiv(x * m, d) <= Max(w)
    ensures r.Ok? ==> x * m <= r.value * d && (r.value == 0 || (r.value - 1) * d < x * m)
    ensures r.Err? ==> r.error == MulDivFailure(d, x * m, true)
  {
    var r := SafeMulDivIsRound(w, x, m, d, true);
    if r.Ok? then CeilBounds(x * m, d); r else r
  }

  // ---------------------------------------------------------------------
  // Properties

  /** Round-up is never below round-down, exceeds it by at most one, and
      equals it exactly when `d` divides `x * m`. */
  lemma RoundUpVersusRoundDown(w: Width, x: nat, m: nat, d: nat)
    requires w != U256 && Fits(w, x) && Fits(w, m) && Fits(w, d)
    requires SafeMulDivRoundUp(w, x, m, d).Ok?
    ensures SafeMulDiv(w, x, m, d).Ok?
    ensures var down, up := SafeMulDiv(w, x, m, d).value, SafeMulDivRoundUp(w, x, m, d).value;
      down <= up <= down + 1 && (up == down <==> (x * m) % d == 0)
  {
  }

  /** The unit tests of safe_arithmetics.rs. */
  lemma SafeMulDivExamples()
    ensures SafeMulDiv(U64, 11, 5, 4) == Ok(13) && SafeMulDivRoundUp(U64, 11, 5, 4) == Ok(14)
    ensures SafeMulDiv(U64, 56, 23, 3) == Ok(429) && SafeMulDivRoundUp(U64, 56, 23, 3) == Ok(430)
    ensures SafeMulDiv(U64, 8, 3, 2) == Ok(12) && SafeMulDivRoundUp(U64, 8, 3, 2) == Ok(12)
  {
  }

  // ---------------------------------------------------------------------
  // Arithmetic facts used above

  lemma MulMono(a: nat, b: nat, c: nat, e: nat)
    requires a <= c && b <= e
    ensures a * b <= c * e
  {
    calc {
      a * b;
    <= { assert a * b <= a * e by { assert a * (e - b) >= 0; } }
      a * e;
    <= { assert (c - a) * e >= 0; }
      c * e;
    }
  }

  /** A product of two `w` values, plus one more `w` value, fits the wider
      width: the multiplication and the round-up offset never overflow. */
  lemma WideProductFits(w: Width, x: nat, m: nat)
    requires w != U256 && Fits(w, x) && Fits(w, m)
    ensures x * m + Max(w) <= Max(Wider(w))
  {
    MulMono(x, m, Max(w), Max(w));
    if w == U64 {
      assert Max(U64) * Max(U64) + Max(U64) <= Max(U128);
    } else {
      assert Max(U128) * Max(U128) + Max(U128) <= Max(U256);
    }
  }

  lemma FloorBounds(n: nat, d: nat)
    requires d > 0
    ensures (n / d) * d <= n < (n / d + 1) * d
  {
  }

  lemma CeilBounds(n: nat, d: nat)
    requires d > 0
    ensures var c := CeilDiv(n, d); n <= c * d && (c == 0 || (c - 1) * d < n)
  {
  }

  /** Quotient and remainder are unique. */
  lemma DivUnique(n: nat, d: nat, q: nat, s: nat)
    requires d > 0 && s < d && n == q * d + s
    ensures n / d == q && n % d == s
  {
    var q0, s0 := n / d, n % d;
    assert n == q0 * d + s0;
    assert (q - q0) * d == s0 - s;
    if q > q0 {
      MulMono(1, d, q - q0, d);
    } else if q < q0 {
      MulMono(1, d, q0 - q, d);
    }
  }

  /** `(n + d - 1) / d` is the ceiling of `n / d`. */
  lemma CeilByOffset(n: nat, d: nat)
    requires d > 0
    ensures (n + d - 1) / d == CeilDiv(n, d)
  {
    var q, s := n / d, n % d;
    assert n == q * d + s;
    if s == 0 {
      DivUnique(n + d - 1, d, q, d - 1);
    } else {
      assert n + d - 1 == (q + 1) * d + (s - 1);
      DivUnique(n + d - 1, d, q + 1, s - 1);
    }
  }

  /** Dividing the wrap-around product by one factor recovers the other
      factor exactly when the product did not wrap. */
  lemma WrappedProductCheck(x: nat, y: nat, modulus: nat)
    requires 0 < modulus
    ensures x != 0 ==> (((x * y) % modulus) / x == y <==> x * y < modulus)
    ensures x * y < modulus ==> (x * y) % modulus == x * y
  {
    var n := x * y;
    var p := n % modulus;
    if n < modulus {
      DivUnique(n, modulus, 0, n);
      if x != 0 {
        DivUnique(n, x, y, 0);
      }
    } else if x != 0 {
      assert p < modulus <= n;
      var q := p / x;
      assert p == q * x + p % x;
    }
  }
}

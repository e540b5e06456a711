/** The strategy-token price: `total_tokens` shared among `minted_tokens`
    LP tokens, with conversions in both directions and a comparison by
    cross-multiplication. */
module LpPricing {
  import opened Errors
  import opened SafeArithmetics
  import opened MathMulDiv

  datatype LpPrice = LpPrice(totalTokens: nat, mintedTokens: nat) {
    /** Both fields are u64. */
    predicate Valid()
    {
      Fits(U64, totalTokens) && Fits(U64, mintedTokens)
    }
  }

  /** The price as a rational number, for a price with LP tokens minted. */
  function Price(p: LpPrice): real
    requires p.mintedTokens > 0
  {
    p.totalTokens as real / p.mintedTokens as real
  }

  /** `token_to_lp`: the identity before any LP token is minted, otherwise
      the floor of `amount * minted / total`. */
  function TokenToLp(p: LpPrice, amount: nat): (r: Result<nat>)
    requires p.Valid() && Fits(U64, amount)
    ensures p.mintedTokens == 0 ==> r == Ok(amount)
    ensures p.mintedTokens > 0 ==>
      (r.Ok? <==> p.totalTokens > 0 && amount * p.mintedTokens / p.totalTokens <= U64_MAX)
    ensures p.mintedTokens > 0 && r.Ok? ==>
      r.value * p.totalTokens <= amount * p.mintedTokens < (r.value + 1) * p.totalTokens
    ensures r.Err? ==> r.error == MathOverflow
  {
    if p.mintedTokens == 0 then Ok(amount)
    else MulDiv(amount, p.mintedTokens, p.totalTokens)
  }

  /** `lp_to_token`: the identity before any LP token is minted, otherwise
      the floor of `lp * total / minted`. */
  function LpToToken(p: LpPrice, lpAmount: nat): (r: Result<nat>)
    requires p.Valid() && Fits(U64, lpAmount)
    ensures p.mintedTokens == 0 ==> r == Ok(lpAmount)
    ensures p.mintedTokens > 0 ==> (r.Ok? <==> lpAmount * p.totalTokens / p.mintedTokens <= U64_MAX)
    ensures p.mintedTokens > 0 && r.Ok? ==>
      r.value * p.mintedTokens <= lpAmount * p.totalTokens < (r.value + 1) * p.mintedTokens
    ensures r.Err? ==> r.error == MathOverflow
  {
    if p.mintedTokens == 0 then Ok(lpAmount)
    else MulDiv(lpAmount, p.totalTokens, p.mintedTokens)
  }

  /** The `checked_mul(..).unwrap()` of two widened u64 values: it never panics. */
  function CrossProduct(a: nat, b: nat): (r: nat)
    requires Fits(U64, a) && Fits(U64, b)
    ensures Fits(U128, r) && r == a * b
  {
    WideProductFits(U64, a, b);
    SafeMul(U128, a, b).value
  }

  /** `PartialEq`: equal prices by cross-multiplication. */
  predicate Eq(p: LpPrice, q: LpPrice)
    requires p.Valid() && q.Valid()
  {
    CrossProduct(p.totalTokens, q.mintedTokens) == CrossProduct(q.totalTokens, p.mintedTokens)
  }

  datatype Ordering = Less | Equal | Greater

  /** `PartialOrd`: compares `total_p * minted_q` with `total_q * minted_p`;
      the u128 comparison always yields an ordering. */
  function Compare(p: LpPrice, q: LpPrice): Ordering
    requires p.Valid() && q.Valid()
  {
    var lhs := CrossProduct(p.totalTokens, q.mintedTokens);
    var rhs := CrossProduct(q.totalTokens, p.mintedTokens);
    if lhs < rhs then Less else if lhs == rhs then Equal else Greater
  }

  // ---------------------------------------------------------------------
  // Properties

  /** Converting tokens to LP tokens and back never yields more tokens than
      were put in, and the same holds starting from LP tokens: both
      directions round down. */
  lemma RoundTripNeverGains(p: LpPrice, amount: nat)
    requires p.Valid() && Fits(U64, amount)
    requires p.mintedTokens > 0 && p.totalTokens > 0
    ensures TokenToLp(p, amount).Ok? && LpToToken(p, TokenToLp(p, amount).value).Ok? ==>
      LpToToken(p, TokenToLp(p, amount).value).value <= amount
    ensures LpToToken(p, amount).Ok? && TokenToLp(p, LpToToken(p, amount).value).Ok? ==>
      TokenToLp(p, LpToToken(p, amount).value).value <= amount
  {
    var t, m := p.totalTokens, p.mintedTokens;
    var lp := TokenToLp(p, amount);
    if lp.Ok? && LpToToken(p, lp.value).Ok? {
      var back := LpToToken(p, lp.value).value;
      // back * m <= lp * t <= amount * m
      MulLeqCancel(back, amount, m);
    }
    var tk := LpToToken(p, amount);
    if tk.Ok? && TokenToLp(p, tk.value).Ok? {
      var back := TokenToLp(p, tk.value).value;
      MulLeqCancel(back, amount, t);
    }
  }

  lemma MulLeqCancel(x: nat, y: nat, k: nat)
    requires k > 0 && x * k <= y * k
    ensures x <= y
  {
    if x > y {
      MulMono(y + 1, k, x, k);
    }
  }

  /** Cross-multiplied equality is equality of the rational prices. */
  lemma EqIsSamePrice(p: LpPrice, q: LpPrice)
    requires p.Valid() && q.Valid() && p.mintedTokens > 0 && q.mintedTokens > 0
    ensures Eq(p, q) <==> Price(p) == Price(q)
    ensures Compare(p, q) == Equal <==> Price(p) == Price(q)
    ensures Compare(p, q) == Greater <==> Price(p) > Price(q)
    ensures Compare(p, q) == Less <==> Price(p) < Price(q)
  {
    var tp, mp, tq, mq := p.totalTokens as real, p.mintedTokens as real, q.totalTokens as real, q.mintedTokens as real;
    CastProduct(p.totalTokens, q.mintedTokens);
    CastProduct(q.totalTokens, p.mintedTokens);
    CrossMultiplication(tp, mp, tq, mq);
  }

  /** Comparing `a / b` with `c / d` for positive `b`, `d` is comparing
      `a·d` with `c·b`. */
  lemma CrossMultiplication(a: real, b: real, c: real, d: real)
    requires b > 0.0 && d > 0.0
    ensures a / b == c / d <==> a * d == c * b
    ensures a / b < c / d <==> a * d < c * b
  {
    var x, y := a / b, c / d;
    assert a == x * b && c == y * d;
    assert a * d == x * (b * d) && c * b == y * (b * d);
    var k := b * d;
    assert k > 0.0;
    if x < y {
      assert (y - x) * k > 0.0;
    } else if y < x {
      assert (x - y) * k > 0.0;
    }
  }

  lemma CastProduct(a: nat, b: nat)
    ensures (a * b) as real == a as real * b as real
  {
  }

  /** Price equality is transitive among prices with LP tokens minted. */
  lemma EqTransitive(p: LpPrice, q: LpPrice, s: LpPrice)
    requires p.Valid() && q.Valid() && s.Valid()
    requires p.mintedTokens > 0 && q.mintedTokens > 0 && s.mintedTokens > 0
    requires Eq(p, q) && Eq(q, s)
    ensures Eq(p, s)
  {
    EqIsSamePrice(p, q);
    EqIsSamePrice(q, s);
    EqIsSamePrice(p, s);
  }

  /** The unit test of lp_price.rs. */
  lemma LpPriceExamples()
    ensures Eq(LpPrice(10_000, 10_000), LpPrice(20_000, 20_000))
    ensures Compare(LpPrice(15_000, 10_000), LpPrice(10_000, 10_000)) == Greater
  {
  }
}

/** The charge for a usage, internal/pricing/pricing.go: two nested ceilings, clamping, and a floor of 1. */
module Charges {
  import opened Basics
  import opened Prices
  import opened PriceTable

  const MILLION: int := 1_000_000

  datatype Usage = Usage(prompt: int, completion: int, cached: int)

  datatype Fraction = Fraction(num: int, den: int)

  /** An exact rational; a finite float64 is one. */
  type Rat = f: Fraction | f.den > 0 witness Fraction(1, 1)

  /** The float64 markup. */
  datatype Markup = NaN | PosInf | NegInf | Finite(value: Rat)

  // ----- ceilings -----

  /** The least integer q with a <= q * b. */
  function CeilDiv(a: int, b: int): int
    requires b > 0
  {
    -((-a) / b)
  }

  lemma CeilDivBounds(a: int, b: int)
    requires b > 0
    ensures a <= CeilDiv(a, b) * b < a + b
  {
  }

  lemma CeilDivUnique(a: int, b: int, q: int)
    requires b > 0 && a <= q * b < a + b
    ensures q == CeilDiv(a, b)
  {
    DivModUnique(-a, b, -q, q * b - a);
  }

  /** CeilDiv is least: everything below it is too small. */
  lemma CeilDivLeast(a: int, b: int, q: int)
    requires b > 0 && a <= q * b
    ensures CeilDiv(a, b) <= q
  {
    var least := CeilDiv(a, b);
    CeilDivBounds(a, b);
    hide CeilDiv;
    assert (least - 1) * b == least * b - b;
    if q < least {
      MulMonotone(q, least - 1, b);
    }
  }

  /** ceilRat: truncated quotient, plus one when the (Euclidean) remainder is not zero. */
  function CeilRat(r: Rat): int {
    Quo(r.num, r.den) + if r.num % r.den != 0 then 1 else 0
  }

  /** It is the ceiling exactly when its argument is not negative, or is an integer; otherwise one too many. */
  lemma CeilRatExactly(r: Rat)
    ensures CeilRat(r) == CeilDiv(r.num, r.den) <==> r.num >= 0 || r.num % r.den == 0
    ensures CeilRat(r) == CeilDiv(r.num, r.den) + if r.num < 0 && r.num % r.den != 0 then 1 else 0
  {
    var q, e := r.num / r.den, r.num % r.den;
    assert r.num == q * r.den + e;
    if e == 0 {
      DivModUnique(-r.num, r.den, -q, 0);
    } else {
      assert (q + 1) * r.den == q * r.den + r.den;
      CeilDivUnique(r.num, r.den, q + 1);
    }
  }

  /** The result does not depend on whether the fraction is in lowest terms. */
  lemma CeilRatIgnoresCommonFactor(num: int, den: int, k: int)
    requires den > 0 && k > 0
    ensures den * k > 0 && CeilRat(Fraction(num * k, den * k)) == CeilRat(Fraction(num, den))
  {
    MulPositive(den, k);
    SignOfProduct(num, k);
    RemainderScales(num, den, k);
    CeilRatExactly(Fraction(num * k, den * k));
    CeilRatExactly(Fraction(num, den));
    hide CeilRat;
    CeilDivBounds(num, den);
    ScaleBounds(num, den, CeilDiv(num, den), k);
    CeilDivUnique(num * k, den * k, CeilDiv(num, den));
  }

  lemma SignOfProduct(a: int, k: int)
    requires k > 0
    ensures a * k >= 0 <==> a >= 0
  {
    if a >= 0 {
      MulNonNegative(a, k);
    } else {
      MulMonotone(a, -1, k);
    }
  }

  lemma RemainderScales(num: int, den: int, k: int)
    requires den > 0 && k > 0 && den * k > 0
    ensures num * k % (den * k) == 0 <==> num % den == 0
  {
    var q, r := num / den, num % den;
    assert num == q * den + r;
    assert num * k == q * (den * k) + r * k by {
      assert (q * den) * k == q * (den * k);
    }
    MulNonNegative(r, k);
    MulMonotone(r + 1, den, k);
    assert (r + 1) * k == r * k + k;
    DivModUnique(num * k, den * k, q, r * k);
    if r > 0 {
      MulPositive(r, k);
    }
  }

  lemma ScaleBounds(num: int, den: int, q: int, k: int)
    requires k > 0 && num <= q * den < num + den
    ensures num * k <= q * (den * k) < num * k + den * k
  {
    assert q * (den * k) == (q * den) * k;
    MulMonotone(num, q * den, k);
    MulMonotone(q * den + 1, num + den, k);
    assert (q * den + 1) * k == (q * den) * k + k && (num + den) * k == num * k + den * k;
  }

  lemma MulPositive(a: int, b: int)
    requires a > 0 && b > 0
    ensures a * b > 0
  {
  }

  // ----- the charge -----

  /** Negative counts bill as zero, and no more tokens bill as cached than were sent. */
  function BilledPrompt(u: Usage): nat {
    Max(u.prompt, 0)
  }

  function BilledCached(u: Usage): nat {
    Min(Max(u.cached, 0), BilledPrompt(u))
  }

  function BilledCompletion(u: Usage): nat {
    Max(u.completion, 0)
  }

  /** The exact price of a usage, in millionths of a micro-USD. */
  function Exact(p: CompiledPrice, u: Usage): int {
    (BilledPrompt(u) - BilledCached(u)) * p.input + BilledCached(u) * p.cachedInput + BilledCompletion(u) * p.output
  }

  function Multiplier(markup: Markup): Rat {
    match markup
    case Finite(r) => if r.num > 0 then r else Fraction(1, 1)
    case NaN => Fraction(1, 1)
    case PosInf => Fraction(1, 1)
    case NegInf => Fraction(1, 1)
  }

  predicate UsesTokens(u: Usage) {
    u.prompt > 0 || u.completion > 0
  }

  function MarkedUp(base: int, m: Rat): int {
    CeilRat(Fraction(base * m.num, m.den))
  }

  /** On amounts that are not negative the second rounding is the ceiling. */
  lemma MarkedUpCeiling(base: int, m: Rat)
    requires base >= 0 && m.num > 0
    ensures MarkedUp(base, m) == CeilDiv(base * m.num, m.den)
  {
    MulNonNegative(base, m.num);
    CeilRatExactly(Fraction(base * m.num, m.den));
  }

  /** A multiplier of one changes nothing, so the source may skip it. */
  lemma MarkedUpByOne(base: int, m: Rat)
    requires m.num == m.den
    ensures MarkedUp(base, m) == base
  {
    CeilRatExactly(Fraction(base * m.num, m.den));
    CeilDivUnique(base * m.num, m.den, base);
    DivModUnique(base * m.num, m.den, base, 0);
  }

  function RoundedCharge(exact: int, m: Rat): int {
    MarkedUp(CeilDiv(exact, MILLION), m)
  }

  /** The specification: round up, apply the multiplier, round up, and charge at least 1 for any tokens. */
  function Charge(p: CompiledPrice, u: Usage, m: Rat): int {
    var t := RoundedCharge(Exact(p, u), m);
    if t == 0 && UsesTokens(u) then 1 else t
  }

  lemma ExactNonNegative(p: CompiledPrice, u: Usage)
    requires NonNegativePrice(p)
    ensures Exact(p, u) >= 0
  {
    MulNonNegative(BilledPrompt(u) - BilledCached(u), p.input);
    MulNonNegative(BilledCached(u), p.cachedInput);
    MulNonNegative(BilledCompletion(u), p.output);
  }

  lemma CeilDivNonNegative(a: int, b: int)
    requires b > 0 && a >= 0
    ensures CeilDiv(a, b) >= 0
    ensures CeilDiv(a, b) == 0 <==> a == 0
  {
    CeilDivBounds(a, b);
    if CeilDiv(a, b) < 0 {
      MulMonotone(CeilDiv(a, b), -1, b);
    }
    if CeilDiv(a, b) > 0 {
      MulMonotone(1, CeilDiv(a, b), b);
    }
  }

  /** Adding 999,999 before an integer division by 10^6 rounds up. */
  method RoundUpToMicros(exact: int) returns (total: int)
    ensures total == CeilDiv(exact, MILLION)
  {
    total := exact + 999_999;
    total := total / 1_000_000;
    CeilDivUnique(exact, MILLION, total);
  }

  /** A positive finite markup; any other counts as 1. */
  predicate IsPositive(markup: Markup) {
    markup.Finite? && markup.value.num > 0
  }

  /** The markup step rounds the product with a positive finite markup up, and any other markup changes nothing. */
  lemma MarkedUpBounds(base: int, markup: Markup)
    ensures IsPositive(markup) && base >= 0 ==>
              var m, total := markup.value, MarkedUp(base, Multiplier(markup));
              base * m.num <= total * m.den < base * m.num + m.den
    ensures !IsPositive(markup) ==> MarkedUp(base, Multiplier(markup)) == base
  {
    var m := Multiplier(markup);
    if IsPositive(markup) && base >= 0 {
      MarkedUpCeiling(base, m);
      CeilDivBounds(base * m.num, m.den);
    } else if !IsPositive(markup) {
      assert m == Fraction(1, 1);
      MarkedUpByOne(base, m);
    }
    hide CeilDiv, MarkedUp;
  }

  /** The markup step: skipped for a markup of 1 or one that is not positive; an infinite one counts as 1. */
  method ApplyMarkup(base: int, markup: Markup) returns (total: int)
    ensures total == MarkedUp(base, Multiplier(markup))
    ensures IsPositive(markup) && base >= 0 ==>
              base * markup.value.num <= total * markup.value.den < base * markup.value.num + markup.value.den
    ensures !IsPositive(markup) ==> total == base
  {
    MarkedUpBounds(base, markup);
    hide CeilRat;
    total := base;
    if markup.PosInf? || (markup.Finite? && markup.value.num > 0 && markup.value.num != markup.value.den) {
      var markupRat := if markup.Finite? then markup.value else Fraction(1, 1);
      total := CeilRat(Fraction(total * markupRat.num, markupRat.den));
    } else {
      MarkedUpByOne(base, Multiplier(markup));
    }
  }

  /** The token counts times their prices, accumulated. */
  method AccumulatePrice(p: CompiledPrice, u: Usage) returns (total: int)
    ensures total == Exact(p, u)
  {
    var promptTokens := Max(u.prompt, 0);
    var cachedTokens := Min(Max(u.cached, 0), promptTokens);
    var uncachedTokens := promptTokens - cachedTokens;
    var input := uncachedTokens * p.input;
    var cachedInput := cachedTokens * p.cachedInput;
    var output := Max(u.completion, 0) * p.output;
    total := input + cachedInput;
    total := total + output;
  }

  /** Table.CostMicroUSDC computes the specified charge, for every table and every markup. */
  method CostMicroUSDC(t: Table, model: string, u: Usage, markup: Markup) returns (total: int)
    requires WellFormed(t)
    ensures total == Charge(PriceOf(t, model), u, Multiplier(markup))
    ensures NonNegativePrice(PriceOf(t, model)) ==>
              var m, exact := EffectiveMarkup(markup), Exact(PriceOf(t, model), u);
              && m.num * exact <= MILLION * m.den * total < m.num * exact + MILLION * (m.num + m.den)
              && (total == 0 <==> !UsesTokens(u))
  {
    EffectiveMarkupIsMultiplier(markup);
    var p := PriceFor(t, model);
    hide PriceOf, CeilDiv, Exact, Multiplier, MarkedUp, Charge, RoundedCharge, NonNegativePrice, EffectiveMarkup;
    BoundsAtMarkup(p, u, markup);
    total := AccumulatePrice(p, u);
    total := RoundUpToMicros(total);
    total := ApplyMarkup(total, markup);
    ChargeOf(p, u, Multiplier(markup));
    if total == 0 && (u.prompt > 0 || u.completion > 0) {
      return 1;
    }
  }

  /** The markup itself where it is positive and finite, and 1 otherwise. */
  function EffectiveMarkup(markup: Markup): (m: Rat)
    ensures if IsPositive(markup) then m == markup.value else m == Fraction(1, 1)
  {
    if IsPositive(markup) then markup.value else Fraction(1, 1)
  }

  lemma EffectiveMarkupIsMultiplier(markup: Markup)
    ensures Multiplier(markup) == EffectiveMarkup(markup)
  {
  }

  lemma ChargeOf(p: CompiledPrice, u: Usage, m: Rat)
    ensures var t := MarkedUp(CeilDiv(Exact(p, u), MILLION), m);
            Charge(p, u, m) == if t == 0 && UsesTokens(u) then 1 else t
  {
  }

  lemma BoundsAtMarkup(p: CompiledPrice, u: Usage, markup: Markup)
    ensures NonNegativePrice(p) ==>
              var m, c := EffectiveMarkup(markup), Charge(p, u, Multiplier(markup));
              && m.num * Exact(p, u) <= MILLION * m.den * c < m.num * Exact(p, u) + MILLION * (m.num + m.den)
              && (c == 0 <==> !UsesTokens(u))
  {
    if NonNegativePrice(p) {
      SafeChargeBounds(p, u, Multiplier(markup));
      ChargeBounds(p, u, Multiplier(markup));
    }
    hide Charge, Exact;
  }

  /**
   * Negative counts bill as zero, and cached tokens beyond the prompt as prompt-sized: the charge sees nothing else.
   */
  lemma ChargeClamps(p: CompiledPrice, u: Usage, m: Rat)
    ensures var prompt := if u.prompt < 0 then 0 else u.prompt;
            var completion := if u.completion < 0 then 0 else u.completion;
            var cached := if u.cached < 0 then 0 else if u.cached > prompt then prompt else u.cached;
            && Exact(p, u) == (prompt - cached) * p.input + cached * p.cachedInput + completion * p.output
            && Charge(p, u, m) == Charge(p, Usage(prompt, completion, cached), m)
  {
  }

  // ----- how far the charge is from the exact price -----

  /** Both ceilings together: within one multiplied unit plus one of the exact multiplied price. */
  lemma RoundedChargeBounds(exact: int, m: Rat)
    requires exact >= 0 && m.num > 0
    ensures var t := RoundedCharge(exact, m);
            && m.num * exact <= MILLION * m.den * t < m.num * exact + MILLION * (m.num + m.den)
            && (t == 0 <==> exact == 0)
            && t >= 0
  {
    hide CeilDiv, MarkedUp;
    var base, t := CeilDiv(exact, MILLION), RoundedCharge(exact, m);
    CeilDivBounds(exact, MILLION);
    CeilDivNonNegative(exact, MILLION);
    MulNonNegative(base, m.num);
    CeilDivBounds(base * m.num, m.den);
    CeilDivNonNegative(base * m.num, m.den);
    MarkedUpCeiling(base, m);
    ChainBounds(exact, base, t, m);
    if base > 0 {
      MulPositive(base, m.num);
    }
  }

  lemma ChainBounds(exact: int, base: int, t: int, m: Rat)
    requires exact <= base * MILLION < exact + MILLION && m.num > 0
    requires base * m.num <= t * m.den < base * m.num + m.den
    ensures m.num * exact <= MILLION * m.den * t < m.num * exact + MILLION * (m.num + m.den)
  {
    var n, x, y := m.num, base * m.num, t * m.den;
    ChainFirst(exact, base, n);
    assert MILLION * m.den * t == MILLION * y by {
      MulReorder(m.den, t);
    }
  }

  lemma ChainFirst(exact: int, base: int, n: int)
    requires exact <= base * MILLION < exact + MILLION && n > 0
    ensures n * exact <= MILLION * (base * n) < n * exact + MILLION * n
  {
    MulMonotone(exact, base * MILLION, n);
    MulMonotone(base * MILLION + 1, exact + MILLION, n);
    assert (base * MILLION + 1) * n == MILLION * (base * n) + n;
  }

  lemma MulReorder(d: int, t: int)
    ensures MILLION * d * t == MILLION * (t * d)
  {
  }

  /**
   * The charge is at least the exact multiplied price, and less than one multiplied unit plus one above it. A price
   * that wrapped to a negative amount can cost up to two more: one because ceilRat is too high there, one because
   * a result of zero is raised to 1.
   */
  lemma ChargeBounds(p: CompiledPrice, u: Usage, m: Rat)
    requires m.num > 0
    ensures var c, exact := Charge(p, u, m), Exact(p, u);
            && m.num * exact <= MILLION * m.den * c
            && MILLION * m.den * c
               < m.num * exact + MILLION * (m.num + m.den) + (if exact < 0 then 2 * MILLION * m.den else 0)
            && (NonNegativePrice(p) ==> c >= 0 && (c == 0 <==> !UsesTokens(u)))
  {
    if NonNegativePrice(p) {
      ExactNonNegative(p, u);
    }
    if Exact(p, u) >= 0 {
      RoundedChargeBounds(Exact(p, u), m);
      hide RoundedCharge;
    } else {
      NegativeChargeBounds(Exact(p, u), Charge(p, u, m), m);
    }
  }

  lemma SafeChargeBounds(p: CompiledPrice, u: Usage, m: Rat)
    requires NonNegativePrice(p) && m.num > 0
    ensures m.num * Exact(p, u) <= MILLION * m.den * Charge(p, u, m) < m.num * Exact(p, u) + MILLION * (m.num + m.den)
  {
    ExactNonNegative(p, u);
    hide Exact, Charge;
    ChargeBounds(p, u, m);
  }

  lemma NegativeChargeBounds(exact: int, c: int, m: Rat)
    requires exact < 0 && m.num > 0
    requires c == RoundedCharge(exact, m) || (RoundedCharge(exact, m) == 0 && c == 1)
    ensures m.num * exact <= MILLION * m.den * c < m.num * exact + MILLION * (m.num + m.den) + 2 * MILLION * m.den
  {
    var base := CeilDiv(exact, MILLION);
    var least := CeilDiv(base * m.num, m.den);
    CeilDivBounds(exact, MILLION);
    CeilDivBounds(base * m.num, m.den);
    CeilRatExactly(Fraction(base * m.num, m.den));
    hide CeilDiv, CeilRat;
    ChainBounds(exact, base, least, m);
    assert least <= c <= least + 2;
    ScaleRange(m.den, least, c);
  }

  lemma ScaleRange(d: int, low: int, c: int)
    requires d > 0 && low <= c <= low + 2
    ensures MILLION * d * low <= MILLION * d * c <= MILLION * d * low + 2 * MILLION * d
  {
    var k := MILLION * d;
    assert c == low || c == low + 1 || c == low + 2;
  }

  /** No usage at any positive multiplier is charged below zero exactly when the price is not negative. */
  lemma NeverNegativeExactly(p: CompiledPrice)
    ensures (forall u, m: Rat :: m.num > 0 ==> Charge(p, u, m) >= 0) <==> NonNegativePrice(p)
  {
    if NonNegativePrice(p) {
      forall u, m: Rat | m.num > 0
        ensures Charge(p, u, m) >= 0
      {
        ChargeBounds(p, u, m);
      }
      hide Charge;
    } else {
      var u := if p.input < 0 then Usage(MILLION, 0, 0)
               else if p.output < 0 then Usage(0, MILLION, 0)
               else Usage(MILLION, 0, MILLION);
      var low := if p.input < 0 then p.input else if p.output < 0 then p.output else p.cachedInput;
      WholeCharge(p, u, low);
      hide Charge;
      assert Charge(p, u, Fraction(1, 1)) < 0;
    }
  }

  /** Without a markup, an exact price of `low` whole units is charged as it is. */
  lemma WholeCharge(p: CompiledPrice, u: Usage, low: int)
    requires Exact(p, u) == low * MILLION && low != 0
    ensures Charge(p, u, Fraction(1, 1)) == low
  {
    hide Exact;
    CeilDivUnique(low * MILLION, MILLION, low);
    MarkedUpByOne(low, Fraction(1, 1));
    hide CeilDiv, MarkedUp;
  }

  datatype Call = Call(price: CompiledPrice, usage: Usage)

  function TotalExact(calls: seq<Call>): int {
    if calls == [] then 0
    else TotalExact(calls[..|calls| - 1]) + Exact(calls[|calls| - 1].price, calls[|calls| - 1].usage)
  }

  function TotalCharge(calls: seq<Call>, m: Rat): int {
    if calls == [] then 0
    else TotalCharge(calls[..|calls| - 1], m) + Charge(calls[|calls| - 1].price, calls[|calls| - 1].usage, m)
  }

  /** The totals add up call by call. */
  lemma {:induction false} TotalsAdd(a: seq<Call>, b: seq<Call>, call: Call, m: Rat)
    ensures TotalExact(a + b) == TotalExact(a) + TotalExact(b)
    ensures TotalCharge(a + b, m) == TotalCharge(a, m) + TotalCharge(b, m)
    ensures TotalExact([call]) == Exact(call.price, call.usage)
    ensures TotalCharge([call], m) == Charge(call.price, call.usage, m)
  {
    hide Exact, Charge;
    assert [call][..0] == [];
    if b == [] {
      assert a + b == a;
    } else {
      var n := |b| - 1;
      assert (a + b)[..|a + b| - 1] == a + b[..n];
      TotalsAdd(a, b[..n], call, m);
    }
  }

  /**
   * Over any n >= 1 calls the charges sum to at least S and to less than S + n * (m + 1), where S is the
   * multiplier m times the exact unrounded price (all sides multiplied by 10^6 and the denominator of m).
   */
  lemma {:induction false} TotalChargeBounds(calls: seq<Call>, m: Rat)
    requires m.num > 0 && calls != []
    requires forall i :: 0 <= i < |calls| ==> NonNegativePrice(calls[i].price)
    ensures m.num * TotalExact(calls) <= MILLION * m.den * TotalCharge(calls, m)
    ensures MILLION * m.den * TotalCharge(calls, m)
            < m.num * TotalExact(calls) + |calls| * (MILLION * (m.num + m.den))
  {
    var n := |calls| - 1;
    var front, last := calls[..n], calls[n];
    var slack := MILLION * (m.num + m.den);
    var scale := MILLION * m.den;
    SafeChargeBounds(last.price, last.usage, m);
    if front != [] {
      TotalChargeBounds(front, m);
    }
    hide Charge, Exact, NonNegativePrice;
    SumScaled(m.num, TotalExact(front), Exact(last.price, last.usage));
    SumScaled(scale, TotalCharge(front, m), Charge(last.price, last.usage, m));
    SumScaled(slack, n, 1);
  }

  lemma SumScaled(k: int, a: int, b: int)
    ensures k * (a + b) == k * a + k * b
    ensures (a + b) * k == a * k + b * k
  {
  }

  // ----- monotonicity -----

  lemma CeilDivMonotone(a: int, b: int, d: int)
    requires d > 0 && a <= b
    ensures CeilDiv(a, d) <= CeilDiv(b, d)
  {
    CeilDivBounds(b, d);
    CeilDivLeast(a, d, CeilDiv(b, d));
  }

  lemma RoundedChargeMonotone(a: int, b: int, m: Rat)
    requires 0 <= a <= b && m.num > 0
    ensures RoundedCharge(a, m) <= RoundedCharge(b, m)
  {
    CeilDivMonotone(a, b, MILLION);
    CeilDivNonNegative(a, MILLION);
    MarkedUpCeiling(CeilDiv(a, MILLION), m);
    MarkedUpCeiling(CeilDiv(b, MILLION), m);
    hide CeilDiv, MarkedUp;
    MulMonotone(CeilDiv(a, MILLION), CeilDiv(b, MILLION), m.num);
    CeilDivMonotone(CeilDiv(a, MILLION) * m.num, CeilDiv(b, MILLION) * m.num, m.den);
  }

  /** More prompt or completion tokens never cost less. */
  lemma ChargeMonotoneInTokens(p: CompiledPrice, u: Usage, v: Usage, m: Rat)
    requires NonNegativePrice(p) && m.num > 0
    requires u.prompt <= v.prompt && u.completion <= v.completion && u.cached == v.cached
    ensures Charge(p, u, m) <= Charge(p, v, m)
  {
    var moreUncached := (BilledPrompt(v) - BilledCached(v)) - (BilledPrompt(u) - BilledCached(u));
    var moreCached := BilledCached(v) - BilledCached(u);
    var moreOutput := BilledCompletion(v) - BilledCompletion(u);
    MulNonNegative(moreUncached, p.input);
    MulNonNegative(moreCached, p.cachedInput);
    MulNonNegative(moreOutput, p.output);
    assert Exact(p, v) - Exact(p, u) == moreUncached * p.input + moreCached * p.cachedInput + moreOutput * p.output;
    ExactNonNegative(p, u);
    RoundedChargeMonotone(Exact(p, u), Exact(p, v), m);
    RoundedChargeBounds(Exact(p, u), m);
    RoundedChargeBounds(Exact(p, v), m);
  }

  /** A larger multiplier never costs less; `a <= b` as fractions. */
  lemma ChargeMonotoneInMarkup(p: CompiledPrice, u: Usage, a: Rat, b: Rat)
    requires NonNegativePrice(p) && a.num > 0 && b.num > 0 && a.num * b.den <= b.num * a.den
    ensures Charge(p, u, a) <= Charge(p, u, b)
  {
    ExactNonNegative(p, u);
    var base := CeilDiv(Exact(p, u), MILLION);
    CeilDivNonNegative(Exact(p, u), MILLION);
    MarkedUpCeiling(base, a);
    MarkedUpCeiling(base, b);
    hide CeilDiv, MarkedUp, Exact, NonNegativePrice;
    var q := CeilDiv(base * b.num, b.den);
    CeilDivBounds(base * b.num, b.den);
    ScaleComparison(base, q, a, b);
    CeilDivLeast(base * a.num, a.den, q);
    RoundedChargeBounds(Exact(p, u), a);
    RoundedChargeBounds(Exact(p, u), b);
  }

  lemma ScaleComparison(base: int, q: int, a: Rat, b: Rat)
    requires base >= 0 && base * b.num <= q * b.den && a.num * b.den <= b.num * a.den
    ensures base * a.num <= q * a.den
  {
    MulMonotone(a.num * b.den, b.num * a.den, base);
    MulMonotone(base * b.num, q * b.den, a.den);
    assert (a.num * b.den) * base == (base * a.num) * b.den;
    assert (b.num * a.den) * base == (base * b.num) * a.den;
    assert (q * b.den) * a.den == (q * a.den) * b.den;
    SumScaled(b.den, q * a.den, 1);
    if base * a.num > q * a.den {
      MulMonotone(q * a.den + 1, base * a.num, b.den);
    }
  }

  /** More cached tokens never cost more when the cached price is at most the input price. */
  lemma ChargeAntitoneInCached(p: CompiledPrice, u: Usage, v: Usage, m: Rat)
    requires NonNegativePrice(p) && p.cachedInput <= p.input && m.num > 0
    requires u.prompt == v.prompt && u.completion == v.completion && u.cached <= v.cached
    ensures Charge(p, v, m) <= Charge(p, u, m)
  {
    var moved := BilledCached(v) - BilledCached(u);
    MulMonotone(p.cachedInput, p.input, moved);
    assert Exact(p, u) - Exact(p, v) == moved * p.input - moved * p.cachedInput;
    ExactNonNegative(p, v);
    RoundedChargeMonotone(Exact(p, v), Exact(p, u), m);
    RoundedChargeBounds(Exact(p, v), m);
    RoundedChargeBounds(Exact(p, u), m);
  }

  // ----- splitting one call into two -----

  predicate Plausible(u: Usage) {
    0 <= u.cached <= u.prompt && u.completion >= 0
  }

  function Plus(u: Usage, v: Usage): Usage {
    Usage(u.prompt + v.prompt, u.completion + v.completion, u.cached + v.cached)
  }

  lemma ExactAdditive(p: CompiledPrice, u: Usage, v: Usage)
    requires Plausible(u) && Plausible(v)
    ensures Exact(p, Plus(u, v)) == Exact(p, u) + Exact(p, v)
  {
    SumScaled(p.input, u.prompt - u.cached, v.prompt - v.cached);
    SumScaled(p.cachedInput, u.cached, v.cached);
    SumScaled(p.output, u.completion, v.completion);
  }

  lemma CeilDivSubadditive(a: int, b: int, d: int)
    requires d > 0
    ensures CeilDiv(a + b, d) <= CeilDiv(a, d) + CeilDiv(b, d) <= CeilDiv(a + b, d) + 1
  {
    CeilDivBounds(a, d);
    CeilDivBounds(b, d);
    CeilDivBounds(a + b, d);
    var x, y, z := CeilDiv(a, d), CeilDiv(b, d), CeilDiv(a + b, d);
    hide CeilDiv;
    SumScaled(d, x, y);
    SumScaled(d, z, 2);
    CeilDivLeast(a + b, d, x + y);
    if x + y >= z + 2 {
      MulMonotone(z + 2, x + y, d);
    }
  }

  lemma RoundedChargeSplit(a: int, b: int, m: Rat)
    requires a >= 0 && b >= 0 && m.num > 0
    ensures var both := RoundedCharge(a + b, m);
            both <= RoundedCharge(a, m) + RoundedCharge(b, m) <= both + CeilDiv(m.num, m.den) + 1
  {
    var x, y, z := CeilDiv(a, MILLION), CeilDiv(b, MILLION), CeilDiv(a + b, MILLION);
    CeilDivSubadditive(a, b, MILLION);
    CeilDivNonNegative(a, MILLION);
    CeilDivNonNegative(b, MILLION);
    CeilDivNonNegative(a + b, MILLION);
    MarkedUpCeiling(x, m);
    MarkedUpCeiling(y, m);
    MarkedUpCeiling(z, m);
    hide CeilDiv, MarkedUp;
    CeilDivSubadditive(x * m.num, y * m.num, m.den);
    SumScaled(m.num, x, y);
    MulMonotone(z, x + y, m.num);
    CeilDivMonotone(z * m.num, (x + y) * m.num, m.den);
    MulMonotone(x + y, z + 1, m.num);
    SumScaled(m.num, z, 1);
    SharpSplit(x * m.num, y * m.num, z * m.num, m);
  }

  /** ceil(x) + ceil(y) < x + y + 2 <= z + m + 2 over the common denominator, hence at most ceil(z) + ceil(m) + 1. */
  lemma SharpSplit(x: int, y: int, z: int, m: Rat)
    requires x + y <= z + m.num
    ensures CeilDiv(x, m.den) + CeilDiv(y, m.den) <= CeilDiv(z, m.den) + CeilDiv(m.num, m.den) + 1
  {
    var d := m.den;
    CeilDivBounds(x, d);
    CeilDivBounds(y, d);
    CeilDivBounds(z, d);
    CeilDivBounds(m.num, d);
    hide CeilDiv;
    var left, right := CeilDiv(x, d) + CeilDiv(y, d), CeilDiv(z, d) + CeilDiv(m.num, d);
    SumScaled(d, CeilDiv(x, d), CeilDiv(y, d));
    SumScaled(d, CeilDiv(z, d), CeilDiv(m.num, d));
    SumScaled(d, right, 2);
    if left >= right + 2 {
      MulMonotone(right + 2, left, d);
    }
  }

  /** Splitting a usage never saves, and costs at most ceil(m) + 1 more. */
  lemma ChargeSplit(p: CompiledPrice, u: Usage, v: Usage, m: Rat)
    requires NonNegativePrice(p) && m.num > 0 && Plausible(u) && Plausible(v)
    ensures var whole := Charge(p, Plus(u, v), m);
            whole <= Charge(p, u, m) + Charge(p, v, m) <= whole + CeilDiv(m.num, m.den) + 1
  {
    ExactNonNegative(p, u);
    ExactNonNegative(p, v);
    ExactAdditive(p, u, v);
    RoundedChargeSplit(Exact(p, u), Exact(p, v), m);
    RoundedChargeBounds(Exact(p, u), m);
    RoundedChargeBounds(Exact(p, v), m);
    RoundedChargeBounds(Exact(p, Plus(u, v)), m);
    CeilDivNonNegative(m.num, m.den);
  }
}

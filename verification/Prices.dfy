/** The decimal price parser and the six-decimal printer of internal/pricing/pricing.go. */
module Prices {
  import opened Basics
  import opened Text

  const MICROS_PER_USD: int := 1_000_000

  /** Per-1M-token prices in USD, as text. */
  datatype ModelPrice = ModelPrice(input: string, output: string, cachedInput: string)

  /** Per-1M-token prices in micro-USD; int64 in the source. */
  datatype CompiledPrice = CompiledPrice(input: int, output: int, cachedInput: int)

  datatype PriceError = EmptyPrice | InvalidPrice | NegativePrice | TooPrecise | EmptyModel

  /** The exact value (-1)^negative * mantissa / 10^scale. */
  datatype DecimalNumber = DecimalNumber(negative: bool, mantissa: nat, scale: nat)

  function IndexOf(s: string, c: char): (i: nat)
    ensures i <= |s|
    ensures forall k :: 0 <= k < i ==> s[k] != c
    ensures i < |s| ==> s[i] == c
  {
    if s == "" || s[0] == c then 0 else 1 + IndexOf(s[1..], c)
  }

  function Unsigned(s: string): string {
    if s != "" && (s[0] == '-' || s[0] == '+') then s[1..] else s
  }

  function SplitAtPoint(body: string): (string, string) {
    var point := IndexOf(body, '.');
    (body[..point], if point < |body| then body[point + 1..] else "")
  }

  /** `big.Rat.SetString` on plain decimals: a sign, digits, and at most one point. */
  function ParseDecimal(s: string): Option<DecimalNumber> {
    var (whole, fraction) := SplitAtPoint(Unsigned(s));
    if whole + fraction == "" || !AllDigits(whole + fraction) then None
    else Some(DecimalNumber(s[0] == '-', DigitsValue(whole + fraction), |fraction|))
  }

  function ParseUSDToMicros(s: string): Result<int, PriceError> {
    var text := TrimSpace(s);
    if text == "" then Failure(EmptyPrice)
    else
      match ParseDecimal(text)
      case None => Failure(InvalidPrice)
      case Some(d) =>
        if d.negative && d.mantissa > 0 then Failure(NegativePrice)
        else if (d.mantissa * MICROS_PER_USD) % Pow10(d.scale) != 0 then Failure(TooPrecise)
        else Success(Int64(d.mantissa * MICROS_PER_USD / Pow10(d.scale)))
  }

  /** `FloatString(6)` of n / 10^6, shared by microsToUSD and USDCUnitsToUSD. */
  function SixDecimals(n: int): string {
    var magnitude: nat := if n < 0 then -n else n;
    assert Pow10(6) == 1_000_000;
    (if n < 0 then "-" else "") + Decimal(magnitude / 1_000_000) + "." + FixedDigits(magnitude % 1_000_000, 6)
  }

  function CompilePrice(p: ModelPrice): Result<CompiledPrice, PriceError> {
    var input :- ParseUSDToMicros(p.input);
    var output :- ParseUSDToMicros(p.output);
    if TrimSpace(p.cachedInput) != "" then
      var cached :- ParseUSDToMicros(p.cachedInput);
      Success(CompiledPrice(input, output, cached))
    else
      Success(CompiledPrice(input, output, input))
  }

  /**
   * Each price is read from its own text; a cached text of white space only stands for the input price. The first text
   * that does not parse, in the order input, output, cached, gives the error.
   */
  lemma CompiledFieldByField(p: ModelPrice)
    ensures var i, o, c := ParseUSDToMicros(p.input), ParseUSDToMicros(p.output), ParseUSDToMicros(p.cachedInput);
            var blank := AllSpace(p.cachedInput);
            && (forall compiled :: CompilePrice(p) == Success(compiled) <==>
                  && i == Success(compiled.input)
                  && o == Success(compiled.output)
                  && (if blank then compiled.cachedInput == compiled.input else c == Success(compiled.cachedInput)))
            && (forall e :: CompilePrice(p) == Failure(e) <==>
                  || i == Failure(e)
                  || (i.Success? && o == Failure(e))
                  || (i.Success? && o.Success? && !blank && c == Failure(e)))
  {
    BlankTrims(p.cachedInput);
    hide ParseUSDToMicros, TrimSpace, AllSpace;
  }

  lemma BlankTrims(s: string)
    ensures TrimSpace(s) == "" <==> AllSpace(s)
  {
    if AllSpace(s) {
      AllSpaceTrims(s);
    } else {
      var i :| 0 <= i < |s| && !IsSpace(s[i]);
      NotBlankLeft(s, i);
      var left := TrimLeft(s);
      var j :| 0 <= j < |left| && !IsSpace(left[j]);
      NotBlankRight(left, j);
    }
  }

  lemma {:induction false} NotBlankLeft(s: string, i: nat)
    requires i < |s| && !IsSpace(s[i])
    ensures exists j :: 0 <= j < |TrimLeft(s)| && !IsSpace(TrimLeft(s)[j])
  {
    if IsSpace(s[0]) {
      NotBlankLeft(s[1..], i - 1);
      assert TrimLeft(s) == TrimLeft(s[1..]);
    } else {
      assert TrimLeft(s)[i] == s[i];
    }
  }

  lemma {:induction false} NotBlankRight(s: string, i: nat)
    requires i < |s| && !IsSpace(s[i])
    ensures TrimRight(s) != ""
  {
    if IsSpace(s[|s| - 1]) {
      NotBlankRight(s[..|s| - 1], i);
    }
  }

  /** Printed prices compile to the amounts they were printed from, each in its own place. */
  lemma CompilePrinted(input: int, output: int, cached: int, blank: string)
    requires 0 <= input < TWO_63 && 0 <= output < TWO_63 && 0 <= cached < TWO_63 && AllSpace(blank)
    ensures CompilePrice(ModelPrice(SixDecimals(input), SixDecimals(output), SixDecimals(cached)))
            == Success(CompiledPrice(input, output, cached))
    ensures CompilePrice(ModelPrice(SixDecimals(input), SixDecimals(output), blank))
            == Success(CompiledPrice(input, output, input))
  {
    ParsePrinted(input);
    ParsePrinted(output);
    ParsePrinted(cached);
    PrintedNotBlank(cached);
    hide ParseUSDToMicros, SixDecimals, AllSpace;
    CompiledFieldByField(ModelPrice(SixDecimals(input), SixDecimals(output), SixDecimals(cached)));
    CompiledFieldByField(ModelPrice(SixDecimals(input), SixDecimals(output), blank));
  }

  lemma PrintedNotBlank(n: int)
    requires n >= 0
    ensures !AllSpace(SixDecimals(n))
  {
    var s := SixDecimals(n);
    assert Pow10(6) == 1_000_000;
    assert s == Decimal(n / 1_000_000) + "." + FixedDigits(n % 1_000_000, 6);
    assert s[0] == Decimal(n / 1_000_000)[0];
    assert IsDigit(s[0]);
  }

  /** Six decimals: a sign if negative, the whole part without needless zeros, a point, and exactly six digits. */
  lemma SixDecimalsShape(n: int)
    ensures var s := SixDecimals(n);
            var sign := if n < 0 then "-" else "";
            var whole := (if n < 0 then -n else n) / 1_000_000;
            && |s| == |sign| + |Decimal(whole)| + 7
            && s[..|sign|] == sign && s[|sign|..|s| - 7] == Decimal(whole)
            && s[|s| - 7] == '.' && AllDigits(s[|s| - 6..])
            && DigitsValue(s[|s| - 6..]) == (if n < 0 then -n else n) % 1_000_000
  {
    var magnitude: nat := if n < 0 then -n else n;
    assert Pow10(6) == 1_000_000;
    FixedDigitsValue(magnitude % 1_000_000, 6);
    var s, sign := SixDecimals(n), if n < 0 then "-" else "";
    var whole, fraction := Decimal(magnitude / 1_000_000), FixedDigits(magnitude % 1_000_000, 6);
    assert s == sign + whole + "." + fraction;
    hide SixDecimals, Decimal, FixedDigits, DigitsValue;
    assert s[|s| - 6..] == fraction;
  }

  // ----- what the parser accepts -----

  predicate IsSign(sign: string) {
    sign == "" || sign == "+" || sign == "-"
  }

  function Numeral(whole: string, point: bool, fraction: string): string {
    whole + if point then "." + fraction else ""
  }

  lemma SplitNumeral(whole: string, point: bool, fraction: string)
    requires AllDigits(whole) && (!point ==> fraction == "")
    ensures SplitAtPoint(Numeral(whole, point, fraction)) == (whole, fraction)
  {
    var s := Numeral(whole, point, fraction);
    var rest := if point then "." + fraction else "";
    assert forall k :: 0 <= k < |whole| ==> s[k] == whole[k];
    assert point ==> s[|whole|] == '.';
    assert IndexOf(s, '.') == |whole|;
    assert s[..|whole|] == whole;
    assert point ==> s[|whole| + 1..] == fraction;
  }

  /** A numeral written in the grammar is read as the number it denotes. */
  lemma ParseDecimalReads(sign: string, whole: string, point: bool, fraction: string)
    requires IsSign(sign) && AllDigits(whole) && AllDigits(fraction) && whole + fraction != ""
    requires !point ==> fraction == ""
    ensures AllDigits(whole + fraction)
    ensures ParseDecimal(sign + Numeral(whole, point, fraction)) ==
            Some(DecimalNumber(sign == "-", DigitsValue(whole + fraction), |fraction|))
  {
    var body := Numeral(whole, point, fraction);
    UnsignedStrips(sign, body);
    SplitNumeral(whole, point, fraction);
    DigitsValueAppendable(whole, fraction);
  }

  /** `s` is written in the grammar with these parts. */
  ghost predicate Written(s: string, sign: string, whole: string, point: bool, fraction: string) {
    && s == sign + Numeral(whole, point, fraction) && IsSign(sign)
    && AllDigits(whole) && AllDigits(fraction) && whole + fraction != "" && (!point ==> fraction == "")
  }

  /** Nothing but a numeral of the grammar is read as a number. */
  lemma ParsedIsNumeral(s: string)
    ensures ParseDecimal(s).Some? <==> exists sign, whole, point, fraction :: Written(s, sign, whole, point, fraction)
  {
    if ParseDecimal(s).Some? {
      NumeralParts(s);
    }
    if sign, whole, point, fraction :| Written(s, sign, whole, point, fraction) {
      ParseDecimalReads(sign, whole, point, fraction);
    }
  }

  lemma NumeralParts(s: string)
    requires ParseDecimal(s).Some?
    ensures exists sign, whole, point, fraction :: Written(s, sign, whole, point, fraction)
  {
    var body := Unsigned(s);
    var sign := SignOf(s);
    var (whole, fraction) := SplitAtPoint(body);
    BodyOf(body);
    DigitsOfParts(whole, fraction);
    var point := IndexOf(body, '.') < |body|;
    hide IndexOf, AllDigits, SplitAtPoint, Unsigned, Numeral, IsSign;
    assert Written(s, sign, whole, point, fraction);
  }

  lemma SignOf(s: string) returns (sign: string)
    ensures IsSign(sign) && s == sign + Unsigned(s)
  {
    sign := s[..|s| - |Unsigned(s)|];
    assert s == sign + Unsigned(s);
    if |Unsigned(s)| < |s| {
      assert sign == [s[0]];
    }
  }

  lemma BodyOf(body: string)
    ensures body == Numeral(SplitAtPoint(body).0, IndexOf(body, '.') < |body|, SplitAtPoint(body).1)
    ensures IndexOf(body, '.') == |body| ==> SplitAtPoint(body).1 == ""
  {
    hide IndexOf;
    var at := IndexOf(body, '.');
    if at < |body| {
      CutAt(body, at);
      assert [body[at]] == ".";
    } else {
      assert body[..at] == body;
      assert body + "" == body;
    }
  }

  lemma CutAt(body: string, at: nat)
    requires at < |body|
    ensures body == body[..at] + ([body[at]] + body[at + 1..])
  {
  }

  lemma DigitsOfParts(a: string, b: string)
    ensures AllDigits(a + b) <==> AllDigits(a) && AllDigits(b)
  {
    assert forall k :: 0 <= k < |a| ==> (a + b)[k] == a[k];
    assert forall k :: 0 <= k < |b| ==> (a + b)[|a| + k] == b[k];
  }

  lemma UnsignedStrips(sign: string, body: string)
    requires IsSign(sign) && body != "" && (body[0] == '.' || IsDigit(body[0]))
    ensures Unsigned(sign + body) == body && ((sign + body)[0] == '-' <==> sign == "-")
  {
    assert sign == "" ==> sign + body == body;
    assert sign != "" ==> (sign + body)[1..] == body;
  }

  /** Multiplying by 10^6 clears the point exactly when everything after the sixth decimal is zero. */
  lemma MicrosIntegral(whole: string, fraction: string)
    requires AllDigits(whole) && AllDigits(fraction)
    ensures AllDigits(whole + fraction)
    ensures (DigitsValue(whole + fraction) * MICROS_PER_USD) % Pow10(|fraction|) == 0
            <==> |fraction| <= 6 || AllZeros(fraction[6..])
    ensures |fraction| <= 6 ==>
              DigitsValue(whole + fraction) * MICROS_PER_USD / Pow10(|fraction|)
              == DigitsValue(whole + fraction) * Pow10(6 - |fraction|)
    ensures |fraction| > 6 && AllZeros(fraction[6..]) ==>
              DigitsValue(whole + fraction) * MICROS_PER_USD / Pow10(|fraction|) == DigitsValue(whole + fraction[..6])
  {
    var m := DigitsValue(whole + fraction);
    assert Pow10(6) == MICROS_PER_USD;
    if |fraction| <= 6 {
      var k: nat := 6 - |fraction|;
      Pow10Add(k, |fraction|);
      assert m * MICROS_PER_USD == (m * Pow10(k)) * Pow10(|fraction|);
      DivModUnique(m * MICROS_PER_USD, Pow10(|fraction|), m * Pow10(k), 0);
    } else {
      var head, tail := whole + fraction[..6], fraction[6..];
      assert whole + fraction == head + tail;
      DigitsValueAppend(head, tail);
      Pow10Add(6, |tail|);
      var h, t, p := DigitsValue(head), DigitsValue(tail), Pow10(|tail|);
      DigitsValueBound(tail);
      DigitsValueZero(tail);
      MicrosOfLongFraction(m, h, t, p);
    }
  }

  lemma MicrosOfLongFraction(m: int, h: int, t: int, p: int)
    requires 0 <= t < p && m == h * p + t
    ensures (m * MICROS_PER_USD) % (MICROS_PER_USD * p) == 0 <==> t == 0
    ensures (m * MICROS_PER_USD) / (MICROS_PER_USD * p) == h
  {
    assert h * (MICROS_PER_USD * p) == (h * p) * MICROS_PER_USD;
    DivModUnique(m * MICROS_PER_USD, MICROS_PER_USD * p, h, t * MICROS_PER_USD);
  }

  /** The micro-USD amount a numeral denotes: the whole part, then the first six decimals. */
  function MicrosOf(whole: string, fraction: string): nat
    requires AllDigits(whole) && AllDigits(fraction)
  {
    if |fraction| <= 6 then
      DigitsValueAppendable(whole, fraction); DigitsValue(whole + fraction) * Pow10(6 - |fraction|)
    else
      DigitsValueAppendable(whole, fraction[..6]); DigitsValue(whole + fraction[..6])
  }

  lemma DigitsValueAppendable(a: string, b: string)
    requires AllDigits(a) && AllDigits(b)
    ensures AllDigits(a + b)
  {
  }

  /**
   * The parser over every plain decimal, with any surrounding white space and any sign: it accepts
   * exactly when the value is not negative and no digit after the sixth decimal is set, and then
   * returns the amount, reduced to an int64.
   */
  lemma ParseAcceptsExactly(lead: string, sign: string, whole: string, point: bool, fraction: string, trail: string)
    requires AllSpace(lead) && AllSpace(trail) && IsSign(sign)
    requires AllDigits(whole) && AllDigits(fraction) && whole + fraction != "" && (!point ==> fraction == "")
    ensures AllDigits(whole + fraction)
    ensures var r := ParseUSDToMicros(lead + (sign + Numeral(whole, point, fraction)) + trail);
            var zero := AllZeros(whole + fraction);
            var fits := |fraction| <= 6 || AllZeros(fraction[6..]);
            && (r.Success? <==> (sign == "-" ==> zero) && fits)
            && (sign == "-" && !zero ==> r == Failure(NegativePrice))
            && ((sign == "-" ==> zero) && !fits ==> r == Failure(TooPrecise))
            && (r.Success? ==> r.value == Int64(MicrosOf(whole, fraction)))
            && (r.Success? ==> (r.value == MicrosOf(whole, fraction) <==> MicrosOf(whole, fraction) < TWO_63))
  {
    var numeral := sign + Numeral(whole, point, fraction);
    ParseDecimalReads(sign, whole, point, fraction);
    assert Trimmed(numeral) by {
      NumeralTrimmed(sign, whole, point, fraction);
    }
    TrimSpaceStrips(lead, numeral, trail);
    DigitsValueZero(whole + fraction);
    MicrosIntegral(whole, fraction);
    Int64Exact(MicrosOf(whole, fraction));
  }

  lemma NumeralTrimmed(sign: string, whole: string, point: bool, fraction: string)
    requires IsSign(sign) && AllDigits(whole) && AllDigits(fraction) && whole + fraction != ""
    requires !point ==> fraction == ""
    ensures var numeral := sign + Numeral(whole, point, fraction);
            numeral != "" && Trimmed(numeral)
  {
    var numeral := sign + Numeral(whole, point, fraction);
    forall i | 0 <= i < |numeral|
      ensures !IsSpace(numeral[i])
    {
      if i < |sign| {
        assert numeral[i] == sign[i];
      } else if i < |sign| + |whole| {
        assert numeral[i] == whole[i - |sign|];
      } else if i > |sign| + |whole| {
        assert numeral[i] == fraction[i - |sign| - |whole| - 1];
      }
    }
  }

  /** Parsing a printed amount gives it back exactly on the non-negative int64s; a larger one wraps. */
  lemma ParsePrinted(n: int)
    ensures ParseUSDToMicros(SixDecimals(n)) == Success(n) <==> 0 <= n < TWO_63
    ensures n >= 0 ==> ParseUSDToMicros(SixDecimals(n)) == Success(Int64(n))
    ensures n < 0 ==> ParseUSDToMicros(SixDecimals(n)) == Failure(NegativePrice)
  {
    var sign := if n < 0 then "-" else "";
    var whole, fraction := PrintedParts(n);
    ParseAcceptsExactly("", sign, whole, true, fraction, "");
    hide ParseUSDToMicros, SixDecimals, Int64, MicrosOf, AllZeros, Numeral;
    Int64Exact(if n < 0 then -n else n);
  }

  /** The printed text is a numeral with a point and six decimals that denotes the amount. */
  lemma PrintedParts(n: int) returns (whole: string, fraction: string)
    ensures AllDigits(whole) && AllDigits(fraction) && |fraction| == 6
    ensures SixDecimals(n) == "" + ((if n < 0 then "-" else "") + Numeral(whole, true, fraction)) + ""
    ensures MicrosOf(whole, fraction) == if n < 0 then -n else n
    ensures AllDigits(whole + fraction) && (AllZeros(whole + fraction) <==> n == 0)
  {
    var magnitude: nat := if n < 0 then -n else n;
    assert Pow10(6) == 1_000_000;
    whole, fraction := Decimal(magnitude / 1_000_000), FixedDigits(magnitude % 1_000_000, 6);
    hide Decimal, FixedDigits, DigitsValue, AllZeros, MicrosOf;
    PrintedValue(magnitude, whole, fraction);
  }

  lemma PrintedValue(n: nat, whole: string, fraction: string)
    requires 1_000_000 == Pow10(6)
    requires whole == Decimal(n / 1_000_000) && fraction == FixedDigits(n % 1_000_000, 6)
    ensures AllDigits(whole + fraction) && MicrosOf(whole, fraction) == n && (AllZeros(whole + fraction) <==> n == 0)
  {
    hide Decimal, FixedDigits, DigitsValue;
    DigitsValueAppend(whole, fraction);
    DecimalValue(n / 1_000_000);
    FixedDigitsValue(n % 1_000_000, 6);
    DigitsValueZero(whole + fraction);
    assert Pow10(0) == 1;
    hide AllZeros;
  }

  /**
   * Reprinting an accepted price and parsing it again gives the same result exactly when the amount, reduced to
   * 64 bits, is below 2^63; it is the amount that was written exactly when that is below 2^63 itself.
   */
  lemma ReprintKeepsValue(lead: string, sign: string, whole: string, point: bool, fraction: string, trail: string)
    requires AllSpace(lead) && AllSpace(trail) && IsSign(sign)
    requires AllDigits(whole) && AllDigits(fraction) && whole + fraction != "" && (!point ==> fraction == "")
    ensures var parsed := ParseUSDToMicros(lead + (sign + Numeral(whole, point, fraction)) + trail);
            parsed.Success? ==>
              && (ParseUSDToMicros(SixDecimals(parsed.value)) == parsed
                  <==> MicrosOf(whole, fraction) % TWO_64 < TWO_63)
              && (parsed.value == MicrosOf(whole, fraction) <==> MicrosOf(whole, fraction) < TWO_63)
  {
    ParseAcceptsExactly(lead, sign, whole, point, fraction, trail);
    hide ParseUSDToMicros, SixDecimals, MicrosOf;
    Int64NonNegative(MicrosOf(whole, fraction));
    Int64Exact(MicrosOf(whole, fraction));
    ParsePrinted(Int64(MicrosOf(whole, fraction)));
  }

  lemma Int64NonNegative(n: int)
    ensures Int64(n) >= 0 <==> n % TWO_64 < TWO_63
  {
  }

  // ----- prices that wrap -----

  /** The micro-USD amount an accepted text denotes, before the conversion to an int64. */
  function WrittenMicros(s: string): nat
    requires ParseUSDToMicros(s).Success?
  {
    var d := ParseDecimal(TrimSpace(s)).value;
    d.mantissa * MICROS_PER_USD / Pow10(d.scale)
  }

  /** The text's amount, reduced to 64 bits, has its sign bit clear. */
  predicate KeepsSign(s: string) {
    ParseUSDToMicros(s).Success? ==> WrittenMicros(s) % TWO_64 < TWO_63
  }

  lemma WrittenMicrosOf(lead: string, sign: string, whole: string, point: bool, fraction: string, trail: string)
    requires AllSpace(lead) && AllSpace(trail) && IsSign(sign)
    requires AllDigits(whole) && AllDigits(fraction) && whole + fraction != "" && (!point ==> fraction == "")
    requires ParseUSDToMicros(lead + (sign + Numeral(whole, point, fraction)) + trail).Success?
    ensures WrittenMicros(lead + (sign + Numeral(whole, point, fraction)) + trail) == MicrosOf(whole, fraction)
  {
    ParseAcceptsExactly(lead, sign, whole, point, fraction, trail);
    ParseDecimalReads(sign, whole, point, fraction);
    NumeralTrimmed(sign, whole, point, fraction);
    TrimSpaceStrips(lead, sign + Numeral(whole, point, fraction), trail);
    MicrosIntegral(whole, fraction);
  }

  predicate NonNegativePrice(p: CompiledPrice) {
    p.input >= 0 && p.output >= 0 && p.cachedInput >= 0
  }

  /** The texts of a price keep their signs; an absent cached price takes the input's. */
  predicate SafePrice(p: ModelPrice) {
    KeepsSign(p.input) && KeepsSign(p.output) && (TrimSpace(p.cachedInput) != "" ==> KeepsSign(p.cachedInput))
  }

  /** A compiled price is not negative exactly when none of its texts wraps to a negative amount. */
  lemma CompiledNonNegativeExactly(p: ModelPrice)
    requires CompilePrice(p).Success?
    ensures NonNegativePrice(CompilePrice(p).value) <==> SafePrice(p)
  {
    ParsedSign(p.input);
    ParsedSign(p.output);
    ParsedSign(p.cachedInput);
    hide ParseUSDToMicros, TrimSpace, KeepsSign;
  }

  lemma ParsedSign(s: string)
    ensures ParseUSDToMicros(s).Success? ==> (ParseUSDToMicros(s).value >= 0 <==> KeepsSign(s))
  {
    if ParseUSDToMicros(s).Success? {
      Int64NonNegative(WrittenMicros(s));
    }
  }

  /** Printing is injective: two amounts with the same text are the same amount. */
  lemma SixDecimalsInjective(a: int, b: int)
    requires 0 <= a < TWO_63 && 0 <= b < TWO_63 && SixDecimals(a) == SixDecimals(b)
    ensures a == b
  {
    ParsePrinted(a);
    ParsePrinted(b);
  }
}

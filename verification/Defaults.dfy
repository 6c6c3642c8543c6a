/** The built-in price list of internal/pricing/pricing.go. */
module Defaults {
  import opened Basics
  import opened Text
  import opened Prices
  import opened PriceTable

  function Entry(model: string, input: string, output: string): ModelPriceEntry {
    ModelPriceEntry(model, ModelPrice(input, output, ""), true)
  }

  /** DefaultEntries, in its order: sorted by model. */
  const DEFAULT_ENTRIES: seq<ModelPriceEntry> := [
    Entry("claude-haiku-4-5", "1.00", "5.00"),
    Entry("claude-haiku-4.5", "1.00", "5.00"),
    Entry("claude-opus-4", "15.00", "75.00"),
    Entry("claude-sonnet-4", "3.00", "15.00"),
    Entry("deepseek-chat", "0.27", "1.10"),
    Entry("deepseek-reasoner", "0.55", "2.19"),
    Entry("gpt-4.1", "2.00", "8.00"),
    Entry("gpt-4.1-mini", "0.40", "1.60"),
    Entry("gpt-4.1-nano", "0.10", "0.40"),
    Entry("gpt-4o", "2.50", "10.00"),
    Entry("gpt-4o-mini", "0.15", "0.60"),
    Entry("gpt-5", "1.25", "10.00"),
    Entry("gpt-5-mini", "0.25", "2.00"),
    Entry("gpt-5-nano", "0.05", "0.40"),
    ModelPriceEntry("gpt-5.5", ModelPrice("5.00", "30.00", "0.50"), true),
    Entry("gpt-5.5-pro", "30.00", "180.00")
  ]

  /** Only characters from '-' to '9' and from 'a' to 'z'. */
  predicate PlainName(s: string) {
    s != "" && forall i :: 0 <= i < |s| ==> '-' <= s[i] <= '9' || 'a' <= s[i] <= 'z'
  }

  /** Up to nine digits, a point, and two decimals. */
  predicate PlainPrice(s: string) {
    4 <= |s| <= 12 && s[|s| - 3] == '.' && forall i :: 0 <= i < |s| && i != |s| - 3 ==> IsDigit(s[i])
  }

  predicate PlainEntry(e: ModelPriceEntry) {
    && PlainName(e.model)
    && PlainPrice(e.price.input)
    && PlainPrice(e.price.output)
    && (e.price.cachedInput == "" || PlainPrice(e.price.cachedInput))
  }

  lemma PlainNameIsNormal(s: string)
    requires PlainName(s)
    ensures Normalize(s) == s
  {
    NormalizeFixpoint(s);
  }

  lemma PlainPriceParses(s: string)
    requires PlainPrice(s)
    ensures ParseUSDToMicros(s).Success? && ParseUSDToMicros(s).value >= 0
  {
    var k := |s| - 3;
    var whole, fraction := s[..k], s[k + 1..];
    assert s == "" + ("" + Numeral(whole, true, fraction)) + "";
    assert s[k] == '.' && AllDigits(whole) && AllDigits(fraction);
    hide PlainPrice, ParseUSDToMicros;
    ParseAcceptsExactly("", "", whole, true, fraction, "");
    SmallMicros(whole, fraction);
  }

  lemma SmallMicros(whole: string, fraction: string)
    requires AllDigits(whole) && AllDigits(fraction) && |whole| <= 9 && |fraction| == 2
    ensures MicrosOf(whole, fraction) < TWO_63
  {
    hide DigitsValue;
    DigitsValueBound(whole + fraction);
    Pow10Bound(|whole + fraction|, 11);
    assert Pow10(11) == 100_000_000_000 && Pow10(4) == 10_000;
  }

  lemma {:induction false} Pow10Bound(a: nat, b: nat)
    requires a <= b
    ensures Pow10(a) <= Pow10(b)
  {
    if a == b {
    } else {
      Pow10Bound(a, b - 1);
    }
  }

  /** The price compiles, and to amounts that are not negative. */
  predicate CompilesSafely(p: ModelPrice) {
    CompilePrice(p).Success? && NonNegativePrice(CompilePrice(p).value)
  }

  lemma PlainEntryCompiles(e: ModelPriceEntry)
    requires PlainEntry(e)
    ensures Normalize(e.model) == e.model != "" && CompilesSafely(e.price)
  {
    hide ParseUSDToMicros, PlainPrice, Normalize;
    PlainNameIsNormal(e.model);
    PlainPriceParses(e.price.input);
    PlainPriceParses(e.price.output);
    if e.price.cachedInput != "" {
      PlainPriceParses(e.price.cachedInput);
    }
  }

  lemma DefaultPriceCompiles()
    ensures CompilesSafely(FillDefault(DefaultPrice()))
  {
    hide ParseUSDToMicros;
    PlainPriceParses("5.00");
    PlainPriceParses("15.00");
  }

  lemma PlainEntries0()
    ensures PlainEntry(DEFAULT_ENTRIES[0]) && PlainEntry(DEFAULT_ENTRIES[1])
  {
  }

  lemma PlainEntries1()
    ensures PlainEntry(DEFAULT_ENTRIES[2]) && PlainEntry(DEFAULT_ENTRIES[3])
  {
  }

  lemma PlainEntries2()
    ensures PlainEntry(DEFAULT_ENTRIES[4]) && PlainEntry(DEFAULT_ENTRIES[5])
  {
  }

  lemma PlainEntries3()
    ensures PlainEntry(DEFAULT_ENTRIES[6]) && PlainEntry(DEFAULT_ENTRIES[7])
  {
  }

  lemma PlainEntries4()
    ensures PlainEntry(DEFAULT_ENTRIES[8]) && PlainEntry(DEFAULT_ENTRIES[9])
  {
  }

  lemma PlainEntries5()
    ensures PlainEntry(DEFAULT_ENTRIES[10]) && PlainEntry(DEFAULT_ENTRIES[11])
  {
  }

  lemma PlainEntries6()
    ensures PlainEntry(DEFAULT_ENTRIES[12]) && PlainEntry(DEFAULT_ENTRIES[13])
  {
  }

  lemma PlainEntries7()
    ensures PlainEntry(DEFAULT_ENTRIES[14]) && PlainEntry(DEFAULT_ENTRIES[15])
  {
  }

  lemma PlainEntries()
    ensures forall i :: 0 <= i < |DEFAULT_ENTRIES| ==> PlainEntry(DEFAULT_ENTRIES[i])
  {
    hide PlainEntry;
    PlainEntries0();
    PlainEntries1();
    PlainEntries2();
    PlainEntries3();
    PlainEntries4();
    PlainEntries5();
    PlainEntries6();
    PlainEntries7();
  }

  predicate DistinctModels(entries: seq<ModelPriceEntry>) {
    forall i, j :: 0 <= i < j < |entries| ==> entries[i].model != entries[j].model
  }

  /** The built-in names are normal forms, and the built-in prices compile to amounts that are not negative. */
  lemma DefaultsAreSound()
    ensures forall e :: e in DEFAULT_ENTRIES ==> Normalize(e.model) == e.model != "" && CompilesSafely(e.price)
  {
    hide PlainEntry;
    PlainEntries();
    forall e | e in DEFAULT_ENTRIES
      ensures Normalize(e.model) == e.model != "" && CompilesSafely(e.price)
    {
      var i :| 0 <= i < |DEFAULT_ENTRIES| && DEFAULT_ENTRIES[i] == e;
      PlainEntryCompiles(e);
    }
  }

  lemma AllDefaults()
    ensures forall i :: 0 <= i < |DEFAULT_ENTRIES| ==> DEFAULT_ENTRIES[i].isDefault
  {
  }

  lemma DefaultNamesDistinct()
    ensures DistinctModels(DEFAULT_ENTRIES)
  {
    forall i, j | 0 <= i < j < |DEFAULT_ENTRIES|
      ensures DEFAULT_ENTRIES[i].model != DEFAULT_ENTRIES[j].model
    {
    }
  }
}

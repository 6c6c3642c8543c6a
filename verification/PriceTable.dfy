/** The price table of internal/pricing/pricing.go: building it from a map, resolving a model, swapping it. */
module PriceTable {
  import opened Basics
  import opened Text
  import opened Prices

  /** `prefixes` lists the keys of `models`, the one with most bytes first; equal lengths come in any order. */
  datatype Table = Table(defaultPrice: CompiledPrice, models: map<string, CompiledPrice>, prefixes: seq<string>)

  datatype ModelPriceEntry = ModelPriceEntry(model: string, price: ModelPrice, isDefault: bool)

  function DefaultPrice(): ModelPrice {
    ModelPrice("5.00", "15.00", "")
  }

  /** NewTable's fallbacks for a missing default price. */
  function FillDefault(p: ModelPrice): ModelPrice {
    ModelPrice(if p.input == "" then "5" else p.input, if p.output == "" then "15" else p.output, p.cachedInput)
  }

  // ----- the rule: the longest configured prefix -----

  /** The longest prefix of `s` that is a key. */
  function LongestPrefix(keys: set<string>, s: string): Option<string> {
    if s in keys then Some(s)
    else if s == "" then None
    else LongestPrefix(keys, s[..|s| - 1])
  }

  function Resolve(models: map<string, CompiledPrice>, defaultPrice: CompiledPrice, name: string): CompiledPrice {
    LongestPrefixIsLongest(models.Keys, name);
    match LongestPrefix(models.Keys, name)
    case Some(key) => models[key]
    case None => defaultPrice
  }

  /** What the table charges for a model. */
  function PriceOf(t: Table, model: string): CompiledPrice {
    Resolve(t.models, t.defaultPrice, Normalize(model))
  }

  lemma {:induction false} LongestPrefixIsLongest(keys: set<string>, s: string)
    ensures var r := LongestPrefix(keys, s);
            && (r.Some? ==> r.value in keys && r.value <= s)
            && (forall key :: key in keys && key <= s ==> r.Some? && |key| <= |r.value|)
  {
    if s in keys || s == "" {
    } else {
      var shorter := s[..|s| - 1];
      LongestPrefixIsLongest(keys, shorter);
      forall key | key in keys && key <= s
        ensures key <= shorter
      {
        assert key == s[..|key|] && s == s[..|s|];
      }
    }
  }

  /** Any key with the two properties is the one chosen: equal-length prefixes of a string are equal. */
  lemma LongestPrefixUnique(keys: set<string>, s: string, key: string)
    requires key in keys && key <= s
    requires forall other :: other in keys && other <= s ==> |other| <= |key|
    ensures LongestPrefix(keys, s) == Some(key)
  {
    LongestPrefixIsLongest(keys, s);
    var longest := LongestPrefix(keys, s).value;
    assert key == s[..|key|] && longest == s[..|longest|];
  }

  /** `key` is the longest configured key that `name` starts with. */
  ghost predicate LongestKey(t: Table, name: string, key: string) {
    && key in t.models && key <= name
    && forall other :: other in t.models && other <= name ==> |other| <= |key|
  }

  /**
   * A model is charged the price of the longest configured key its normal form starts with, and the default price if
   * it starts with none; one of the two applies.
   */
  lemma PriceOfExactly(t: Table, model: string)
    ensures forall key :: LongestKey(t, Normalize(model), key) ==> PriceOf(t, model) == t.models[key]
    ensures (forall key :: key in t.models ==> !(key <= Normalize(model))) ==> PriceOf(t, model) == t.defaultPrice
    ensures (exists key :: LongestKey(t, Normalize(model), key))
            || forall key :: key in t.models ==> !(key <= Normalize(model))
  {
    hide Normalize;
    var name := Normalize(model);
    LongestPrefixIsLongest(t.models.Keys, name);
    var found := LongestPrefix(t.models.Keys, name);
    if found.Some? {
      assert LongestKey(t, name, found.value);
    }
    forall key | LongestKey(t, name, key)
      ensures PriceOf(t, model) == t.models[key]
    {
      LongestPrefixUnique(t.models.Keys, name, key);
    }
  }

  // ----- building a table -----

  predicate SortedByLength(keys: seq<string>) {
    forall i, j :: 0 <= i < j < |keys| ==> ByteLength(keys[i]) >= ByteLength(keys[j])
  }

  ghost predicate WellFormed(t: Table) {
    && SortedByLength(t.prefixes)
    && forall key :: key in t.prefixes <==> key in t.models
  }

  /** What NewTable finds wrong with one entry. */
  function EntryError(model: string, price: ModelPrice): Option<PriceError> {
    if Normalize(model) == "" then Some(EmptyModel)
    else
      match CompilePrice(price)
      case Success(_) => None
      case Failure(error) => Some(error)
  }

  /** The conditions under which NewTable returns no error. */
  ghost predicate Compilable(defaultPrice: ModelPrice, models: map<string, ModelPrice>) {
    && CompilePrice(FillDefault(defaultPrice)).Success?
    && forall model :: model in models ==> EntryError(model, models[model]).None?
  }

  /** Some name configured in `models` has normal form `key` and compiles to `price`. */
  ghost predicate Configures(models: map<string, ModelPrice>, key: string, price: CompiledPrice) {
    exists model :: model in models && Normalize(model) == key && CompilePrice(models[model]) == Success(price)
  }

  /** `t` is one of the tables NewTable may return; names with one normal form compete for its entry. */
  ghost predicate IsTableOf(t: Table, defaultPrice: ModelPrice, models: map<string, ModelPrice>) {
    && WellFormed(t)
    && CompilePrice(FillDefault(defaultPrice)) == Success(t.defaultPrice)
    && (forall model :: model in models ==> Normalize(model) in t.models)
    && (forall key :: key in t.models ==> key != "" && Configures(models, key, t.models[key]))
  }

  /** The texts of `price` are the amounts of `compiled`, each in its own place. */
  predicate ReadsAs(price: ModelPrice, compiled: CompiledPrice) {
    && ParseUSDToMicros(price.input) == Success(compiled.input)
    && ParseUSDToMicros(price.output) == Success(compiled.output)
    && if AllSpace(price.cachedInput) then compiled.cachedInput == compiled.input
       else ParseUSDToMicros(price.cachedInput) == Success(compiled.cachedInput)
  }

  /**
   * Every entry of a table is read, text by text, from some configured name with that normal form, every configured
   * name has an entry, and the default is read from the default texts or, where one is missing, from "5" and "15".
   */
  lemma TableReadsTexts(t: Table, defaultPrice: ModelPrice, models: map<string, ModelPrice>)
    requires IsTableOf(t, defaultPrice, models)
    ensures forall key :: key in t.models ==>
              exists model :: model in models && Normalize(model) == key && ReadsAs(models[model], t.models[key])
    ensures forall model :: model in models ==> Normalize(model) in t.models
    ensures defaultPrice.input != "" && defaultPrice.output != "" ==> ReadsAs(defaultPrice, t.defaultPrice)
    ensures defaultPrice.input == "" ==> ParseUSDToMicros("5") == Success(t.defaultPrice.input)
    ensures defaultPrice.output == "" ==> ParseUSDToMicros("15") == Success(t.defaultPrice.output)
  {
    CompiledFieldByField(FillDefault(defaultPrice));
    hide ParseUSDToMicros, Normalize, AllSpace, CompilePrice;
    forall key | key in t.models
      ensures exists model :: model in models && Normalize(model) == key && ReadsAs(models[model], t.models[key])
    {
      var model :| model in models && Normalize(model) == key && CompilePrice(models[model]) == Success(t.models[key]);
      CompiledFieldByField(models[model]);
    }
  }

  lemma LongestExists(keys: seq<string>) returns (i: nat)
    requires keys != []
    ensures i < |keys| && forall j :: 0 <= j < |keys| ==> ByteLength(keys[j]) <= ByteLength(keys[i])
  {
    if |keys| == 1 {
      i := 0;
    } else {
      var j := LongestExists(keys[1..]);
      assert forall k :: 1 <= k < |keys| ==> keys[k] == keys[1..][k - 1];
      i := if ByteLength(keys[0]) > ByteLength(keys[j + 1]) then 0 else j + 1;
    }
  }

  /** `keys` is `sorted` followed by some arrangement of `rest`, and no key of `rest` is longer. */
  ghost predicate PartlySorted(keys: seq<string>, sorted: seq<string>, rest: seq<string>) {
    && multiset(sorted) + multiset(rest) == multiset(keys)
    && SortedByLength(sorted)
    && forall i, j :: 0 <= i < |sorted| && 0 <= j < |rest| ==> ByteLength(sorted[i]) >= ByteLength(rest[j])
  }

  lemma MoveLongest(keys: seq<string>, sorted: seq<string>, rest: seq<string>, i: nat)
    requires PartlySorted(keys, sorted, rest) && i < |rest|
    requires forall j :: 0 <= j < |rest| ==> ByteLength(rest[j]) <= ByteLength(rest[i])
    ensures PartlySorted(keys, sorted + [rest[i]], rest[..i] + rest[i + 1..])
  {
    var rest' := rest[..i] + rest[i + 1..];
    assert rest == rest[..i] + [rest[i]] + rest[i + 1..];
    forall j | 0 <= j < |rest'|
      ensures rest'[j] in rest
    {
      assert rest'[j] == if j < i then rest[j] else rest[j + 1];
    }
  }

  lemma SameMembers(a: seq<string>, b: seq<string>)
    requires multiset(a) == multiset(b)
    ensures forall key :: key in a <==> key in b
  {
    assert forall key :: key in a <==> key in multiset(a);
    assert forall key :: key in b <==> key in multiset(b);
  }

  /** `sort.Slice` by descending byte length: any of the sorted permutations may come out. */
  method SortByLength(keys: seq<string>) returns (sorted: seq<string>)
    ensures multiset(sorted) == multiset(keys)
    ensures SortedByLength(sorted)
  {
    sorted := [];
    var rest := keys;
    while rest != []
      invariant PartlySorted(keys, sorted, rest)
      decreases |rest|
    {
      var longest := LongestExists(rest);
      assert 0 <= longest < |rest|;
      var i :| 0 <= i < |rest| && forall j :: 0 <= j < |rest| ==> ByteLength(rest[j]) <= ByteLength(rest[i]);
      MoveLongest(keys, sorted, rest, i);
      sorted, rest := sorted + [rest[i]], rest[..i] + rest[i + 1..];
    }
  }

  /** The loop of NewTable after the entries outside `rest` have been compiled. */
  ghost predicate CompiledSoFar(models: map<string, ModelPrice>, rest: set<string>,
                                compiled: map<string, CompiledPrice>, prefixes: seq<string>)
  {
    && rest <= models.Keys
    && (forall model :: model in models && model !in rest ==>
          EntryError(model, models[model]).None? && Normalize(model) in compiled)
    && (forall key :: key in compiled ==> key != "" && Configures(models, key, compiled[key]))
    && (forall key :: key in prefixes <==> key in compiled)
  }

  lemma CompileOneMore(models: map<string, ModelPrice>, rest: set<string>, compiled: map<string, CompiledPrice>,
                       prefixes: seq<string>, model: string, price: CompiledPrice)
    requires CompiledSoFar(models, rest, compiled, prefixes) && model in rest
    requires Normalize(model) != "" && CompilePrice(models[model]) == Success(price)
    ensures CompiledSoFar(models, rest - {model}, compiled[Normalize(model) := price], prefixes + [Normalize(model)])
  {
    hide CompilePrice, Normalize;
    assert Configures(models, Normalize(model), price);
  }

  /** The map is ranged over in any order; the first bad entry met decides the error. */
  method NewTable(defaultPrice: ModelPrice, models: map<string, ModelPrice>) returns (r: Result<Table, PriceError>)
    ensures r.Success? <==> Compilable(defaultPrice, models)
    ensures r.Success? ==> IsTableOf(r.value, defaultPrice, models)
    ensures r.Failure? ==>
              || CompilePrice(FillDefault(defaultPrice)) == Failure(r.error)
              || exists model :: model in models && EntryError(model, models[model]) == Some(r.error)
  {
    hide CompilePrice, Normalize;
    var filled := defaultPrice;
    if filled.input == "" {
      filled := filled.(input := "5");
    }
    if filled.output == "" {
      filled := filled.(output := "15");
    }
    var d := CompilePrice(filled);
    if d.Failure? {
      return Failure(d.error);
    }
    var compiled: map<string, CompiledPrice> := map[];
    var prefixes: seq<string> := [];
    var rest := models.Keys;
    while rest != {}
      invariant CompiledSoFar(models, rest, compiled, prefixes)
    {
      var model :| model in rest;
      var key := Normalize(model);
      if key == "" {
        assert EntryError(model, models[model]) == Some(EmptyModel);
        return Failure(EmptyModel);
      }
      var price := CompilePrice(models[model]);
      if price.Failure? {
        assert EntryError(model, models[model]) == Some(price.error);
        return Failure(price.error);
      }
      CompileOneMore(models, rest, compiled, prefixes, model, price.value);
      compiled := compiled[key := price.value];
      prefixes := prefixes + [key];
      rest := rest - {model};
    }
    var sorted := SortByLength(prefixes);
    SameMembers(sorted, prefixes);
    r := Success(Table(d.value, compiled, sorted));
  }

  /** Exact match first, then the first prefix in the list: the longest configured prefix either way. */
  method PriceFor(t: Table, model: string) returns (p: CompiledPrice)
    requires WellFormed(t)
    ensures p == PriceOf(t, model)
    ensures forall key :: LongestKey(t, Normalize(model), key) ==> p == t.models[key]
    ensures (forall key :: key in t.models ==> !(key <= Normalize(model))) ==> p == t.defaultPrice
  {
    PriceOfExactly(t, model);
    hide LongestKey, LongestPrefix, SortedByLength, Normalize;
    var key := Normalize(model);
    if key in t.models {
      LongestPrefixUnique(t.models.Keys, key, key);
      return t.models[key];
    }
    for i := 0 to |t.prefixes|
      invariant forall j :: 0 <= j < i ==> !(t.prefixes[j] <= key)
    {
      if t.prefixes[i] <= key {
        FirstPrefixIsLongest(t, key, i);
        return t.models[t.prefixes[i]];
      }
    }
    NoPrefix(t, key);
    return t.defaultPrice;
  }

  /** The first key in the list that the name starts with is the longest one. */
  lemma FirstPrefixIsLongest(t: Table, name: string, i: nat)
    requires WellFormed(t) && i < |t.prefixes| && t.prefixes[i] <= name
    requires forall j :: 0 <= j < i ==> !(t.prefixes[j] <= name)
    ensures LongestPrefix(t.models.Keys, name) == Some(t.prefixes[i])
  {
    hide LongestPrefix;
    forall other | other in t.models.Keys && other <= name
      ensures |other| <= |t.prefixes[i]|
    {
      assert other in t.prefixes;
      var j :| 0 <= j < |t.prefixes| && t.prefixes[j] == other;
      if |other| > |t.prefixes[i]| {
        assert t.prefixes[i] <= other;
        PrefixHasFewerBytes(t.prefixes[i], other);
      }
    }
    LongestPrefixUnique(t.models.Keys, name, t.prefixes[i]);
  }

  lemma NoPrefix(t: Table, name: string)
    requires WellFormed(t) && forall j :: 0 <= j < |t.prefixes| ==> !(t.prefixes[j] <= name)
    ensures LongestPrefix(t.models.Keys, name) == None
  {
    hide LongestPrefix, SortedByLength;
    LongestPrefixIsLongest(t.models.Keys, name);
    assert forall other :: other in t.models ==> other in t.prefixes;
  }

  // ----- independence of map order and of the unstable sort -----

  /** Names with the same normal form carry the same compiled price. */
  ghost predicate Agreeing(models: map<string, ModelPrice>) {
    forall a, b :: a in models && b in models && Normalize(a) == Normalize(b) ==>
      CompilePrice(models[a]) == CompilePrice(models[b])
  }

  /** All tables that NewTable may return for these prices charge every model alike. */
  ghost predicate OrderIrrelevant(defaultPrice: ModelPrice, models: map<string, ModelPrice>) {
    forall t, t', model :: IsTableOf(t, defaultPrice, models) && IsTableOf(t', defaultPrice, models) ==>
      PriceOf(t, model) == PriceOf(t', model)
  }

  lemma EntriesAgree(t: Table, t': Table, defaultPrice: ModelPrice, models: map<string, ModelPrice>, key: string)
    requires IsTableOf(t, defaultPrice, models) && IsTableOf(t', defaultPrice, models) && Agreeing(models)
    requires key in t.models
    ensures key in t'.models && t.models[key] == t'.models[key]
  {
    hide CompilePrice, Normalize, WellFormed, FillDefault;
    assert Configures(models, key, t.models[key]);
    assert key in t'.models;
    assert Configures(models, key, t'.models[key]);
  }

  lemma TablesAgree(t: Table, t': Table, defaultPrice: ModelPrice, models: map<string, ModelPrice>)
    requires IsTableOf(t, defaultPrice, models) && IsTableOf(t', defaultPrice, models) && Agreeing(models)
    ensures t.models == t'.models && t.defaultPrice == t'.defaultPrice
  {
    hide CompilePrice, FillDefault, Normalize, WellFormed, Configures;
    assert t.defaultPrice == t'.defaultPrice;
    hide IsTableOf, Agreeing;
    forall key | key in t.models
      ensures key in t'.models && t.models[key] == t'.models[key]
    {
      EntriesAgree(t, t', defaultPrice, models, key);
    }
    forall key | key in t'.models
      ensures key in t.models
    {
      EntriesAgree(t', t, defaultPrice, models, key);
    }
    assert t.models.Keys == t'.models.Keys;
  }

  lemma {:induction false} SortedListing(keys: set<string>) returns (list: seq<string>)
    ensures SortedByLength(list) && forall key :: key in list <==> key in keys
  {
    if keys == {} {
      list := [];
    } else {
      var longest := LongestIn(keys);
      var rest := SortedListing(keys - {longest});
      list := [longest] + rest;
      assert forall i :: 0 <= i < |rest| ==> rest[i] in keys;
    }
  }

  lemma LongestIn(keys: set<string>) returns (longest: string)
    requires keys != {}
    ensures longest in keys && forall key :: key in keys ==> ByteLength(key) <= ByteLength(longest)
  {
    var some :| some in keys;
    if keys == {some} {
      longest := some;
    } else {
      var other := LongestIn(keys - {some});
      longest := if ByteLength(some) > ByteLength(other) then some else other;
      assert forall key :: key in keys ==> key == some || key in keys - {some};
    }
  }

  /** A possible table in which the entry of `chosen`'s normal form is `chosen`'s own price. */
  lemma TableChoosing(defaultPrice: ModelPrice, models: map<string, ModelPrice>, chosen: string) returns (t: Table)
    requires Compilable(defaultPrice, models) && chosen in models
    ensures IsTableOf(t, defaultPrice, models)
    ensures CompilePrice(models[chosen]) == Success(PriceOf(t, chosen))
  {
    hide CompilePrice, Normalize;
    var keys := set model | model in models :: Normalize(model);
    var prefixes := SortedListing(keys);
    var prices := map key | key in keys ::
      if key == Normalize(chosen) then CompilePrice(models[chosen]).value
      else CompilePrice(models[AnyName(models, key)]).value;
    t := Table(CompilePrice(FillDefault(defaultPrice)).value, prices, prefixes);
    forall key | key in prices
      ensures key != "" && Configures(models, key, prices[key])
    {
      var model := if key == Normalize(chosen) then chosen else AnyName(models, key);
      assert model in models && Normalize(model) == key && CompilePrice(models[model]) == Success(prices[key]);
    }
    NormalizeIdempotent(chosen);
    LongestPrefixUnique(prices.Keys, Normalize(chosen), Normalize(chosen));
  }

  ghost function AnyName(models: map<string, ModelPrice>, key: string): (model: string)
    requires exists model :: model in models && Normalize(model) == key
    ensures model in models && Normalize(model) == key
  {
    var model :| model in models && Normalize(model) == key;
    model
  }

  /** Map order and sort order never matter exactly when colliding names carry one price. */
  lemma OrderIrrelevantExactly(defaultPrice: ModelPrice, models: map<string, ModelPrice>)
    requires Compilable(defaultPrice, models)
    ensures OrderIrrelevant(defaultPrice, models) <==> Agreeing(models)
  {
    if Agreeing(models) {
      forall t, t', model | IsTableOf(t, defaultPrice, models) && IsTableOf(t', defaultPrice, models)
        ensures PriceOf(t, model) == PriceOf(t', model)
      {
        TablesAgree(t, t', defaultPrice, models);
      }
    }
    if OrderIrrelevant(defaultPrice, models) {
      forall a, b | a in models && b in models && Normalize(a) == Normalize(b)
        ensures CompilePrice(models[a]) == CompilePrice(models[b])
      {
        var t := TableChoosing(defaultPrice, models, a);
        var t' := TableChoosing(defaultPrice, models, b);
        assert PriceOf(t, a) == PriceOf(t', a);
      }
    }
  }

  /** Keys already in normal form cannot collide. */
  lemma NormalKeysAgree(models: map<string, ModelPrice>)
    requires forall model :: model in models ==> Normalize(model) == model
    ensures Agreeing(models)
  {
  }
}

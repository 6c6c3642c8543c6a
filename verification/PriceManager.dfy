/** The shared, replaceable price table of internal/pricing/pricing.go. */
module PriceManager {
  import opened Basics
  import opened Prices
  import opened PriceTable
  import opened Charges
  import opened Defaults

  /** The map NewTableFromEntries builds: a later entry for the same model wins. */
  function ModelsOf(entries: seq<ModelPriceEntry>): (models: map<string, ModelPrice>)
    ensures forall model :: model in models ==> exists i :: 0 <= i < |entries| && entries[i].model == model
    ensures forall i :: 0 <= i < |entries| ==> entries[i].model in models
  {
    if entries == [] then map[]
    else
      var last := entries[|entries| - 1];
      ModelsOf(entries[..|entries| - 1])[last.model := last.price]
  }

  lemma {:induction false} ModelsOfDistinct(entries: seq<ModelPriceEntry>)
    requires DistinctModels(entries)
    ensures forall i :: 0 <= i < |entries| ==> ModelsOf(entries)[entries[i].model] == entries[i].price
  {
    if entries == [] {
    } else {
      ModelsOfDistinct(entries[..|entries| - 1]);
    }
  }

  /** Among entries for one model the last one counts. */
  lemma {:induction false} LastEntryCounts(entries: seq<ModelPriceEntry>, i: nat)
    requires i < |entries| && forall j :: i < j < |entries| ==> entries[j].model != entries[i].model
    ensures ModelsOf(entries)[entries[i].model] == entries[i].price
  {
    if i == |entries| - 1 {
    } else {
      LastEntryCounts(entries[..|entries| - 1], i);
    }
  }

  /** NewTableFromEntries. */
  method NewTableFromEntries(defaultPrice: ModelPrice, entries: seq<ModelPriceEntry>)
    returns (r: Result<Table, PriceError>)
    ensures r.Success? <==> Compilable(defaultPrice, ModelsOf(entries))
    ensures r.Success? ==> IsTableOf(r.value, defaultPrice, ModelsOf(entries))
  {
    var models: map<string, ModelPrice> := map[];
    for i := 0 to |entries|
      invariant models == ModelsOf(entries[..i])
    {
      assert entries[..i + 1][..i] == entries[..i];
      models := models[entries[i].model := entries[i].price];
    }
    assert entries[..|entries|] == entries;
    r := NewTable(defaultPrice, models);
  }

  lemma DefaultsCompilable()
    ensures Compilable(DefaultPrice(), ModelsOf(DEFAULT_ENTRIES))
  {
    DefaultPriceCompiles();
    DefaultsAreSound();
    DefaultNamesDistinct();
    ModelsOfDistinct(DEFAULT_ENTRIES);
    hide CompilePrice, FillDefault, DEFAULT_ENTRIES;
    forall model | model in ModelsOf(DEFAULT_ENTRIES)
      ensures EntryError(model, ModelsOf(DEFAULT_ENTRIES)[model]).None?
    {
      var i :| 0 <= i < |DEFAULT_ENTRIES| && DEFAULT_ENTRIES[i].model == model;
      assert DEFAULT_ENTRIES[i] in DEFAULT_ENTRIES;
    }
  }

  /** DefaultTable: its error, which the source ignores, cannot occur. */
  method DefaultTable() returns (t: Table)
    ensures IsTableOf(t, DefaultPrice(), ModelsOf(DEFAULT_ENTRIES))
  {
    DefaultsCompilable();
    hide Compilable, IsTableOf, ModelsOf, DEFAULT_ENTRIES;
    var r := NewTableFromEntries(DefaultPrice(), DEFAULT_ENTRIES);
    t := r.value;
  }

  class Manager {
    var table: Table

    ghost predicate Valid()
      reads this
    {
      WellFormed(table)
    }

    /** NewManager: a missing table means the built-in one. */
    constructor (t: Option<Table>)
      requires t.Some? ==> WellFormed(t.value)
      ensures Valid()
      ensures t.Some? ==> table == t.value
      ensures t.None? ==> IsTableOf(table, DefaultPrice(), ModelsOf(DEFAULT_ENTRIES))
    {
      hide Compilable, ModelsOf, DEFAULT_ENTRIES;
      if t.Some? {
        table := t.value;
      } else {
        var d := DefaultTable();
        table := d;
      }
    }

    /** A missing table is ignored. */
    method Replace(t: Option<Table>)
      requires Valid() && (t.Some? ==> WellFormed(t.value))
      modifies this
      ensures Valid()
      ensures table == if t.Some? then t.value else old(table)
    {
      if t.None? {
        return;
      }
      table := t.value;
    }

    method Cost(model: string, u: Usage, markup: Markup) returns (total: int)
      requires Valid()
      ensures total == Charge(PriceOf(table, model), u, Multiplier(markup))
    {
      total := CostMicroUSDC(table, model, u, markup);
    }

    /** PricesFor: the three prices, printed with six decimals. */
    method PricesFor(model: string) returns (inputPerM: string, cachedPerM: string, outputPerM: string)
      requires Valid()
      ensures var p := PriceOf(table, model);
              inputPerM == SixDecimals(p.input) && cachedPerM == SixDecimals(p.cachedInput)
              && outputPerM == SixDecimals(p.output)
    {
      var p := PriceFor(table, model);
      return SixDecimals(p.input), SixDecimals(p.cachedInput), SixDecimals(p.output);
    }
  }
}

/**
 * The model_prices table of internal/store/settings.go, keyed by model. Database errors are arguments:
 * `failAt` numbers the statement of a transaction (begin is 0) that fails, if any does.
 */
module PriceStore {
  import opened Basics
  import opened Text
  import opened Prices
  import opened PriceTable
  import opened Defaults
  import opened PriceManager

  datatype PriceRow = PriceRow(price: ModelPrice, isDefault: bool)

  type Rows = map<string, PriceRow>

  function RowOf(e: ModelPriceEntry): PriceRow {
    PriceRow(e.price, e.isDefault)
  }

  function EntryOf(model: string, row: PriceRow): ModelPriceEntry {
    ModelPriceEntry(model, row.price, row.isDefault)
  }

  /** The rows as a price map. */
  function ModelsIn(rows: Rows): map<string, ModelPrice> {
    map model | model in rows :: rows[model].price
  }

  /** INSERT ... ON CONFLICT DO NOTHING, entry by entry. */
  function InsertMissing(rows: Rows, entries: seq<ModelPriceEntry>): Rows {
    if entries == [] then rows
    else
      var last := entries[|entries| - 1];
      var before := InsertMissing(rows, entries[..|entries| - 1]);
      if last.model in before then before else before[last.model := RowOf(last)]
  }

  /** Some entry gives `model` this row. */
  ghost predicate Offers(entries: seq<ModelPriceEntry>, model: string, row: PriceRow) {
    exists i :: 0 <= i < |entries| && entries[i].model == model && HoldsEntry(row, entries[i])
  }

  /** The row has the entry's price and default flag. */
  predicate HoldsEntry(row: PriceRow, e: ModelPriceEntry) {
    row.price == e.price && row.isDefault == e.isDefault
  }

  lemma OffersMore(entries: seq<ModelPriceEntry>, n: nat, model: string, row: PriceRow)
    requires n <= |entries| && Offers(entries[..n], model, row)
    ensures Offers(entries, model, row)
  {
    var i :| 0 <= i < n && entries[..n][i].model == model && HoldsEntry(row, entries[..n][i]);
    assert entries[i].model == model;
  }

  lemma {:induction false} InsertMissingRows(rows: Rows, entries: seq<ModelPriceEntry>)
    ensures var after := InsertMissing(rows, entries);
            && (forall model :: model in rows ==> model in after && after[model] == rows[model])
            && (forall i :: 0 <= i < |entries| ==> entries[i].model in after)
            && (forall model :: model in after && model !in rows ==> Offers(entries, model, after[model]))
  {
    if entries == [] {
    } else {
      var n := |entries| - 1;
      InsertMissingRows(rows, entries[..n]);
      var before, after := InsertMissing(rows, entries[..n]), InsertMissing(rows, entries);
      assert Offers(entries, entries[n].model, RowOf(entries[n]));
      assert after == if entries[n].model in before then before else before[entries[n].model := RowOf(entries[n])];
      hide Offers, InsertMissing;
      assert forall i :: 0 <= i < n ==> entries[i] == entries[..n][i];
      forall model | model in after && model !in rows
        ensures Offers(entries, model, after[model])
      {
        if model in before {
          OffersMore(entries, n, model, after[model]);
        }
      }
    }
  }

  lemma {:induction false} InsertPresent(rows: Rows, entries: seq<ModelPriceEntry>)
    requires forall i :: 0 <= i < |entries| ==> entries[i].model in rows
    ensures InsertMissing(rows, entries) == rows
  {
    if entries == [] {
    } else {
      InsertPresent(rows, entries[..|entries| - 1]);
      assert entries[|entries| - 1].model in rows;
    }
  }

  /** Bootstrapping twice is bootstrapping once, and it never changes a row that was there. */
  lemma BootstrapIdempotent(rows: Rows, entries: seq<ModelPriceEntry>)
    ensures InsertMissing(InsertMissing(rows, entries), entries) == InsertMissing(rows, entries)
    ensures forall model :: model in rows ==>
              model in InsertMissing(rows, entries) && InsertMissing(rows, entries)[model] == rows[model]
  {
    InsertMissingRows(rows, entries);
    InsertPresent(InsertMissing(rows, entries), entries);
  }

  /** Bootstrapping changes nothing exactly when every entry's model already has a row. */
  lemma BootstrapKeepsRowsExactly(rows: Rows, entries: seq<ModelPriceEntry>)
    ensures InsertMissing(rows, entries) == rows <==> forall i :: 0 <= i < |entries| ==> entries[i].model in rows
  {
    InsertMissingRows(rows, entries);
    if forall i :: 0 <= i < |entries| ==> entries[i].model in rows {
      InsertPresent(rows, entries);
    }
  }

  /** With distinct models, inserting into an empty table stores exactly the given entries. */
  lemma InsertIntoEmpty(entries: seq<ModelPriceEntry>)
    requires DistinctModels(entries)
    ensures InsertMissing(map[], entries).Keys == ModelsOf(entries).Keys
    ensures forall i :: 0 <= i < |entries| ==>
              entries[i].model in InsertMissing(map[], entries)
              && HoldsEntry(InsertMissing(map[], entries)[entries[i].model], entries[i])
  {
    InsertMissingRows(map[], entries);
    forall i | 0 <= i < |entries|
      ensures HoldsEntry(InsertMissing(map[], entries)[entries[i].model], entries[i])
    {
      assert Offers(entries, entries[i].model, InsertMissing(map[], entries)[entries[i].model]);
    }
  }

  /** The next insert into a fresh table is a key violation exactly when its model occurred before. */
  lemma NextInsert(entries: seq<ModelPriceEntry>, i: nat)
    requires i < |entries| && DistinctModels(entries[..i])
    ensures var tx := InsertMissing(map[], entries[..i]);
            if entries[i].model in tx then !DistinctModels(entries)
            else DistinctModels(entries[..i + 1])
                 && InsertMissing(map[], entries[..i + 1]) == tx[entries[i].model := RowOf(entries[i])]
  {
    var front, model := entries[..i], entries[i].model;
    var tx := InsertMissing(map[], front);
    InsertMissingRows(map[], front);
    if model in tx {
      OffersMore(entries, i, model, tx[model]);
      var j :| 0 <= j < |front| && front[j].model == model;
      assert entries[j].model == model;
    } else {
      assert entries[..i + 1] == front + [entries[i]];
      assert (front + [entries[i]])[..i] == front;
      assert forall j :: 0 <= j < i ==> front[j].model in tx;
    }
  }

  /** What ListModelPrices may return: one entry for every row, and nothing else. */
  ghost predicate Lists(entries: seq<ModelPriceEntry>, rows: Rows) {
    && DistinctModels(entries)
    && (forall i :: 0 <= i < |entries| ==> entries[i].model in rows && HoldsEntry(rows[entries[i].model], entries[i]))
    && (forall model :: model in rows ==> exists i :: 0 <= i < |entries| && entries[i].model == model)
  }

  lemma ListedModels(entries: seq<ModelPriceEntry>, rows: Rows)
    requires Lists(entries, rows)
    ensures ModelsOf(entries) == ModelsIn(rows)
  {
    ModelsOfDistinct(entries);
    var models := ModelsOf(entries);
    assert models.Keys == ModelsIn(rows).Keys;
    forall model | model in models
      ensures models[model] == ModelsIn(rows)[model]
    {
      var i :| 0 <= i < |entries| && entries[i].model == model;
    }
  }

  predicate OrderedByModel(entries: seq<ModelPriceEntry>) {
    forall i, j :: 0 <= i < j < |entries| ==> Before(entries[i].model, entries[j].model)
  }

  lemma OrderedDistinct(entries: seq<ModelPriceEntry>)
    requires OrderedByModel(entries)
    ensures DistinctModels(entries)
  {
    hide Before;
    forall i, j | 0 <= i < j < |entries|
      ensures entries[i].model != entries[j].model
    {
      NotBeforeItself(entries[i].model);
    }
  }

  class PriceDb {
    var rows: Rows

    constructor ()
      ensures rows == map[]
    {
      rows := map[];
    }

    /** BootstrapDefaultPrices: one transaction, rolled back on any error. */
    method Bootstrap(entries: seq<ModelPriceEntry>, failAt: Option<nat>) returns (ok: bool)
      modifies this
      ensures ok <==> failAt.None? || failAt.value > |entries| + 1
      ensures rows == if ok then InsertMissing(old(rows), entries) else old(rows)
    {
      if failAt == Some(0) {
        return false;
      }
      var tx := rows;
      for i := 0 to |entries|
        invariant tx == InsertMissing(rows, entries[..i])
        invariant failAt.Some? ==> failAt.value > i
      {
        if failAt == Some(i + 1) {
          return false;
        }
        assert entries[..i + 1][..i] == entries[..i];
        if entries[i].model !in tx {
          tx := tx[entries[i].model := RowOf(entries[i])];
        }
      }
      if failAt == Some(|entries| + 1) {
        return false;
      }
      assert entries[..|entries|] == entries;
      rows := tx;
      return true;
    }

    /** ListModelPrices: every row once, ordered by model. */
    method List(fails: bool) returns (r: Option<seq<ModelPriceEntry>>)
      ensures r.None? <==> fails
      ensures r.Some? ==> Lists(r.value, rows) && OrderedByModel(r.value)
    {
      if fails {
        return None;
      }
      var out: seq<ModelPriceEntry> := [];
      var rest := rows.Keys;
      while rest != {}
        invariant rest <= rows.Keys
        invariant OrderedByModel(out)
        invariant forall i, key :: 0 <= i < |out| && key in rest ==> Before(out[i].model, key)
        invariant forall i :: 0 <= i < |out| ==> out[i].model in rows && HoldsEntry(rows[out[i].model], out[i])
        invariant forall model :: model in rows && model !in rest ==>
                    exists i :: 0 <= i < |out| && out[i].model == model
      {
        ghost var least := LeastExists(rest);
        var model :| model in rest && forall key :: key in rest ==> key == model || Before(model, key);
        ghost var before := out;
        out := out + [EntryOf(model, rows[model])];
        assert out[|before|].model == model;
        assert forall i :: 0 <= i < |before| ==> out[i] == before[i];
        rest := rest - {model};
      }
      OrderedDistinct(out);
      return Some(out);
    }

    /** UpsertModelPrice. */
    method Upsert(entry: ModelPriceEntry, fails: bool) returns (ok: bool)
      modifies this
      ensures ok <==> entry.model != "" && !fails
      ensures rows == if ok then old(rows)[entry.model := PriceRow(entry.price, entry.isDefault)] else old(rows)
    {
      if entry.model == "" || fails {
        return false;
      }
      rows := rows[entry.model := RowOf(entry)];
      return true;
    }

    /** DeleteModelPrice: deleting a model that has no row is not an error. */
    method Delete(model: string, fails: bool) returns (ok: bool)
      modifies this
      ensures ok <==> !fails
      ensures rows == if ok then old(rows) - {model} else old(rows)
    {
      if fails {
        return false;
      }
      rows := rows - {model};
      return true;
    }

    /** ReplaceModelPrices: one transaction; a repeated model violates the primary key and rolls back. */
    method Replace(entries: seq<ModelPriceEntry>, failAt: Option<nat>) returns (ok: bool)
      modifies this
      ensures ok <==> DistinctModels(entries) && (failAt.None? || failAt.value > |entries| + 2)
      ensures rows == if ok then InsertMissing(map[], entries) else old(rows)
      ensures ok ==> forall i :: 0 <= i < |entries| ==>
                entries[i].model in rows && HoldsEntry(rows[entries[i].model], entries[i])
      ensures ok ==> forall model :: model in rows ==> Offers(entries, model, rows[model])
    {
      if failAt == Some(0) || failAt == Some(1) {
        return false;
      }
      var tx: Rows := map[];
      for i := 0 to |entries|
        invariant tx == InsertMissing(map[], entries[..i])
        invariant DistinctModels(entries[..i])
        invariant failAt.Some? ==> failAt.value > i + 1
        invariant rows == old(rows)
      {
        if failAt == Some(i + 2) {
          return false;
        }
        NextInsert(entries, i);
        if entries[i].model in tx {
          return false;
        }
        tx := tx[entries[i].model := RowOf(entries[i])];
      }
      if failAt == Some(|entries| + 2) {
        return false;
      }
      assert entries[..|entries|] == entries;
      rows := tx;
      InsertIntoEmpty(entries);
      InsertMissingRows(map[], entries);
      hide DistinctModels, Offers, InsertMissing;
      return true;
    }
  }
}

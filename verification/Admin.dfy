/** The price administration of internal/handler/admin.go, with the start-up of cmd/server/main.go. */
module Admin {
  import opened Basics
  import opened Text
  import opened Prices
  import opened PriceTable
  import opened Defaults
  import opened PriceManager
  import opened PriceStore

  datatype Outcome = Ok | BadRequest | ServerError

  /** The stored rows and the in-memory table; no table while the server is down. */
  datatype AdminState = AdminState(rows: Rows, table: Option<Table>)

  /** One administrator request, or a restart, with the outside errors it meets. */
  datatype AdminOp =
    | Save(entry: ModelPriceEntry, writeFails: bool, listFails: bool)
    | Remove(model: string, writeFails: bool, listFails: bool)
    | Reset(failAt: Option<nat>, listFails: bool)
    | Restart(failAt: Option<nat>, laterFails: bool)

  /** reloadPrices: list the rows, compile them, replace the table; an error keeps the old table. */
  ghost predicate Reloaded(rows: Rows, listFails: bool, table: Option<Table>, table': Option<Table>, outcome: Outcome) {
    if listFails || !Compilable(DefaultPrice(), ModelsIn(rows)) then
      outcome == ServerError && table' == table
    else
      outcome == Ok && table'.Some? && IsTableOf(table'.value, DefaultPrice(), ModelsIn(rows))
  }

  predicate TransactionFails(failAt: Option<nat>, statements: nat) {
    failAt.Some? && failAt.value < statements
  }

  ghost predicate NextSave(s: AdminState, entry: ModelPriceEntry, writeFails: bool, listFails: bool, s': AdminState,
                           outcome: Outcome)
  {
    var model := Normalize(entry.model);
    if model == "" || !Compilable(DefaultPrice(), map[model := entry.price]) then
      outcome == BadRequest && s' == s
    else if writeFails then
      outcome == ServerError && s' == s
    else
      && s'.rows == s.rows[model := PriceRow(entry.price, false)]
      && Reloaded(s'.rows, listFails, s.table, s'.table, outcome)
  }

  ghost predicate NextRemove(s: AdminState, name: string, writeFails: bool, listFails: bool, s': AdminState,
                             outcome: Outcome)
  {
    var model := Normalize(name);
    if model == "" then
      outcome == BadRequest && s' == s
    else if writeFails then
      outcome == ServerError && s' == s
    else
      && s'.rows == s.rows - {model}
      && Reloaded(s'.rows, listFails, s.table, s'.table, outcome)
  }

  ghost predicate NextReset(s: AdminState, failAt: Option<nat>, listFails: bool, s': AdminState, outcome: Outcome) {
    if TransactionFails(failAt, |DEFAULT_ENTRIES| + 3) then
      outcome == ServerError && s' == s
    else
      && s'.rows == InsertMissing(map[], DEFAULT_ENTRIES)
      && Reloaded(s'.rows, listFails, s.table, s'.table, outcome)
  }

  /**
   * A failed start leaves the server down: on a failed bootstrap, or later, on settings that cannot be read, a settler
   * that cannot be built or rows that cannot be listed.
   */
  ghost predicate NextRestart(s: AdminState, failAt: Option<nat>, laterFails: bool, s': AdminState, outcome: Outcome) {
    if TransactionFails(failAt, |DEFAULT_ENTRIES| + 2) then
      outcome == ServerError && s' == AdminState(s.rows, None)
    else
      && s'.rows == InsertMissing(s.rows, DEFAULT_ENTRIES)
      && Reloaded(s'.rows, laterFails, None, s'.table, outcome)
  }

  ghost predicate Next(s: AdminState, op: AdminOp, s': AdminState, outcome: Outcome) {
    match op
    case Save(entry, writeFails, listFails) => s.table.Some? && NextSave(s, entry, writeFails, listFails, s', outcome)
    case Remove(model, writeFails, listFails) =>
      s.table.Some? && NextRemove(s, model, writeFails, listFails, s', outcome)
    case Reset(failAt, listFails) => s.table.Some? && NextReset(s, failAt, listFails, s', outcome)
    case Restart(failAt, laterFails) => NextRestart(s, failAt, laterFails, s', outcome)
  }

  // ----- the handlers -----

  class AdminHandler {
    const db: PriceDb
    const prices: Manager

    constructor (db: PriceDb, prices: Manager)
      ensures this.db == db && this.prices == prices
    {
      this.db := db;
      this.prices := prices;
    }

    ghost function State(): AdminState
      reads db, prices
    {
      AdminState(db.rows, Some(prices.table))
    }

    method ReloadPrices(listFails: bool) returns (ok: bool)
      requires prices.Valid()
      modifies prices
      ensures prices.Valid()
      ensures Reloaded(db.rows, listFails, Some(old(prices.table)), Some(prices.table), if ok then Ok else ServerError)
    {
      hide Compilable, DefaultPrice;
      var models := db.List(listFails);
      if models.None? {
        return false;
      }
      ListedModels(models.value, db.rows);
      hide Lists, ModelsOf, ModelsIn;
      var table := NewTableFromEntries(DefaultPrice(), models.value);
      if table.Failure? {
        return false;
      }
      prices.Replace(Some(table.value));
      return true;
    }

    method SavePrice(request: ModelPriceEntry, writeFails: bool, listFails: bool) returns (outcome: Outcome)
      requires prices.Valid()
      modifies db, prices
      ensures prices.Valid()
      ensures Next(old(State()), Save(request, writeFails, listFails), State(), outcome)
    {
      hide Compilable, DefaultPrice, Reloaded, Normalize;
      var req := request.(model := Normalize(request.model));
      if req.model == "" {
        return BadRequest;
      }
      var single := ModelsOf([req]);
      assert single == map[req.model := req.price] by {
        assert [req][..0] == [];
      }
      var compiled := NewTableFromEntries(DefaultPrice(), [req]);
      if compiled.Failure? {
        return BadRequest;
      }
      req := req.(isDefault := false);
      var ok := db.Upsert(req, writeFails);
      if !ok {
        return ServerError;
      }
      ok := ReloadPrices(listFails);
      return if ok then Ok else ServerError;
    }

    method DeletePrice(name: string, writeFails: bool, listFails: bool) returns (outcome: Outcome)
      requires prices.Valid()
      modifies db, prices
      ensures prices.Valid()
      ensures Next(old(State()), Remove(name, writeFails, listFails), State(), outcome)
    {
      hide Reloaded, Normalize;
      var model := Normalize(name);
      if model == "" {
        return BadRequest;
      }
      var ok := db.Delete(model, writeFails);
      if !ok {
        return ServerError;
      }
      ok := ReloadPrices(listFails);
      return if ok then Ok else ServerError;
    }

    method ResetPrices(failAt: Option<nat>, listFails: bool) returns (outcome: Outcome)
      requires prices.Valid()
      modifies db, prices
      ensures prices.Valid()
      ensures Next(old(State()), Reset(failAt, listFails), State(), outcome)
    {
      DefaultNamesDistinct();
      hide DEFAULT_ENTRIES, Reloaded, InsertMissing, DistinctModels;
      var ok := db.Replace(DEFAULT_ENTRIES, failAt);
      if !ok {
        return ServerError;
      }
      ok := ReloadPrices(listFails);
      return if ok then Ok else ServerError;
    }
  }

  /**
   * The start-up sequence of main: bootstrap, read the stored markup, build the settler, list, compile; the process
   * exits on any error.
   */
  method Start(db: PriceDb, failAt: Option<nat>, badMarkup: bool, badSettler: bool, listFails: bool,
               ghost before: Option<Table>)
    returns (outcome: Outcome, prices: Manager?)
    modifies db
    ensures prices != null ==> fresh(prices) && prices.Valid()
    ensures Next(AdminState(old(db.rows), before), Restart(failAt, badMarkup || badSettler || listFails),
                 AdminState(db.rows, if prices == null then None else Some(prices.table)), outcome)
  {
    hide Compilable, DefaultPrice, DEFAULT_ENTRIES, InsertMissing;
    var ok := db.Bootstrap(DEFAULT_ENTRIES, failAt);
    if !ok {
      return ServerError, null;
    }
    if badMarkup {
      return ServerError, null;
    }
    if badSettler {
      return ServerError, null;
    }
    var models := db.List(listFails);
    if models.None? {
      return ServerError, null;
    }
    ListedModels(models.value, db.rows);
    hide Lists, ModelsOf, ModelsIn;
    var table := NewTableFromEntries(DefaultPrice(), models.value);
    if table.Failure? {
      return ServerError, null;
    }
    prices := new Manager(Some(table.value));
    outcome := Ok;
  }

  // ----- what every operation keeps -----

  ghost predicate SoundRow(model: string, row: PriceRow) {
    Normalize(model) == model != "" && CompilePrice(row.price).Success?
  }

  /** Every stored key is a normal form, and every stored price compiles. */
  ghost predicate Sound(rows: Rows) {
    forall model :: model in rows ==> SoundRow(model, rows[model])
  }

  lemma SoundCompiles(rows: Rows)
    requires Sound(rows)
    ensures Compilable(DefaultPrice(), ModelsIn(rows))
    ensures Agreeing(ModelsIn(rows))
  {
    DefaultPriceCompiles();
    hide CompilePrice, FillDefault, Normalize;
    assert forall model :: model in ModelsIn(rows) ==> SoundRow(model, rows[model]);
  }

  lemma DefaultsSound(rows: Rows)
    requires Sound(rows)
    ensures Sound(InsertMissing(rows, DEFAULT_ENTRIES))
  {
    DefaultsAreSound();
    hide DEFAULT_ENTRIES, CompilePrice, Normalize;
    InsertMissingRows(rows, DEFAULT_ENTRIES);
    var after := InsertMissing(rows, DEFAULT_ENTRIES);
    forall model | model in after
      ensures SoundRow(model, after[model])
    {
      if model !in rows {
        var i :| 0 <= i < |DEFAULT_ENTRIES| && DEFAULT_ENTRIES[i].model == model
                 && HoldsEntry(after[model], DEFAULT_ENTRIES[i]);
        assert DEFAULT_ENTRIES[i] in DEFAULT_ENTRIES;
      } else {
        assert SoundRow(model, rows[model]);
      }
    }
  }

  /** The validation of SavePrice lets exactly the sound rows through. */
  lemma SaveAdmitsSoundRows(entry: ModelPriceEntry)
    ensures var model := Normalize(entry.model);
            model != "" && Compilable(DefaultPrice(), map[model := entry.price])
            <==> SoundRow(model, PriceRow(entry.price, false))
  {
    DefaultPriceCompiles();
    NormalizeIdempotent(entry.model);
    hide CompilePrice, FillDefault, Normalize;
    var model := Normalize(entry.model);
    assert model in map[model := entry.price];
  }

  /** Every operation, successful or not, keeps the rows sound. */
  lemma NextKeepsSound(s: AdminState, op: AdminOp, s': AdminState, outcome: Outcome)
    requires Next(s, op, s', outcome) && Sound(s.rows)
    ensures Sound(s'.rows)
  {
    hide DEFAULT_ENTRIES, Reloaded, SoundRow, Compilable, Normalize;
    match op {
      case Save(entry, _, _) =>
        SaveAdmitsSoundRows(entry);
      case Remove(_, _, _) =>
      case Reset(_, _) =>
        DefaultsSound(map[]);
      case Restart(_, _) =>
        DefaultsSound(s.rows);
    }
  }

  /** A request the handlers refuse before touching the database. */
  ghost predicate Refused(op: AdminOp) {
    match op
    case Save(entry, _, _) => !SoundRow(Normalize(entry.model), PriceRow(entry.price, false))
    case Remove(model, _, _) => Normalize(model) == ""
    case Reset(_, _) => false
    case Restart(_, _) => false
  }

  predicate OutsideFault(op: AdminOp) {
    match op
    case Save(_, writeFails, listFails) => writeFails || listFails
    case Remove(_, writeFails, listFails) => writeFails || listFails
    case Reset(failAt, listFails) => TransactionFails(failAt, |DEFAULT_ENTRIES| + 3) || listFails
    case Restart(failAt, laterFails) => TransactionFails(failAt, |DEFAULT_ENTRIES| + 2) || laterFails
  }

  /** The table charges every model as any fresh compile of the rows would. */
  ghost predicate InSync(s: AdminState) {
    && s.table.Some?
    && Compilable(DefaultPrice(), ModelsIn(s.rows))
    && forall t, model ::
         IsTableOf(t, DefaultPrice(), ModelsIn(s.rows)) ==> PriceOf(t, model) == PriceOf(s.table.value, model)
  }

  lemma FreshTableInSync(s: AdminState)
    requires Sound(s.rows) && s.table.Some? && IsTableOf(s.table.value, DefaultPrice(), ModelsIn(s.rows))
    ensures InSync(s)
  {
    SoundCompiles(s.rows);
    forall t, model | IsTableOf(t, DefaultPrice(), ModelsIn(s.rows))
      ensures PriceOf(t, model) == PriceOf(s.table.value, model)
    {
      TablesAgree(t, s.table.value, DefaultPrice(), ModelsIn(s.rows));
    }
  }

  /**
   * From sound rows an operation answers 400 exactly when it is refused, 500 exactly when it is not refused and
   * something outside fails (the database, or at a start the settings or the settler), and otherwise ok with a table
   * in step with the rows: compiling the stored rows is never the reason for an error.
   */
  lemma OutcomeExactly(s: AdminState, op: AdminOp, s': AdminState, outcome: Outcome)
    requires Next(s, op, s', outcome) && Sound(s.rows)
    ensures outcome == BadRequest <==> Refused(op)
    ensures outcome == ServerError <==> !Refused(op) && OutsideFault(op)
    ensures outcome == BadRequest ==> s' == s
    ensures outcome == Ok ==> InSync(s')
  {
    NextKeepsSound(s, op, s', outcome);
    SoundCompiles(s'.rows);
    if op.Save? {
      SaveAdmitsSoundRows(op.entry);
    }
    if outcome == Ok {
      OkLoadsRows(s, op, s');
      FreshTableInSync(s');
    }
    hide DEFAULT_ENTRIES, SoundRow, Compilable, Normalize, InSync, Sound, IsTableOf, InsertMissing, ModelsIn;
  }

  lemma OkLoadsRows(s: AdminState, op: AdminOp, s': AdminState)
    requires Next(s, op, s', Ok)
    ensures s'.table.Some? && IsTableOf(s'.table.value, DefaultPrice(), ModelsIn(s'.rows))
  {
    hide DEFAULT_ENTRIES, Compilable, Normalize, IsTableOf, InsertMissing, ModelsIn;
  }

  // ----- whole runs -----

  /** A sequential run from an empty store with the server down. */
  ghost predicate Run(states: seq<AdminState>, ops: seq<AdminOp>, outcomes: seq<Outcome>) {
    && |states| == |ops| + 1 && |outcomes| == |ops|
    && states[0] == AdminState(map[], None)
    && forall i :: 0 <= i < |ops| ==> Next(states[i], ops[i], states[i + 1], outcomes[i])
  }

  lemma {:induction false} RunKeepsSound(states: seq<AdminState>, ops: seq<AdminOp>, outcomes: seq<Outcome>, i: nat)
    requires Run(states, ops, outcomes) && i < |states|
    ensures Sound(states[i].rows)
  {
    if i == 0 {
    } else {
      RunKeepsSound(states, ops, outcomes, i - 1);
      NextKeepsSound(states[i - 1], ops[i - 1], states[i], outcomes[i - 1]);
    }
  }

  /** Over every run: stored rows stay sound, only outside faults make an operation fail, and ok means in step. */
  lemma RunsStayInSync(states: seq<AdminState>, ops: seq<AdminOp>, outcomes: seq<Outcome>)
    requires Run(states, ops, outcomes)
    ensures forall i :: 0 <= i < |states| ==> Sound(states[i].rows)
    ensures forall i :: 0 <= i < |ops| ==> (outcomes[i] == ServerError <==> !Refused(ops[i]) && OutsideFault(ops[i]))
    ensures forall i :: 0 <= i < |ops| && outcomes[i] == Ok ==> InSync(states[i + 1])
  {
    hide Sound, Next, Refused, OutsideFault, InSync;
    forall i | 0 <= i < |states|
      ensures Sound(states[i].rows)
    {
      RunKeepsSound(states, ops, outcomes, i);
    }
    forall i | 0 <= i < |ops|
      ensures outcomes[i] == ServerError <==> !Refused(ops[i]) && OutsideFault(ops[i])
      ensures outcomes[i] == Ok ==> InSync(states[i + 1])
    {
      OutcomeExactly(states[i], ops[i], states[i + 1], outcomes[i]);
    }
  }

  /** A saved price is charged at once for its own model, and for no model it is not a prefix of. */
  lemma SaveTakesEffect(s: AdminState, entry: ModelPriceEntry, s': AdminState, model: string)
    requires Sound(s.rows) && InSync(s) && Next(s, Save(entry, false, false), s', Ok)
    ensures CompilePrice(entry.price) == Success(PriceOf(s'.table.value, entry.model))
    ensures !(Normalize(entry.model) <= Normalize(model)) ==>
              PriceOf(s'.table.value, model) == PriceOf(s.table.value, model)
  {
    hide *;
    var op := Save(entry, false, false);
    NextKeepsSound(s, op, s', Ok);
    OkLoadsRows(s, op, s');
    SavedRows(s, entry, s');
    SavedEntry(s'.table.value, s'.rows, entry);
    if !(Normalize(entry.model) <= Normalize(model)) {
      SoundCompiles(s.rows);
      var t := AnyTable(s.rows);
      UnrelatedModelKept(t, s'.table.value, s.rows, s'.rows, Normalize(entry.model), model);
      InSyncAgrees(s, t, model);
    }
  }

  lemma InSyncAgrees(s: AdminState, t: Table, model: string)
    requires InSync(s) && IsTableOf(t, DefaultPrice(), ModelsIn(s.rows))
    ensures PriceOf(t, model) == PriceOf(s.table.value, model)
  {
    hide IsTableOf, PriceOf, Compilable;
  }

  lemma SavedRows(s: AdminState, entry: ModelPriceEntry, s': AdminState)
    requires Next(s, Save(entry, false, false), s', Ok)
    ensures s'.rows == s.rows[Normalize(entry.model) := PriceRow(entry.price, false)]
  {
    hide Normalize, Compilable, Reloaded;
  }

  lemma AnyTable(rows: Rows) returns (t: Table)
    requires Sound(rows) && Compilable(DefaultPrice(), ModelsIn(rows))
    ensures IsTableOf(t, DefaultPrice(), ModelsIn(rows))
  {
    hide CompilePrice, FillDefault, Normalize;
    var models := ModelsIn(rows);
    var prefixes := SortedListing(models.Keys);
    t := Table(CompilePrice(FillDefault(DefaultPrice())).value,
               map model | model in models :: CompilePrice(models[model]).value, prefixes);
    forall model | model in models
      ensures SoundRow(model, rows[model]) && Configures(models, model, t.models[model])
    {
      assert SoundRow(model, rows[model]);
      assert model in models && CompilePrice(models[model]) == Success(t.models[model]);
    }
  }

  lemma SavedEntry(t: Table, rows: Rows, entry: ModelPriceEntry)
    requires Sound(rows) && IsTableOf(t, DefaultPrice(), ModelsIn(rows))
    requires Normalize(entry.model) in rows && rows[Normalize(entry.model)].price == entry.price
    ensures CompilePrice(entry.price) == Success(PriceOf(t, entry.model))
  {
    var key := Normalize(entry.model);
    TableEntry(t, rows, key);
    LongestPrefixUnique(t.models.Keys, key, key);
    hide CompilePrice, Normalize;
  }

  /** In a table of sound rows each row has its own entry. */
  lemma TableEntry(t: Table, rows: Rows, key: string)
    requires Sound(rows) && IsTableOf(t, DefaultPrice(), ModelsIn(rows))
    ensures key in t.models <==> key in rows
    ensures key in rows ==> CompilePrice(rows[key].price) == Success(t.models[key])
  {
    hide CompilePrice, Normalize, WellFormed, FillDefault;
    if key in rows {
      assert SoundRow(key, rows[key]);
      assert key in ModelsIn(rows);
    }
    if key in t.models {
      assert Configures(ModelsIn(rows), key, t.models[key]);
      var model :| model in ModelsIn(rows) && Normalize(model) == key
                   && CompilePrice(ModelsIn(rows)[model]) == Success(t.models[key]);
      assert SoundRow(model, rows[model]);
    }
  }

  /** An entry that is not a prefix of a name has no say in what the name resolves to. */
  lemma ResolveIgnores(models: map<string, CompiledPrice>, models': map<string, CompiledPrice>,
                       defaultPrice: CompiledPrice, key: string, name: string)
    requires forall other :: other != key && other in models ==> other in models' && models'[other] == models[other]
    requires forall other :: other != key && other in models' ==> other in models
    requires !(key <= name)
    ensures Resolve(models, defaultPrice, name) == Resolve(models', defaultPrice, name)
  {
    LongestPrefixIsLongest(models.Keys, name);
    LongestPrefixIsLongest(models'.Keys, name);
    var longest := LongestPrefix(models.Keys, name);
    if longest.Some? {
      LongestPrefixUnique(models'.Keys, name, longest.value);
    }
  }

  lemma UnrelatedModelKept(t: Table, t': Table, rows: Rows, rows': Rows, key: string, model: string)
    requires Sound(rows) && IsTableOf(t, DefaultPrice(), ModelsIn(rows))
    requires Sound(rows') && IsTableOf(t', DefaultPrice(), ModelsIn(rows'))
    requires key in rows' && rows'.Keys == rows.Keys + {key} && !(key <= Normalize(model))
    requires forall other :: other in rows && other != key ==> rows'[other] == rows[other]
    ensures PriceOf(t, model) == PriceOf(t', model)
  {
    hide CompilePrice, Normalize, Sound, WellFormed, Resolve, ModelsIn, DefaultPrice, FillDefault;
    assert t.defaultPrice == t'.defaultPrice;
    hide IsTableOf;
    forall other | other != key
      ensures other in t.models <==> other in t'.models
      ensures other in t.models ==> t.models[other] == t'.models[other]
    {
      TableEntry(t, rows, other);
      TableEntry(t', rows', other);
    }
    ResolveIgnores(t.models, t'.models, t.defaultPrice, key, Normalize(model));
  }

  /** A restart keeps every row, adds exactly the missing built-in ones, and changes nothing iff none is missing. */
  lemma RestartKeepsRows(s: AdminState, failAt: Option<nat>, laterFails: bool, s': AdminState, outcome: Outcome)
    requires Next(s, Restart(failAt, laterFails), s', outcome)
    ensures forall model :: model in s.rows ==> model in s'.rows && s'.rows[model] == s.rows[model]
    ensures forall model :: model in s'.rows && model !in s.rows ==> Offers(DEFAULT_ENTRIES, model, s'.rows[model])
    ensures !TransactionFails(failAt, |DEFAULT_ENTRIES| + 2) ==>
              && (forall i :: 0 <= i < |DEFAULT_ENTRIES| ==> DEFAULT_ENTRIES[i].model in s'.rows)
              && (s'.rows == s.rows <==> forall i :: 0 <= i < |DEFAULT_ENTRIES| ==> DEFAULT_ENTRIES[i].model in s.rows)
  {
    hide DEFAULT_ENTRIES;
    InsertMissingRows(s.rows, DEFAULT_ENTRIES);
    BootstrapKeepsRowsExactly(s.rows, DEFAULT_ENTRIES);
    hide InsertMissing, Offers;
  }

  // ----- what the rows say is what is charged -----

  /** `key` is the longest stored key that `name` starts with. */
  ghost predicate LongestRow(rows: Rows, name: string, key: string) {
    && key in rows && key <= name
    && forall other :: other in rows && other <= name ==> |other| <= |key|
  }

  /**
   * The model is charged the price of the row with the longest key its normal form starts with, and the default price
   * if it starts with none.
   */
  ghost predicate ChargedByRows(s: AdminState, model: string) {
    && s.table.Some?
    && (forall key :: LongestRow(s.rows, Normalize(model), key) ==>
          CompilePrice(s.rows[key].price) == Success(PriceOf(s.table.value, model)))
    && ((forall key :: key in s.rows ==> !(key <= Normalize(model))) ==>
          CompilePrice(FillDefault(DefaultPrice())) == Success(PriceOf(s.table.value, model)))
  }

  lemma RowsDecide(s: AdminState, model: string)
    requires Sound(s.rows) && InSync(s)
    ensures ChargedByRows(s, model)
  {
    SoundCompiles(s.rows);
    var t := AnyTable(s.rows);
    hide CompilePrice, Normalize, Sound, InSync, Compilable, SoundRow, DefaultPrice, FillDefault;
    InSyncAgrees(s, t, model);
    PriceOfExactly(t, model);
    forall key
      ensures key in t.models <==> key in s.rows
      ensures key in s.rows ==> CompilePrice(s.rows[key].price) == Success(t.models[key])
    {
      TableEntry(t, s.rows, key);
    }
    TableExists(s);
    assert CompilePrice(FillDefault(DefaultPrice())) == Success(t.defaultPrice);
    hide IsTableOf, PriceOf, ModelsIn;
    forall key | LongestRow(s.rows, Normalize(model), key)
      ensures CompilePrice(s.rows[key].price) == Success(PriceOf(s.table.value, model))
    {
      assert LongestKey(t, Normalize(model), key);
    }
  }

  lemma TableExists(s: AdminState)
    requires InSync(s)
    ensures s.table.Some?
  {
  }

  /**
   * After an ok delete the model's row is gone, every other row is as it was, and every model is charged by the rows
   * that remain.
   */
  lemma RemoveTakesEffect(s: AdminState, name: string, s': AdminState, model: string)
    requires Sound(s.rows) && Next(s, Remove(name, false, false), s', Ok)
    ensures Normalize(name) !in s'.rows
    ensures forall other :: other != Normalize(name) ==>
              (other in s'.rows <==> other in s.rows) && (other in s.rows ==> s'.rows[other] == s.rows[other])
    ensures ChargedByRows(s', model)
  {
    var op := Remove(name, false, false);
    NextKeepsSound(s, op, s', Ok);
    OutcomeExactly(s, op, s', Ok);
    hide Reloaded, Normalize, Sound, InSync, ChargedByRows;
    RowsDecide(s', model);
  }

  /**
   * After an ok reset the stored rows are exactly the built-in ones, all marked as defaults, and every model is charged
   * by them.
   */
  lemma ResetTakesEffect(s: AdminState, failAt: Option<nat>, s': AdminState, model: string)
    requires Sound(s.rows) && Next(s, Reset(failAt, false), s', Ok)
    ensures forall i :: 0 <= i < |DEFAULT_ENTRIES| ==>
              var e := DEFAULT_ENTRIES[i]; e.model in s'.rows && s'.rows[e.model] == PriceRow(e.price, true)
    ensures forall key :: key in s'.rows ==> exists i :: 0 <= i < |DEFAULT_ENTRIES| && DEFAULT_ENTRIES[i].model == key
    ensures ChargedByRows(s', model)
  {
    var op := Reset(failAt, false);
    DefaultNamesDistinct();
    AllDefaults();
    hide DEFAULT_ENTRIES, Sound, InSync, Normalize, ChargedByRows, Reloaded, DistinctModels;
    NextKeepsSound(s, op, s', Ok);
    OutcomeExactly(s, op, s', Ok);
    InsertIntoEmpty(DEFAULT_ENTRIES);
    InsertMissingRows(map[], DEFAULT_ENTRIES);
    RowsDecide(s', model);
  }

  // ----- prices that wrap -----

  /**
   * A table of sound rows charges no model below zero exactly when no stored text wraps to a negative amount; a save
   * does not look at that.
   */
  lemma StoredPricesNeverNegativeExactly(rows: Rows, t: Table)
    requires Sound(rows) && IsTableOf(t, DefaultPrice(), ModelsIn(rows))
    ensures (forall model :: NonNegativePrice(PriceOf(t, model)))
            <==> (forall key :: key in rows ==> SafePrice(rows[key].price))
  {
    hide *;
    if forall model :: NonNegativePrice(PriceOf(t, model)) {
      forall key | key in rows
        ensures SafePrice(rows[key].price)
      {
        RowPrice(rows, t, key);
        assert NonNegativePrice(PriceOf(t, key));
      }
    }
    if forall key :: key in rows ==> SafePrice(rows[key].price) {
      forall model
        ensures NonNegativePrice(PriceOf(t, model))
      {
        SafeRowsSafe(rows, t, model);
      }
    }
  }

  lemma RowPrice(rows: Rows, t: Table, key: string)
    requires Sound(rows) && IsTableOf(t, DefaultPrice(), ModelsIn(rows)) && key in rows
    ensures NonNegativePrice(PriceOf(t, key)) <==> SafePrice(rows[key].price)
  {
    assert SoundRow(key, rows[key]);
    SavedEntry(t, rows, ModelPriceEntry(key, rows[key].price, false));
    hide PriceOf, NonNegativePrice, SafePrice, CompilePrice, IsTableOf, Sound;
    CompiledNonNegativeExactly(rows[key].price);
  }

  lemma SafeRowsSafe(rows: Rows, t: Table, model: string)
    requires Sound(rows) && IsTableOf(t, DefaultPrice(), ModelsIn(rows))
    requires forall key :: key in rows ==> SafePrice(rows[key].price)
    ensures NonNegativePrice(PriceOf(t, model))
  {
    hide CompilePrice, SafePrice, Sound, FillDefault, DefaultPrice, NonNegativePrice, Normalize;
    LongestPrefixIsLongest(t.models.Keys, Normalize(model));
    var found := LongestPrefix(t.models.Keys, Normalize(model));
    if found.Some? {
      TableEntry(t, rows, found.value);
      CompiledNonNegativeExactly(rows[found.value].price);
    } else {
      DefaultPriceCompiles();
    }
  }

  /**
   * Such a row can be saved: the six-decimal text of any amount from 2^63 to 2^64 - 1 is a sound price, and it is a
   * negative one.
   */
  lemma WrappingPriceIsSaved(model: string, n: int)
    requires Normalize(model) == model != "" && TWO_63 <= n < TWO_64
    ensures var text := SixDecimals(n);
            var row := PriceRow(ModelPrice(text, text, ""), false);
            && SoundRow(model, row)
            && CompilePrice(row.price) == Success(CompiledPrice(n - TWO_64, n - TWO_64, n - TWO_64))
  {
    ParsePrinted(n);
    hide ParseUSDToMicros, SixDecimals, Normalize;
    assert TrimSpace("") == "";
  }
}

# Verified model of the xPay relay

xPay puts a language-model API behind the x402 payment protocol. A first request is relayed upstream, its response is
priced and staged under a request id, and the client is answered 402 with the price. A second request carries a signed
payment; the server settles it on an EVM chain or on Solana, records it, drops the staged copy and delivers it.

This project models the logic of that server and proves what it keeps over all inputs and all runs:

- `Protocol.dfy`, `Guarantees.dfy`, `Settlements.dfy`: the payment protocol as a transition system, in which any number
  of payment handlers interleave with each other, with initial requests, with the cache sweeper and with the clock.
- `Relay.dfy`, `Cache.dfy`, `Payments.dfy`: the request handlers, the staged-response cache and the payments table as
  classes, the proof that a payment handler run alone is exactly its five protocol steps, and that a request settled
  within the time to live of its staging is served.
- `Charges.dfy`, `Prices.dfy`, `PriceTable.dfy`, `PriceManager.dfy`, `Defaults.dfy`, `Text.dfy`: prices as text and as
  micro-dollars, the longest-prefix table, and the charge with its two ceilings.
- `PriceStore.dfy`, `Admin.dfy`: the stored price rows, the administrator's requests and restarts, and the agreement of
  the table in memory with the rows.
- `Solana.dfy`, `SolanaBacking.dfy`: the transaction validator against a declarative specification and against a
  token-ledger interpreter, the confirmation loop, and what the deliveries of a protocol run settled over Solana are
  worth to the merchant.
- `Hex.dfy`, `Abi.dfy`, `Eip712.dfy`, `Evm.dfy`, `Eip3009.dfy`, `EvmBacking.dfy`: EIP-712 encoding by the test payer, the
  EVM settler's checks, what an accepted authorization does in an EIP-3009 token, when the test payer's payment is
  accepted, and what the settlements of a protocol run over EVM are worth to the merchant.
- `X402.dfy`: the wire constants, and the requirements either settler quotes.
- `Basics.dfy`: options, results, and Go's integer conversions.

## What the code does not guarantee

Where a property one might expect fails, the model keeps the code as it is, and lemmas say exactly when it holds.

- Settling once: in a run in which no two request ids clash, payment handlers of one request that do not overlap settle
  it at most once (`Settlements.NoOverlapSettlesOnce`). Whenever two of them overlap in a run, some prefix of that run can
  go on to settle it twice (`Settlements.OverlapCanSettleTwice`), and anything staged and unexpired can be settled twice
  (`Settlements.StagedCanSettleTwice`). A request id is a truncated hash, so clashes are possible; they clash exactly when
  the hash collides on two texts the run hashed (`Protocol.NoClashExactly`). What holds whatever the hash is stated without
  that condition.
- Recomputing the charge: the headers explain it at all non-negative prices and all markups exactly when the upstream
  reports no negative completion or cached count, and no more cached tokens than prompt tokens, a negative prompt counting
  as none (`Relay.HeadersExplainExactly`): the charge clamps the counts and the headers do not. For such a usage they
  explain it at a given price and all markups exactly when that price did not wrap to a negative one, whose printed text
  does not parse (`Relay.HeadersExplainPricesExactly`). The formula in the repository's own README (lines 274-275) also
  leaves out the clamping and the minimum charge of 1; the model follows the code.
- One Solana transaction, one request: an accepted transaction is accepted for exactly the requests it has a memo of
  (`Solana.AcceptedForEveryMemo`), so for one only exactly when it has no other request's memo
  (`Solana.OneRequestExactly`). The client guide asks for one memo; the validator does not.
- Paying at all: an accepted Solana transaction pays exactly when its source is not the merchant's own token account
  (`Solana.AcceptedPaysExactly`), and such transactions exist (`Solana.SelfTransferPaysNothing`).
- Being served when charged: a submitted Solana transaction that runs moves the cost, while the request is refused exactly
  when the sending failed or no confirmation was seen (`Solana.ChargedWithoutService`); an endpoint that never reports the
  transaction is such a case (`Solana.SilenceTimesOut`).
- One EVM authorization, one delivery: the EVM settler ignores the request id, so a payload it accepted is accepted again
  exactly for the same cost while its window lasts (`Eip3009.ReplayedExactly`), although a token executes it once
  (`Eip3009.AuthorizationPaysOnce`). The merchant gains all that was delivered exactly when every delivery has an unused
  authorization of its own that can be collected (`Eip3009.GainExactly`), and less otherwise (`Eip3009.ReplayLoses`); the
  same holds of the settlements of any run (`EvmBacking.SettlementsAreCollectedExactly`).
- The EVM settler accepts an authorization at the very second it becomes valid, at which EIP-3009 still refuses it
  (`Eip3009.AcceptedExecutes`). It compares the recipient with the configured text, so a merchant address configured
  without its 0x prefix passes the configuration check and then refuses every payment (`Hex.RecipientMatchesExactly`).
- A built-in price the administrator deletes is back after a restart (`Admin.RestartKeepsRows`).
- Prices from 2^63 micro-dollars on wrap to int64, and a save does not look at that: such a price can be stored as a
  negative one (`Admin.WrappingPriceIsSaved`). A table of stored rows has no negative price exactly when no stored text
  wraps to a negative amount (`Admin.StoredPricesNeverNegativeExactly`), and a price never charges below zero exactly when
  it is not negative (`Charges.NeverNegativeExactly`). On a negative price the charge also reaches `ceilRat`'s error, which
  is one too high on negative fractions (`Charges.CeilRatExactly`); `Charges.ChargeBounds` covers these prices too.
- Model names that agree after trimming and lower-casing make the table depend on map iteration order, exactly when
  their prices differ (`PriceTable.OrderIrrelevantExactly`).

## Model

| member | source | states |
|---|---|---|
| Protocol.StepKeepsInv | internal/handler/relay.go:142-221 | every enabled step of any handler, initial request, sweep or clock tick keeps the invariant tying log, cache, ledger and handler phases together, whatever the hash |
| Protocol.RunKeepsInv | internal/handler/relay.go:62-242 | the invariant holds after every run, whatever the hash and the ledger it starts from |
| Protocol.StepKeepsFresh | internal/handler/relay.go:142-221 | every step that leaves no two ids clashing keeps ids fresh: each is staged once and not read after a Delete |
| Protocol.RunKeepsFresh | internal/handler/relay.go:142-221 | ids are fresh after every run in which no two clash |
| Protocol.NoClashExactly | internal/cache/cache.go:47-50 | ids clash exactly when the hash collides on two of the texts the run hashed |
| Protocol.FreshId | internal/handler/relay.go:142 | the id of a body and clock reading not paired before, clashing with none of the run, was never staged |
| Protocol.StagedIsCached | internal/cache/cache.go:52-67 | after a response is staged, and whatever time and sweeps pass, a Get finds exactly it until the time to live has passed, and nothing after that |
| Protocol.StagedIsHeld | internal/handler/relay.go:177-181 | a new payment handler asking for the id then holds exactly what was staged, or is refused when the time to live has passed |
| Guarantees.DeliveriesArePaid | internal/handler/relay.go:171-241 | in every interleaving a delivery is the body, status and type staged under its id, read unexpired by that handler, after a settlement of exactly its cost under that id by the same handler |
| Guarantees.RefusedDidNothing | internal/handler/relay.go:173-202 | a handler that was refused never settles, records, deletes or delivers |
| Guarantees.FailedAttemptInvisible | internal/handler/relay.go:177-202 | removing all steps of a handler that never got past settlement from a run leaves a run with the same clock, cache, ledger and other handlers |
| Guarantees.LedgerIsSound | internal/handler/relay.go:204-216 | in every run the ledger keeps its earlier rows and stays free of repeated request ids and (network, transaction) pairs, and each added row has a cost staged under its id, exactly when that cost is an int64; without clashing ids it is the one entry staged under it |
| Guarantees.RowsAreExact | internal/handler/relay.go:204-216 | in every run each added row has the payer and transaction of a settlement by the handler that recorded it, the request id, the merchant as recipient, the network, and the cost, model and token counts of an entry staged under that id |
| Guarantees.DeliverySettled | internal/handler/relay.go:198-241 | in every run a delivery has a settlement by its own handler, under its id, at a cost staged under it |
| Guarantees.DeliveriesAreBooked | internal/handler/relay.go:204-221 | if recording fails only for uniqueness, every delivered request has a row with its id or its transaction |
| Settlements.SettlementsBounded | internal/handler/relay.go:177-221 | in every run deliveries of an id are at most its settlements; without clashing ids these are at most the handlers whose Get preceded the first Delete of the id |
| Settlements.NoOverlapSettlesOnce | internal/handler/relay.go:177-221 | in a run without clashing ids, handlers of one id that do not overlap settle and deliver it at most once, whatever runs beside them |
| Settlements.OverlapCanSettleTwice | internal/handler/relay.go:177-221 | with any hash, whenever two handlers of an id overlap in a run, some prefix of that run continues to one that settles the id at least twice |
| Settlements.HoldersSettleTwice | internal/handler/relay.go:177-202 | from any state in which two handlers hold one id, both can settle it next |
| Settlements.StagedCanSettleTwice | internal/handler/relay.go:177-202 | from any state with an id staged and unexpired there is a continuation that settles it twice |
| Settlements.CountsAreHandlers | internal/handler/relay.go:198-241 | in every run each handler settles and delivers an id at most once, so the counts of settlements and deliveries are counts of handlers |
| Relay.RelayHandler.HandleInitial | internal/handler/relay.go:62-167 | the whole answer and new cache: a bad upstream address, upstream errors, no answer and no usage each with its answer, otherwise the priced entry staged under the id of body and clock, as the Stage step of the protocol, and the settler's requirements for it |
| Relay.RelayHandler.HandlePayment | internal/handler/relay.go:171-242 | each refusal with its cause and nothing changed; otherwise settled, recorded if no index objects, with the row written out and the payer's total and count grown by it, deleted, and delivered with its settlement and accounting headers; every call is a run of protocol steps to the new cache and ledger |
| Relay.PaymentIsFiveSteps | internal/handler/relay.go:177-241 | the five protocol steps of a paid handler, uninterrupted, taken together: the cache, ledger, handler phase and log they lead to |
| Relay.PaidInTimeIsDelivered | internal/handler/relay.go:142-241 | a request paid for in time is served: staging, any waiting of at most the time to live, and the five steps of a settled handler end with exactly the staged response delivered |
| Relay.RefusalsChangeNothing | internal/handler/relay.go:177-202 | the protocol steps of a refused handler leave cache, ledger and clock alone |
| Relay.ExtractUsage | internal/handler/relay.go:92-124 | the patched usage record: the first shape in the documented order that reports counts gives the totals, and a cached count in any of the places is used whichever it is |
| Relay.HeadersReadBack | internal/handler/relay.go:223-240 | the usage and price headers read back exactly when no price is negative, and non-negative int64 prices to the numbers they were printed from |
| Relay.HeadersNameSettlement | internal/handler/relay.go:223-240 | the settlement record and the transaction header carry the transaction, payer and network of the settlement, and the cost header reads back as the staged cost |
| Relay.DescriptionReads | internal/handler/relay.go:157 | the description starts with the model and the prompt count and ends with the completion count |
| Relay.HeadersExplainCost | internal/handler/relay.go:223-240 | with no negative completion count, at most as many cached as prompt tokens and an unchanged price, the charge recomputed from the headers and the markup is exactly the staged cost |
| Relay.HeadersExplainExactly | internal/handler/relay.go:223-240 | the headers explain the charge at all non-negative int64 prices and all markups exactly for those usages |
| Relay.HeadersExplainPricesExactly | internal/handler/relay.go:223-240 | for those usages and any int64 price the headers explain the charge at all markups exactly when the price is not negative |
| Cache.Cache.constructor | internal/cache/cache.go:33-44 | an empty cache; a time to live that is not positive becomes three minutes |
| Cache.Cache.Store | internal/cache/cache.go:52-57 | exactly this id is set, to the entry with the current time as its creation time |
| Cache.Cache.Get | internal/cache/cache.go:59-67 | the stored entry unless it is older than the time to live |
| Cache.Cache.Delete | internal/cache/cache.go:69-73 | exactly this id is removed |
| Cache.Cache.Sweep | internal/cache/cache.go:82-90 | in whatever order the map is visited, exactly the expired entries go |
| Cache.SimulationObserves | internal/cache/cache.go:52-93 | a swept cache that lacks only expired entries of a reference map answers every later operation alike |
| Cache.SweepingIsInvisible | internal/cache/cache.go:52-93 | for every sequence of operations under a monotone clock the swept cache answers as one never swept |
| Cache.SweepShowsExactly | internal/cache/cache.go:63 | a sweep shows in a later Get exactly when the entry had expired at the sweep and has not at the Get, so only if the clock went back, which Go's monotonic readings exclude; this says what the hypothesis of a monotone clock is for |
| Cache.StampInjective | internal/handler/relay.go:142 | body, bar and nanoseconds are equal texts exactly when bodies and nanoseconds are equal |
| Cache.StampReads | internal/handler/relay.go:142 | the text that is hashed is the body, a bar, and the nanoseconds in decimal |
| Cache.RequestIDInjective | internal/cache/cache.go:47-50 | unless the hash collides on the two texts, ids are equal exactly when bodies and nanoseconds are |
| Payments.AppendKeepsUnique | internal/store/db.go:87-88 | the two unique indexes survive an insert exactly when the row does not conflict |
| Payments.PaymentDb.Record | internal/store/payment.go:21-30 | the row is appended exactly when neither index nor the database refuses it, which keeps the indexes; otherwise nothing changes |
| Payments.PaymentDb.SumByAddress | internal/store/payment.go:33-38 | the total and number of the rows of an address |
| Payments.PaymentDb.Summarize | internal/store/payment.go:99-110 | totals, row count and number of distinct payers over the whole table |
| Payments.SummaryIsSumOverPayers | internal/store/payment.go:33-110 | for any listing of the payers the per-payer sums of amounts, prompt tokens, completion tokens and rows add up to the summary's |
| Payments.UniquePayersCounted | internal/store/payment.go:99-110 | the number of unique payers is the length of any listing of the payers without repetition |
| Payments.AppendedSums | internal/store/payment.go:21-38 | a new row adds its amount and one payment to its payer, and nothing to anyone else |
| Charges.CeilRatExactly | internal/pricing/pricing.go:311-317 | ceilRat is the ceiling exactly on non-negative or integral arguments, and one too many otherwise |
| Charges.CeilRatIgnoresCommonFactor | internal/pricing/pricing.go:311-317 | the result does not depend on the fraction being reduced, whatever its sign |
| Charges.CeilDivLeast | internal/pricing/pricing.go:311-317 | the ceiling is the least integer that is large enough |
| Charges.RoundUpToMicros | internal/pricing/pricing.go:260-261 | adding 999,999 and dividing rounds up |
| Charges.ApplyMarkup | internal/pricing/pricing.go:262-270 | the result times the markup's denominator lies less than one above the base times its numerator, for a positive finite markup; NaN, an infinity, or a markup that is not positive leaves the base alone; on any base it is the specified step |
| Charges.AccumulatePrice | internal/pricing/pricing.go:252-259 | the running total is the exact price of the clamped token counts |
| Charges.CostMicroUSDC | internal/pricing/pricing.go:250-275 | for every table, model, usage and markup the specified charge of the resolved price; at a price that is not negative, at least the exact price times the markup and less than that plus markup plus one, the markup counting as 1 where it is not positive or not finite |
| Charges.ChargeBounds | internal/pricing/pricing.go:250-275 | for every price a charge is at least the exact marked-up price and less than that price plus markup plus one, plus two more where the price wrapped to a negative one; otherwise it is zero exactly when no tokens were used |
| Charges.NeverNegativeExactly | internal/pricing/pricing.go:250-275 | no usage at any positive markup is charged below zero exactly when the price is not negative |
| Charges.TotalChargeBounds | internal/pricing/pricing.go:250-275 | over any list of n calls the charges lie in [S, S + n(m+1)), S being m times the exact price |
| Charges.TotalsAdd | internal/pricing/pricing.go:250-275 | the totals of calls listed one after the other add up, call by call |
| Charges.ChargeMonotoneInTokens | internal/pricing/pricing.go:250-275 | more prompt or completion tokens never cost less |
| Charges.ChargeMonotoneInMarkup | internal/pricing/pricing.go:262-274 | a larger positive markup never costs less |
| Charges.ChargeAntitoneInCached | internal/pricing/pricing.go:252-257 | more cached tokens never cost more when the cached price is at most the input price |
| Charges.ChargeSplit | internal/pricing/pricing.go:250-275 | splitting a usage never saves, and costs at most the rounded-up markup plus 1 more |
| Prices.ParseDecimalReads | internal/pricing/pricing.go:205-208 | a signed decimal numeral is read as the number it denotes |
| Prices.ParsedIsNumeral | internal/pricing/pricing.go:205-208 | the parser reads exactly the texts of the decimal grammar |
| Prices.ParseAcceptsExactly | internal/pricing/pricing.go:200-217 | over trimmed decimal numerals: accepted exactly when not negative and nothing but zeros follows the sixth decimal, with the micro amount, wrapped at 2^63, as the result |
| Prices.ParsePrinted | internal/pricing/pricing.go:359-363 | parsing a printed amount gives it back exactly on 0 to 2^63 - 1, and a larger one wrapped |
| Prices.ReprintKeepsValue | internal/pricing/pricing.go:200-217 | over trimmed decimal numerals: an accepted price reprints to a text that parses to the same result exactly when its amount modulo 2^64 is below 2^63, and is the amount written exactly when that is below 2^63 |
| Prices.CompiledNonNegativeExactly | internal/pricing/pricing.go:181-217 | a compiled price is not negative exactly when none of its texts denotes an amount that wraps to a negative one |
| Prices.CompiledFieldByField | internal/pricing/pricing.go:181-198 | a price compiles exactly when its texts parse, each field from its own text, a cached text of white space only standing for the input price; the first text that does not parse gives the error |
| Prices.CompilePrinted | internal/pricing/pricing.go:181-198 | three printed amounts compile to themselves, each in its place, and without a cached text the cached price is the input price |
| Prices.WrittenMicrosOf | internal/pricing/pricing.go:212-216 | the amount before the conversion is the one the numeral denotes |
| Prices.SixDecimalsInjective | internal/pricing/pricing.go:337-344 | two amounts in 0 to 2^63 - 1 with the same text are the same amount |
| Prices.SixDecimalsShape | internal/pricing/pricing.go:337-344 | a sign if negative, the whole part without leading zeros, a point, and six digits that spell the rest |
| Text.NormalizeFixpoint | internal/pricing/pricing.go:319-321 | a model name is its own normal form exactly when it is trimmed and lower-case |
| Text.NormalizeIdempotent | internal/pricing/pricing.go:319-321 | normalizing twice is normalizing once |
| Text.NormalizeStrips | internal/pricing/pricing.go:319-321 | surrounding white space goes, and nothing but the case of the rest changes |
| PriceTable.SortByLength | internal/pricing/pricing.go:147-149 | some permutation of the keys, the one with most bytes first |
| Text.PrefixHasFewerBytes | internal/pricing/pricing.go:147-149 | a proper prefix has fewer bytes, so among prefixes of one name byte length orders as character length does |
| PriceTable.NewTable | internal/pricing/pricing.go:120-151 | succeeds exactly when every name and price is usable, whatever the map order, with one of the tables the prices allow, each entry compiled from a name with that normal form; an error is a real one |
| PriceTable.TableReadsTexts | internal/pricing/pricing.go:120-150 | every entry of a table is read, field by field, from a configured name with that normal form, every name has an entry, and a default text that is missing counts as 5 or 15 |
| PriceTable.PriceFor | internal/pricing/pricing.go:233-247 | the price of the longest key that is a prefix of the normalized model, an exact match included, and the default price when no key is one |
| PriceTable.PriceOfExactly | internal/pricing/pricing.go:233-247 | the same of the specification, and that one of the two cases always applies |
| PriceTable.LongestPrefixIsLongest | internal/pricing/pricing.go:241-245 | the key resolved to is a prefix, and no longer key is; none is found exactly when none is a prefix |
| PriceTable.LongestPrefixUnique | internal/pricing/pricing.go:147-149 | there is only one longest prefix, so the order of equal lengths does not matter |
| PriceTable.TablesAgree | internal/pricing/pricing.go:135-150 | if names that collide carry one price, every table NewTable may return has the same entries |
| PriceTable.OrderIrrelevantExactly | internal/pricing/pricing.go:135-150 | map order and sort order never change a price exactly when colliding names carry one price |
| Defaults.DefaultsAreSound | internal/pricing/pricing.go:99-118 | every built-in name is in normal form and every built-in price compiles, to amounts that are not negative |
| Defaults.DefaultPriceCompiles | internal/pricing/pricing.go:95-97 | the fallback price compiles, to amounts that are not negative |
| PriceManager.NewTableFromEntries | internal/pricing/pricing.go:153-163 | succeeds exactly when the entries' map is compilable, a later entry for a model replacing an earlier one |
| PriceManager.LastEntryCounts | internal/pricing/pricing.go:153-163 | among entries for one model the last one counts |
| PriceManager.DefaultTable | internal/pricing/pricing.go:91-93 | the error the source ignores cannot occur: the built-in table always exists |
| PriceManager.Manager.constructor | internal/pricing/pricing.go:282-287 | holds the given table, or the built-in one |
| PriceManager.Manager.Replace | internal/pricing/pricing.go:289-296 | swaps in a table; a missing one is ignored |
| PriceManager.Manager.Cost | internal/pricing/pricing.go:298-303 | charges by the table in force |
| PriceManager.Manager.PricesFor | internal/pricing/pricing.go:346-357 | the three prices of the resolved entry, printed with six decimals |
| PriceStore.PriceDb.Bootstrap | internal/store/settings.go:33-50 | all missing entries are inserted, or on any database error none |
| PriceStore.PriceDb.List | internal/store/settings.go:52-69 | one entry for every row and no other, ordered by model |
| PriceStore.PriceDb.Upsert | internal/store/settings.go:71-87 | exactly this model's row is set; an empty model is refused |
| PriceStore.PriceDb.Delete | internal/store/settings.go:89-92 | exactly this model's row goes; a model without a row is not an error |
| PriceStore.PriceDb.Replace | internal/store/settings.go:94-112 | the table becomes the given entries, each with its own row and no row besides, or on a repeated model or any database error stays as it was |
| PriceStore.InsertIntoEmpty | internal/store/settings.go:100-110 | entries with distinct models inserted into an empty table are stored as they are |
| PriceStore.InsertMissingRows | internal/store/settings.go:39-48 | bootstrapping keeps every row, adds every missing model, and takes each new row from an entry |
| PriceStore.BootstrapIdempotent | internal/store/settings.go:33-50 | bootstrapping twice is bootstrapping once, and custom rows are never overwritten |
| PriceStore.BootstrapKeepsRowsExactly | internal/store/settings.go:33-50 | it changes nothing exactly when every entry's model has a row |
| PriceStore.ListedModels | internal/store/settings.go:52-69 | in whatever order the rows are listed, the map made of them is the rows |
| Admin.AdminHandler.ReloadPrices | internal/handler/admin.go:152-163 | the table becomes a compile of the rows, or stays on an error |
| Admin.AdminHandler.SavePrice | internal/handler/admin.go:96-121 | a step of the administration relation: refused, failed, or row and table replaced |
| Admin.AdminHandler.DeletePrice | internal/handler/admin.go:123-138 | the same for deleting a model's row |
| Admin.AdminHandler.ResetPrices | internal/handler/admin.go:140-150 | the same for replacing all rows by the built-in ones |
| Admin.Start | cmd/server/main.go:38-74 | bootstrap, settings, settler, list and compile as a restart step; a failed start leaves the server down |
| Admin.SaveAdmitsSoundRows | internal/handler/admin.go:102-110 | the validation of a save lets exactly the rows with a usable name and price through |
| Admin.NextKeepsSound | internal/handler/admin.go:96-163 | every operation, successful or not, keeps all stored keys normalized and all stored prices compilable |
| Admin.OutcomeExactly | internal/handler/admin.go:96-163 | from sound rows an operation answers 400 exactly when refused and 500 exactly on an outside fault (the database, or at a start the settings or the settler); otherwise the table agrees with the rows |
| Admin.RunsStayInSync | internal/handler/admin.go:96-163 | over every sequential run of saves, deletes, resets and restarts from an empty store: sound rows, failures only from outside, and after every ok the table charges each model as any fresh compile of the rows would |
| Admin.RowsDecide | internal/handler/admin.go:152-163 | a table in agreement with the rows charges a model the row of the longest key that prefixes it, and the default where none does |
| Admin.SaveTakesEffect | internal/handler/admin.go:111-119 | a saved price is charged at once for its model, and no model it is not a prefix of is charged differently |
| Admin.RemoveTakesEffect | internal/handler/admin.go:123-138 | after a successful delete the model has no row, the other rows are as before, and every model is charged the row of its longest remaining prefix |
| Admin.ResetTakesEffect | internal/handler/admin.go:140-150 | after a successful reset exactly the built-in rows remain, and models are charged by them |
| Admin.RestartKeepsRows | cmd/server/main.go:38-41 | a restart keeps every row, adds only built-in rows, all of them that are missing, and changes nothing exactly when none is |
| Admin.StoredPricesNeverNegativeExactly | internal/handler/admin.go:152-163 | a table of the stored rows has no negative price for any model exactly when no stored text wraps to a negative amount |
| Admin.WrappingPriceIsSaved | internal/handler/admin.go:107-112 | the printed text of every amount from 2^63 to 2^64 - 1 passes the validation of a save and compiles to a negative price |
| Solana.ValidateTransaction | internal/settler/solana.go:111-199 | succeeds exactly on acceptable transactions and returns the transfer's owner; on any other it returns the first fault in the order of the checks |
| Solana.AcceptableExactly | internal/settler/solana.go:111-199 | a transaction is acceptable exactly when it has none of the faults, and has only one first fault otherwise |
| Solana.OrderAndBudgetIrrelevant | internal/settler/solana.go:134-175 | permuting instructions and adding or removing ComputeBudget ones changes neither acceptance nor payer |
| Solana.SolanaMemoInjective | internal/settler/solana.go:224-226 | different request ids have different memos |
| Solana.AcceptedIdsBounded | internal/settler/solana.go:148-159 | a transaction is accepted for at most as many request ids as it has memos |
| Solana.AcceptedForEveryMemo | internal/settler/solana.go:148-159 | a transaction accepted for one id is accepted, at the same cost, exactly for the ids it has a memo of |
| Solana.OneRequestExactly | internal/settler/solana.go:148-159 | an accepted transaction is accepted for one id only exactly when it has no memo of another |
| Solana.RunOnlyTransfer | internal/settler/solana.go:145-182 | running a transaction with a single transfer does what that transfer does |
| Solana.AcceptedPaysExactly | internal/settler/solana.go:177-198 | when an accepted transaction runs, signed by owner or delegate, the merchant's account gains exactly the cost, the source loses it, nothing else moves and the total is kept, if and only if the source is not the merchant's account |
| Solana.AcceptedRunsExactly | internal/settler/solana.go:177-198 | an accepted transaction runs exactly when both accounts exist for the mint, the source holds the cost, and the signer may spend it |
| Solana.SelfTransferPaysNothing | internal/settler/solana.go:177-198 | for every cost in range and every request there is an accepted transaction that runs and moves nothing |
| Solana.WaitConfirmed | internal/settler/solana.go:201-222 | the first poll with an error or a sufficient level decides if it is made; success only at a level from the configured one up, confirmed not sufficing where finalized is asked for; RPC errors and absent statuses are skipped; the deadline bounds the polls; a tick and the deadline ready together may be taken either way |
| Solana.Settle | internal/settler/solana.go:79-109 | succeeds exactly when the payload is for this request with an acceptable transaction and, outside a dry run, it is sent without error and seen confirmed; a transaction is submitted exactly when the payload pays and it is no dry run; each failure has its exact cause |
| Solana.ChargedWithoutService | internal/settler/solana.go:101-108 | a submitted transaction that runs moves the cost while the request is refused, exactly when its source is not the merchant's account and the sending failed or no confirmation was seen |
| Solana.SilenceTimesOut | internal/settler/solana.go:201-222 | polls that never show the transaction never confirm it, whatever the clock |
| SolanaBacking.TransactionBacksFew | internal/handler/relay.go:198-241 | in every run settled over Solana a transaction pays for at most as many delivered ids as it has memos |
| SolanaBacking.DeliveriesAreCovered | internal/handler/relay.go:198-241 | in every such run without clashing ids, with single-memo transactions that all landed and did not come from the merchant's account, the merchant gained at least the staged costs of all delivered requests |
| EvmBacking.DeliverySubmitted | internal/handler/relay.go:198-241 | in every run settled over EVM a delivered request has a submitted call accepted for a cost staged under its id |
| EvmBacking.SettlementsAreCollectedExactly | internal/handler/relay.go:198-241 | in every such run, with the calls run in any order, the merchant gains at most the settled costs, each staged under its id, and exactly them if and only if each call has an unused authorization of its own that can be collected |
| Hex.DecodeHexExactly | internal/settler/settler.go:137 | decoding reads exactly the texts that are some casing of the bytes' encoding |
| Hex.ByteText | internal/settler/settler.go:137 | the text of a byte is its two digits, high digit first |
| Hex.AddressHexReads | internal/settler/settler.go:213-214 | an address printed in any casing reads back |
| Hex.RecipientMatchesExactly | internal/settler/settler.go:127 | the recipient check holds exactly when the configured text has its 0x prefix and names the recipient |
| Abi.PaddedBig | cmd/testpay/main.go:213-218 | the word that spells the number's magnitude in big-endian |
| Abi.PaddedAddr | cmd/testpay/main.go:220-224 | twelve zero bytes and the address |
| Abi.EncodeABI | cmd/testpay/main.go:203-211 | 32 bytes a part, the i-th being the i-th part padded on the left |
| Abi.MinimalBytesLength | cmd/testpay/main.go:214-216 | a number fits k bytes exactly when it is below 256 to the k |
| Abi.FromBytesInjective | cmd/testpay/main.go:213-218 | byte strings of one length that spell one number are equal |
| Abi.JoinSplits | cmd/testpay/main.go:203-211 | each word is found again at its place in the encoding |
| Abi.JoinInjective | cmd/testpay/main.go:203-211 | encodings of word lists are equal exactly when the lists are |
| Eip712.StructReadsBack | cmd/testpay/main.go:182-190 | the seven-word encoding decodes to the authorization exactly when its numbers are uint256s |
| Eip712.StructInjective | cmd/testpay/main.go:182-190 | the struct encoding is injective over authorizations with uint256 fields |
| Eip712.DomainInjective | cmd/testpay/main.go:171-177 | the five-word domain encoding is injective |
| Eip712.DomainReadsBack | cmd/testpay/main.go:168-177 | the domain encoding word by word: type, name, version, chain and token |
| Eip712.SigningLayout | cmd/testpay/main.go:192-193 | what is signed is the hash of 0x19, 0x01, the hash of the domain and the hash of the struct, which starts with its type hash |
| Eip712.DigestBinds | cmd/testpay/main.go:161-193 | unless Keccak collides on the messages involved, digests agree exactly when domain and authorization do |
| Eip712.HashDomain | cmd/testpay/main.go:168-177 | the domain separator is the hash of the domain encoding |
| Eip712.HashMessage | cmd/testpay/main.go:179-190 | the message hash is the hash of the struct encoding, with validAfter zero and the nonce cut or filled to 32 bytes |
| Eip712.SignEIP712 | cmd/testpay/main.go:161-201 | the signature of exactly the EIP-712 digest, with 27 added to its last byte |
| Evm.DecodeAuthorization | internal/settler/settler.go:208-243 | the authorization the six texts spell, or the first fault in the order of the checks |
| Evm.DecodesExactly | internal/settler/settler.go:208-243 | a payload spells an authorization exactly when it has no fault, and only one; otherwise it has only one first fault |
| Evm.WireReadsBack | cmd/testpay/main.go:114-121 | the payload the client writes is read back as the same authorization, exactly when value and window are sensible |
| Evm.VerifyEIP712 | internal/settler/settler.go:183-205 | succeeds exactly on 65 bytes from which the digest recovers the sender, and gives each other answer exactly in its case |
| Evm.SplitSignature | internal/settler/settler.go:293-317 | succeeds exactly when a split in low-s form exists; then v is 27 or 28 and r, s and v - 27 are the bytes the sender was recovered from; each error is given exactly in its case |
| Evm.Settle | internal/settler/settler.go:115-171 | succeeds exactly when the payload pays the cost to the configured address now, under a signature of the sender, and the submission, if any, succeeds; otherwise it answers the first check that fails |
| X402.QuotesReadBack | internal/settler/settler.go:97-113 | a client reads the cost, the request id, the address to pay, the asset and the network off either settler's requirements, and the required memo off Solana's |
| Eip3009.AcceptedExecutes | internal/settler/settler.go:115-171 | an accepted call goes through at a later block time exactly when it is strictly inside its window, unused and funded, and then moves exactly the cost to the merchant, if and only if the payer is someone else |
| Eip3009.AuthorizationPaysOnce | internal/settler/settler.go:153-171 | however often and for however many requests an authorization is submitted, it goes through at most once |
| Eip3009.ReplayedExactly | internal/settler/settler.go:115-150 | a payload accepted once is accepted again exactly for the same cost and while its window lasts |
| Eip3009.GainExactly | internal/settler/settler.go:115-171 | over any list of accepted deliveries the merchant gains at most the delivered costs, and exactly them if and only if every delivery has an unused authorization of its own, strictly in its window, funded, and not the merchant's |
| Eip3009.ReplayLoses | internal/settler/settler.go:115-171 | two deliveries for one authorization leave the merchant with less than the delivered costs |
| Eip3009.ClientPaymentAccepted | cmd/testpay/main.go:67-122 | the test payer's payment is accepted exactly when the cost is positive, the quoted address has its 0x prefix and the server's clock is before the expiry |

## Left out

- HTTP and gin plumbing, CORS, the upstream client, graceful shutdown and the admin page: input and output only.
- Keccak, SHA-256, ECDSA signing and recovery, ed25519: parameters; where a property needs freedom from collisions, it is required of the texts of that run or statement only.
- `NewSolana` and the derivation of the merchant's token account: plain construction.
- JSON and base64 decoding, `ModelPrice.UnmarshalJSON` and `decodePriceValue`: the model starts from decoded records.
- Prices as fractions, exponents, hexadecimal or with underscores, which `big.Rat` also reads: the model's parser refuses them.
- Text.NormalizeFixpoint: does not model lower-casing beyond ASCII letters; other characters are kept as they are.
- Text.NormalizeIdempotent: as for NormalizeFixpoint.
- Floating point: the markup is the exact rational a float64 stands for, or NaN or infinite; `SaveSettings`, the stored markup and its text round trip are not part of the model.
- `internal/config/config.go`: environment loading and validation, one-branch checks.
- The branch of `priceFor` for a missing table: no caller reaches it, because the manager never holds one.
- The order of `DefaultEntries`, and the recent-payment queries with their order and limits.
- Row ids, timestamps, and the overflow of SQLite's 64-bit SUM.
- Overlapping administrator requests: the code does not serialize write, list and replace, so agreement of table and rows is claimed for sequential runs.
- Settling exactly once, and finality of EVM transactions: the code establishes neither.
- The transaction libraries: Solana instructions arrive resolved and decoded, `SendTransaction` and `Transact` are parameters with any result, and the token program and the EIP-3009 token are small interpreters of one transfer each; frozen accounts and multisignature owners are not part of them.
- That the typed-data library generates the type strings the test payer writes out, and encodes the struct as EIP-712 says: taken as given, so both sides share one digest.
- The network name to chain id conversion of the test payer, and its default domain name and version: both sides use one domain.
- Relay.HeadersExplainCost: does not cover a price table replaced between the two requests, where the headers show the new prices.

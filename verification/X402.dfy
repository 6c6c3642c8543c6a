/** The wire constants and the payment requirements of internal/types, and how the two settlers fill them in. */
module X402 {
  import opened Basics
  import opened Text

  const X402_VERSION: int := 1
  const SCHEME_EXACT: string := "exact"
  const SIGNED_TRANSACTION: string := "signed_transaction"

  /** PaymentRequirements, the quote a 402 answer carries. */
  datatype Requirements = Requirements(
    scheme: string, network: string, maxAmountRequired: string, resource: string, description: string, payTo: string,
    maxTimeoutSeconds: int, asset: string, extra: map<string, string>)

  function SolanaMemo(reqID: string): string {
    "x402:" + reqID
  }

  /** The EVM settler's texts: network, merchant address, token contract, and the token's signing name and version. */
  datatype EvmTexts = EvmTexts(network: string, payTo: string, asset: string, name: string, version: string)

  function EvmRequirements(t: EvmTexts, resource: string, description: string, reqID: string, cost: int, timeout: int)
    : Requirements
  {
    Requirements(SCHEME_EXACT, t.network, DecimalInt(cost), resource, description, t.payTo, timeout, t.asset,
                 map["requestId" := reqID, "name" := t.name, "version" := t.version])
  }

  /** The Solana settler's texts: network, merchant wallet, its token account, mint, token program and commitment. */
  datatype SolanaTexts = SolanaTexts(
    network: string, payTo: string, tokenAccount: string, mint: string, tokenProgram: string, commitment: string)

  function SolanaRequirements(t: SolanaTexts, resource: string, description: string, reqID: string, cost: int,
                              timeout: int)
    : Requirements
  {
    Requirements(SCHEME_EXACT, t.network, DecimalInt(cost), resource, description, t.payTo, timeout, t.mint,
                 map["requestId" := reqID, "decimals" := "6", "tokenProgram" := t.tokenProgram,
                     "payToTokenAccount" := t.tokenAccount, "settlement" := SIGNED_TRANSACTION,
                     "memo" := SolanaMemo(reqID),
                     "confirmation" := t.commitment, "addressLookupTables" := "unsupported",
                     "clientSubmitSupported" := "false"])
  }

  /**
   * A client reads the cost and the request id off either quote, and the memo off Solana's; whom to pay, in which token
   * and on which network are the settler's own, and the rest is what the relay asked for.
   */
  lemma QuotesReadBack(e: EvmTexts, s: SolanaTexts, resource: string, description: string, reqID: string, cost: int,
                       timeout: int)
    ensures var q := EvmRequirements(e, resource, description, reqID, cost, timeout);
            && ParseInt10(q.maxAmountRequired) == Some(cost) && q.extra["requestId"] == reqID
            && q.payTo == e.payTo && q.asset == e.asset && q.network == e.network
            && q.resource == resource && q.description == description && q.maxTimeoutSeconds == timeout
    ensures var q := SolanaRequirements(s, resource, description, reqID, cost, timeout);
            && ParseInt10(q.maxAmountRequired) == Some(cost) && q.extra["requestId"] == reqID
            && q.extra["memo"] == "x402:" + reqID && q.extra["payToTokenAccount"] == s.tokenAccount
            && q.payTo == s.payTo && q.asset == s.mint && q.network == s.network
            && q.resource == resource && q.description == description && q.maxTimeoutSeconds == timeout
  {
    ParsePrintedInt(cost);
    hide ParseInt10, DecimalInt;
  }
}

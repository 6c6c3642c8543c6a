/**
 * What an authorization accepted by the EVM settler does in a token that follows EIP-3009, and when the payment the
 * test payer of cmd/testpay/main.go builds is accepted.
 */
module Eip3009 {
  import opened Basics
  import opened Text
  import opened Hex
  import opened Abi
  import opened Eip712
  import opened Evm

  /** A token contract: balances, and the authorizations already used. */
  datatype Token = Token(balances: map<Address, nat>, used: set<(Address, Word)>) {
    function Balance(a: Address): nat {
      if a in balances then balances[a] else 0
    }
  }

  /** `transferWithAuthorization` at block time `t`; None reverts. */
  function Execute(token: Token, call: Call, t: int, keccak: seq<byte> -> Word, recover: Recovery,
                   d: Domain): Option<Token>
  {
    var a, split := call.auth, call.split;
    if !(a.validAfter < t < a.validBefore) || (a.from, a.nonce) in token.used then None
    else if split.v !in {27, 28} || !ValidValues(FromBytes(split.r), FromBytes(split.s)) then None
    else if TypedDigest(keccak, d, a).None? then None
    else if recover(TypedDigest(keccak, d, a).value, split.r + split.s + [split.v - 27]) != Some(a.from) then None
    else if a.value < 0 || token.Balance(a.from) < a.value then None
    else
      var debited := token.balances[a.from := token.Balance(a.from) - a.value];
      var credited := debited[a.to := (if a.to in debited then debited[a.to] else 0) + a.value];
      Some(Token(credited, token.used + {(a.from, a.nonce)}))
  }

  /** `to` gains `cost`, `from` loses it, and no other balance changes. */
  ghost predicate PaysExactly(token: Token, token': Token, from: Address, to: Address, cost: int) {
    && token'.Balance(to) == token.Balance(to) + cost
    && token'.Balance(from) == token.Balance(from) - cost
    && forall a: Address :: a != from && a != to ==> token'.Balance(a) == token.Balance(a)
  }

  /**
   * An accepted call, run at any block time from the moment of acceptance on, goes through exactly when it is
   * strictly inside its window, its nonce is unused and the payer has the money. Then it moves exactly the cost to
   * the configured address, if and only if the payer is not that address, and the nonce is used up.
   */
  lemma AcceptedExecutes(s: Settings, payload: ExactPayload, cost: int, now: int, keccak: seq<byte> -> Word,
                         recover: Recovery, call: Call, token: Token, t: int)
    requires Accepted(s, payload, cost, now, keccak, recover, call) && IsHexAddress(s.payTo) && now <= t
    ensures var a, result := call.auth, Execute(token, call, t, keccak, recover, s.domain);
            && (result.Some? <==> (a.validAfter < now || now < t) && t < a.validBefore
                                  && (a.from, a.nonce) !in token.used && cost <= token.Balance(a.from))
            && (result.Some? ==>
                  && (PaysExactly(token, result.value, a.from, HexToAddress(s.payTo), cost)
                      <==> a.from != HexToAddress(s.payTo))
                  && (a.from == HexToAddress(s.payTo) ==> forall b :: result.value.Balance(b) == token.Balance(b))
                  && result.value.used == token.used + {(a.from, a.nonce)})
  {
    hide IsHexAddress, DecodeHex, TypedDigest, FromBytes, ParseInt10, Raw, ValidValues;
    DecodesDigits(StripPrefix0x(s.payTo));
    assert HexToAddress(s.payTo) == call.auth.to;
    var result := Execute(token, call, t, keccak, recover, s.domain);
    if result.Some? && call.auth.from != call.auth.to {
      assert PaysExactly(token, result.value, call.auth.from, call.auth.to, cost);
    }
  }

  /** A token's history: calls at their block times, those that revert leaving it as it was. */
  function ExecuteAll(token: Token, calls: seq<(Call, int)>, keccak: seq<byte> -> Word, recover: Recovery,
                      d: Domain): Token
  {
    if calls == [] then token
    else
      var last := |calls| - 1;
      var before := ExecuteAll(token, calls[..last], keccak, recover, d);
      match Execute(before, calls[last].0, calls[last].1, keccak, recover, d)
      case None => before
      case Some(after) => after
  }

  /** The calls of a history that went through with this payer and nonce. */
  function Uses(token: Token, calls: seq<(Call, int)>, keccak: seq<byte> -> Word, recover: Recovery, d: Domain,
                key: (Address, Word)): nat
  {
    if calls == [] then 0
    else
      var last := |calls| - 1;
      var before := ExecuteAll(token, calls[..last], keccak, recover, d);
      var a := calls[last].0.auth;
      var runs := Execute(before, calls[last].0, calls[last].1, keccak, recover, d).Some?;
      Uses(token, calls[..last], keccak, recover, d, key) + if (a.from, a.nonce) == key && runs then 1 else 0
  }

  /** However often an authorization is submitted, for one request or for many, it pays at most once. */
  lemma {:induction false} AuthorizationPaysOnce(token: Token, calls: seq<(Call, int)>, keccak: seq<byte> -> Word,
                                                 recover: Recovery, d: Domain, key: (Address, Word))
    ensures Uses(token, calls, keccak, recover, d, key) <= 1
    ensures key in token.used ==> Uses(token, calls, keccak, recover, d, key) == 0
    ensures key in ExecuteAll(token, calls, keccak, recover, d).used
            <==> key in token.used || Uses(token, calls, keccak, recover, d, key) == 1
  {
    if calls == [] {
    } else {
      hide TypedDigest, FromBytes, ValidValues;
      AuthorizationPaysOnce(token, calls[..|calls| - 1], keccak, recover, d, key);
    }
  }

  // ----- one authorization, several deliveries -----

  /**
   * A payload accepted once is accepted again exactly for the same cost and while its window lasts; nothing in it names
   * the request.
   */
  lemma ReplayedExactly(s: Settings, payload: ExactPayload, cost: int, now: int, cost': int, now': int,
                        keccak: seq<byte> -> Word, recover: Recovery, call: Call)
    requires Accepted(s, payload, cost, now, keccak, recover, call)
    ensures (exists call' :: Accepted(s, payload, cost', now', keccak, recover, call')) <==>
            cost' == cost && call.auth.validAfter <= now' < call.auth.validBefore
  {
    DecodesExactly(payload.authorization);
    hide Decodes, DecodePrefixed, SignedBy, Splits;
    if cost' == cost && call.auth.validAfter <= now' < call.auth.validBefore {
      assert Accepted(s, payload, cost', now', keccak, recover, call);
    }
  }

  /** A delivery by the EVM settler: what was accepted, for how much and when, and the block time its call runs at. */
  datatype Delivery = Delivery(payload: ExactPayload, cost: int, now: int, call: Call, t: int)

  ghost predicate AllAccepted(s: Settings, keccak: seq<byte> -> Word, recover: Recovery, ds: seq<Delivery>) {
    forall i :: 0 <= i < |ds| ==>
      Accepted(s, ds[i].payload, ds[i].cost, ds[i].now, keccak, recover, ds[i].call) && ds[i].now <= ds[i].t
  }

  function CallsOf(ds: seq<Delivery>): (calls: seq<(Call, int)>)
    ensures |calls| == |ds| && forall i :: 0 <= i < |ds| ==> calls[i] == (ds[i].call, ds[i].t)
  {
    seq(|ds|, i requires 0 <= i < |ds| => (ds[i].call, ds[i].t))
  }

  function Delivered(ds: seq<Delivery>): int {
    if ds == [] then 0 else Delivered(ds[..|ds| - 1]) + ds[|ds| - 1].cost
  }

  function KeyOf(d: Delivery): (Address, Word) {
    (d.call.auth.from, d.call.auth.nonce)
  }

  /** The token after the calls of the deliveries, in order. */
  function AfterAll(s: Settings, keccak: seq<byte> -> Word, recover: Recovery, token: Token, ds: seq<Delivery>): Token {
    ExecuteAll(token, CallsOf(ds), keccak, recover, s.domain)
  }

  /** Strictly inside its window, with the money there when its turn comes, and not from the merchant. */
  ghost predicate Collectable(token: Token, d: Delivery, merchant: Address) {
    && (d.call.auth.validAfter < d.now || d.now < d.t) && d.t < d.call.auth.validBefore
    && d.cost <= token.Balance(d.call.auth.from)
    && d.call.auth.from != merchant
  }

  /** Each delivery has an authorization of its own, not used before, that can be collected when its turn comes. */
  ghost predicate AllCollected(s: Settings, keccak: seq<byte> -> Word, recover: Recovery, token: Token,
                               ds: seq<Delivery>, merchant: Address)
  {
    forall i :: 0 <= i < |ds| ==>
      && KeyOf(ds[i]) !in token.used
      && (forall j :: 0 <= j < i ==> KeyOf(ds[j]) != KeyOf(ds[i]))
      && Collectable(AfterAll(s, keccak, recover, token, ds[..i]), ds[i], merchant)
  }

  function UsedBy(ds: seq<Delivery>): set<(Address, Word)> {
    set i | 0 <= i < |ds| :: KeyOf(ds[i])
  }

  lemma AfterOneMore(s: Settings, keccak: seq<byte> -> Word, recover: Recovery, token: Token, ds: seq<Delivery>)
    requires ds != []
    ensures var d, before := ds[|ds| - 1], AfterAll(s, keccak, recover, token, ds[..|ds| - 1]);
            AfterAll(s, keccak, recover, token, ds) ==
            match Execute(before, d.call, d.t, keccak, recover, s.domain)
            case None => before
            case Some(after) => after
  {
    hide Execute;
    var n := |ds| - 1;
    assert CallsOf(ds)[..n] == CallsOf(ds[..n]);
  }

  /** What the last delivery of a list adds to the merchant: its cost when it can be collected, and less otherwise. */
  lemma LastGain(s: Settings, keccak: seq<byte> -> Word, recover: Recovery, before: Token, d: Delivery)
    requires Accepted(s, d.payload, d.cost, d.now, keccak, recover, d.call) && IsHexAddress(s.payTo) && d.now <= d.t
    ensures var merchant, result := HexToAddress(s.payTo), Execute(before, d.call, d.t, keccak, recover, s.domain);
            var after := if result.Some? then result.value else before;
            && 0 <= after.Balance(merchant) - before.Balance(merchant) <= d.cost
            && (after.Balance(merchant) - before.Balance(merchant) == d.cost <==>
                KeyOf(d) !in before.used && Collectable(before, d, merchant))
            && after.used == (if result.Some? then before.used + {KeyOf(d)} else before.used)
            && (after.Balance(merchant) - before.Balance(merchant) == d.cost ==> result.Some?)
  {
    AcceptedExecutes(s, d.payload, d.cost, d.now, keccak, recover, d.call, before, d.t);
    assert d.cost > 0;
    hide Execute, IsHexAddress, HexToAddress, Accepted;
  }

  /**
   * The merchant never gains more than the costs delivered, and gains exactly them if and only if every delivery has an
   * unused authorization of its own, strictly inside its window when its call runs, funded, and not the merchant's.
   */
  lemma {:induction false} GainExactly(s: Settings, keccak: seq<byte> -> Word, recover: Recovery, token: Token,
                                       ds: seq<Delivery>)
    requires AllAccepted(s, keccak, recover, ds) && IsHexAddress(s.payTo)
    ensures var merchant, after := HexToAddress(s.payTo), AfterAll(s, keccak, recover, token, ds);
            var gain := after.Balance(merchant) - token.Balance(merchant);
            && 0 <= gain <= Delivered(ds)
            && (gain == Delivered(ds) <==> AllCollected(s, keccak, recover, token, ds, merchant))
            && (gain == Delivered(ds) ==> after.used == token.used + UsedBy(ds))
  {
    hide Accepted, Execute, Collectable, HexToAddress, IsHexAddress, ExecuteAll;
    if ds == [] {
      NoDeliveries(s, keccak, recover, token);
    } else {
      var n := |ds| - 1;
      var front, d := ds[..n], ds[n];
      var before := AfterAll(s, keccak, recover, token, front);
      GainExactly(s, keccak, recover, token, front);
      AfterOneMore(s, keccak, recover, token, ds);
      LastGain(s, keccak, recover, before, d);
      CollectedOneMore(s, keccak, recover, token, ds, HexToAddress(s.payTo));
      UsedOneMore(ds);
      hide AfterAll, AllCollected, UsedBy, AllAccepted;
    }
  }

  /** Delivering twice for one authorization leaves the merchant short. */
  lemma ReplayLoses(s: Settings, keccak: seq<byte> -> Word, recover: Recovery, token: Token, ds: seq<Delivery>,
                    i: nat, j: nat)
    requires AllAccepted(s, keccak, recover, ds) && IsHexAddress(s.payTo)
    requires i < j < |ds| && KeyOf(ds[i]) == KeyOf(ds[j])
    ensures var merchant := HexToAddress(s.payTo);
            AfterAll(s, keccak, recover, token, ds).Balance(merchant) - token.Balance(merchant) < Delivered(ds)
  {
    hide AllAccepted, AfterAll, IsHexAddress, HexToAddress, Delivered, Collectable;
    GainExactly(s, keccak, recover, token, ds);
  }

  lemma NoDeliveries(s: Settings, keccak: seq<byte> -> Word, recover: Recovery, token: Token)
    ensures AfterAll(s, keccak, recover, token, []) == token && token.used + UsedBy([]) == token.used
  {
    hide Execute;
    assert CallsOf([]) == [];
  }

  lemma UsedOneMore(ds: seq<Delivery>)
    requires ds != []
    ensures UsedBy(ds) == UsedBy(ds[..|ds| - 1]) + {KeyOf(ds[|ds| - 1])}
  {
    var front := ds[..|ds| - 1];
    assert forall i :: 0 <= i < |front| ==> front[i] == ds[i];
  }

  lemma CollectedOneMore(s: Settings, keccak: seq<byte> -> Word, recover: Recovery, token: Token, ds: seq<Delivery>,
                         merchant: Address)
    requires ds != []
    ensures var n, front := |ds| - 1, ds[..|ds| - 1];
            AllCollected(s, keccak, recover, token, ds, merchant) <==>
            && AllCollected(s, keccak, recover, token, front, merchant)
            && KeyOf(ds[n]) !in token.used + UsedBy(front)
            && Collectable(AfterAll(s, keccak, recover, token, front), ds[n], merchant)
  {
    hide AfterAll, Collectable, KeyOf;
    var n, front := |ds| - 1, ds[..|ds| - 1];
    assert forall i :: 0 <= i < n ==> front[i] == ds[i] && front[..i] == ds[..i];
    assert KeyOf(ds[n]) !in UsedBy(front) <==> forall j :: 0 <= j < n ==> KeyOf(ds[j]) != KeyOf(ds[n]);
  }

  // ----- the test payer's payment -----

  /** The authorization the test payer signs: valid from time zero. */
  function TestPayment(from: Address, payTo: string, cost: int, validBefore: int, nonce: Word): Authorization
    requires IsHexAddress(payTo)
  {
    Authorization(from, HexToAddress(payTo), cost, 0, validBefore, nonce)
  }

  /**
   * `raw` recovers the sender from the digest, and is in the form `crypto.Sign` gives: low s, and 0 or 1 at the
   * end.
   */
  predicate GenuineSignature(keccak: seq<byte> -> Word, recover: Recovery, d: Domain, a: Authorization, raw: Signature)
    requires Fits(a) && IsUint256(d.chainID)
  {
    && recover(Digest(keccak, d, a), raw) == Some(a.from)
    && raw[64] < 2
    && ValidValues(FromBytes(raw[..32]), FromBytes(raw[32..64]))
  }

  /**
   * The payment the test payer builds at time `issued` for a quoted `cost` is accepted exactly when the cost is
   * positive, the quoted address carries its 0x prefix and the server's clock is before the expiry; both sides must
   * use the same domain. `raw` is what `crypto.Sign` returned, `sig` what signEIP712 made of it.
   */
  lemma ClientPaymentAccepted(s: Settings, cost: int, now: int, issued: int, timeout: int, from: Address, nonce: Word,
                              upper: nat -> bool, keccak: seq<byte> -> Word, recover: Recovery, raw: Signature,
                              sig: Signature)
    requires IsHexAddress(s.payTo) && s.domain.name != [] && s.domain.version != [] && IsUint256(s.domain.chainID)
    requires var a := TestPayment(from, s.payTo, cost, issued + timeout, nonce);
             Fits(a) && GenuineSignature(keccak, recover, s.domain, a, raw)
    requires sig[..64] == raw[..64] && sig[64] == raw[64] + 27
    ensures var a := TestPayment(from, s.payTo, cost, issued + timeout, nonce);
            var payload := ExactPayload(EncodePrefixed(sig), Wire(a, s.payTo, upper));
            (exists call :: Accepted(s, payload, cost, now, keccak, recover, call))
            <==> cost > 0 && HasPrefix0x(s.payTo) && 0 <= now < issued + timeout
  {
    hide Digest, FromBytes, IsHexAddress, HexToAddress, Pow256, ValidValues, Decodes, Wire, DecodePrefixed;
    hide EncodePrefixed, Raw;
    var a := TestPayment(from, s.payTo, cost, issued + timeout, nonce);
    var payload := ExactPayload(EncodePrefixed(sig), Wire(a, s.payTo, upper));
    var call := Call(a, Split(raw[..32], raw[32..64], raw[64] + 27));
    forall b
      ensures Decodes(payload.authorization, b) <==> a == b && cost > 0 && 0 < issued + timeout
    {
      WireReadsBack(a, s.payTo, upper, b);
    }
    PrefixedReadsBack(sig);
    RawOfSigned(raw, sig);
    PayToReads(s.payTo);
    if cost > 0 && HasPrefix0x(s.payTo) && 0 <= now < issued + timeout {
      assert Encodable(a);
      assert Accepted(s, payload, cost, now, keccak, recover, call);
    }
  }

  lemma PrefixedReadsBack(b: seq<byte>)
    ensures DecodePrefixed(EncodePrefixed(b)) == Some(b)
  {
    DecodePrefixedExactly(EncodePrefixed(b), b);
    EncodeHexIsLower(b);
    assert forall i :: 0 <= i < |EncodeHex(b)| ==> LowerChar(EncodeHex(b)[i]) == ToLower(EncodeHex(b))[i];
  }

  lemma PayToReads(payTo: string)
    requires IsHexAddress(payTo)
    ensures DecodePrefixed(payTo) == if HasPrefix0x(payTo) then Some(HexToAddress(payTo)) else None
  {
    DecodesDigits(StripPrefix0x(payTo));
  }

  /** The server undoes the 27 the client added. */
  lemma RawOfSigned(raw: Signature, sig: Signature)
    requires raw[64] < 2 && sig[..64] == raw[..64] && sig[64] == raw[64] + 27
    ensures Raw(sig) == raw && raw == raw[..32] + raw[32..64] + [raw[64]]
  {
  }
}

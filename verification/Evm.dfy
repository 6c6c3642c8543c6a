/**
 * The EVM settler of internal/settler/settler.go: decoding an authorization, verifying its signature, and the checks
 * before it is submitted. Keccak, ecrecover and the contract call are parameters.
 */
module Evm {
  import opened Basics
  import opened Text
  import opened Hex
  import opened Abi
  import opened Eip712

  /** The authorization as it arrives: six texts. */
  datatype AuthorizationPayload = AuthorizationPayload(
    from: string, to: string, value: string, validAfter: string, validBefore: string, nonce: string)

  datatype Fault =
    | InvalidAddress
    | InvalidValue
    | NonPositiveValue
    | InvalidValidAfter
    | NegativeValidAfter
    | InvalidValidBefore
    | NonPositiveValidBefore
    | EmptyWindow
    | InvalidNonce

  /** The texts spell `a`, and `a` has a positive value and a window that is not empty. */
  ghost predicate Decodes(p: AuthorizationPayload, a: Authorization) {
    && IsHexAddress(p.from) && HexToAddress(p.from) == a.from
    && IsHexAddress(p.to) && HexToAddress(p.to) == a.to
    && ParseInt10(p.value) == Some(a.value) && a.value > 0
    && ParseInt10(p.validAfter) == Some(a.validAfter)
    && ParseInt10(p.validBefore) == Some(a.validBefore) && 0 <= a.validAfter < a.validBefore
    && DecodePrefixed(p.nonce) == Some(a.nonce)
  }

  /** What each fault says of the payload, by itself. */
  predicate Faulty(p: AuthorizationPayload, e: Fault) {
    var value, after, before := ParseInt10(p.value), ParseInt10(p.validAfter), ParseInt10(p.validBefore);
    match e
    case InvalidAddress => !IsHexAddress(p.from) || !IsHexAddress(p.to)
    case InvalidValue => value.None?
    case NonPositiveValue => value.Some? && value.value <= 0
    case InvalidValidAfter => after.None?
    case NegativeValidAfter => after.Some? && after.value < 0
    case InvalidValidBefore => before.None?
    case NonPositiveValidBefore => before.Some? && before.value <= 0
    case EmptyWindow => after.Some? && before.Some? && before.value <= after.value
    case InvalidNonce => DecodePrefixed(p.nonce).None? || |DecodePrefixed(p.nonce).value| != 32
  }

  /** The order in which the faults are looked for. */
  function Rank(e: Fault): nat {
    match e
    case InvalidAddress => 0
    case InvalidValue => 1
    case NonPositiveValue => 2
    case InvalidValidAfter => 3
    case NegativeValidAfter => 4
    case InvalidValidBefore => 5
    case NonPositiveValidBefore => 6
    case EmptyWindow => 7
    case InvalidNonce => 8
  }

  /** The payload has this fault, and none that is looked for before it. */
  predicate FirstFault(p: AuthorizationPayload, e: Fault) {
    Faulty(p, e) && forall other :: Rank(other) < Rank(e) ==> !Faulty(p, other)
  }

  /** A payload without a fault spells exactly one authorization; any other spells none and has one first fault. */
  lemma DecodesExactly(p: AuthorizationPayload)
    ensures (exists a :: Decodes(p, a)) <==> (forall e :: !Faulty(p, e))
    ensures forall a, b :: Decodes(p, a) && Decodes(p, b) ==> a == b
    ensures forall e, e' :: FirstFault(p, e) && FirstFault(p, e') ==> e == e'
  {
    hide IsHexAddress, HexToAddress, ParseInt10, DecodePrefixed;
    if forall e :: !Faulty(p, e) {
      assert !Faulty(p, InvalidAddress) && !Faulty(p, InvalidValue) && !Faulty(p, NonPositiveValue);
      assert !Faulty(p, InvalidValidAfter) && !Faulty(p, NegativeValidAfter) && !Faulty(p, InvalidValidBefore);
      assert !Faulty(p, EmptyWindow) && !Faulty(p, InvalidNonce);
      var a := Authorization(HexToAddress(p.from), HexToAddress(p.to), ParseInt10(p.value).value,
                             ParseInt10(p.validAfter).value, ParseInt10(p.validBefore).value,
                             DecodePrefixed(p.nonce).value);
      assert Decodes(p, a);
    }
  }

  /** DecodeAuthorization: the authorization the payload spells, or the first fault. */
  method DecodeAuthorization(p: AuthorizationPayload) returns (r: Result<Authorization, Fault>)
    ensures r.Success? ==> Decodes(p, r.value)
    ensures r.Failure? ==> FirstFault(p, r.error)
  {
    hide IsHexAddress, HexToAddress, ParseInt10, DecodePrefixed;
    if !IsHexAddress(p.from) || !IsHexAddress(p.to) {
      return Failure(InvalidAddress);
    }
    var auth := Authorization(HexToAddress(p.from), HexToAddress(p.to), 0, 0, 0, Zeros(32));
    var parsed := ParseInt10(p.value);
    if parsed.None? {
      return Failure(InvalidValue);
    }
    auth := auth.(value := parsed.value);
    if auth.value <= 0 {
      return Failure(NonPositiveValue);
    }
    parsed := ParseInt10(p.validAfter);
    if parsed.None? {
      return Failure(InvalidValidAfter);
    }
    auth := auth.(validAfter := parsed.value);
    if auth.validAfter < 0 {
      return Failure(NegativeValidAfter);
    }
    parsed := ParseInt10(p.validBefore);
    if parsed.None? {
      return Failure(InvalidValidBefore);
    }
    auth := auth.(validBefore := parsed.value);
    if auth.validBefore <= 0 {
      return Failure(NonPositiveValidBefore);
    }
    if auth.validBefore <= auth.validAfter {
      return Failure(EmptyWindow);
    }
    var nonce := DecodePrefixed(p.nonce);
    if nonce.None? || |nonce.value| != 32 {
      return Failure(InvalidNonce);
    }
    auth := auth.(nonce := nonce.value);
    r := Success(auth);
  }

  /** The payload the client writes for `a`; the recipient keeps the spelling the server quoted. */
  function Wire(a: Authorization, to: string, upper: nat -> bool): AuthorizationPayload {
    AuthorizationPayload(AddressHex(a.from, upper), to, DecimalInt(a.value), DecimalInt(a.validAfter),
                         DecimalInt(a.validBefore), EncodePrefixed(a.nonce))
  }

  /** What the client writes, the server reads back as the same authorization, or not at all. */
  lemma WireReadsBack(a: Authorization, to: string, upper: nat -> bool, b: Authorization)
    requires IsHexAddress(to) && HexToAddress(to) == a.to
    ensures Decodes(Wire(a, to, upper), b) <==> a == b && a.value > 0 && 0 <= a.validAfter < a.validBefore
  {
    AddressHexReads(a.from, upper);
    ParsePrintedInt(a.value);
    ParsePrintedInt(a.validAfter);
    ParsePrintedInt(a.validBefore);
    EncodeHexIsLower(a.nonce);
    assert ToLower(EncodePrefixed(a.nonce)) == EncodePrefixed(a.nonce) by {
      assert forall i :: 0 <= i < 64 ==> LowerChar(EncodeHex(a.nonce)[i]) == ToLower(EncodeHex(a.nonce))[i];
    }
    DecodePrefixedExactly(EncodePrefixed(a.nonce), a.nonce);
  }

  // ----- signatures -----

  /** The server's digest: the typed-data library refuses numbers outside uint256 and absent domain texts. */
  function TypedDigest(keccak: seq<byte> -> Word, d: Domain, a: Authorization): Option<Word> {
    if IsUint256(d.chainID) && d.name != [] && d.version != [] && Encodable(a) then Some(Digest(keccak, d, a)) else None
  }

  function RecoveryID(v: byte): byte {
    if v >= 27 then v - 27 else v
  }

  /** The signature with its recovery byte counted from zero, as ecrecover takes it. */
  function Raw(signature: Signature): Signature {
    signature[..64] + [RecoveryID(signature[64])]
  }

  type Recovery = (Word, Signature) -> Option<Address>

  predicate SignedBy(keccak: seq<byte> -> Word, recover: Recovery, d: Domain, a: Authorization, signature: Signature) {
    TypedDigest(keccak, d, a).Some? && recover(TypedDigest(keccak, d, a).value, Raw(signature)) == Some(a.from)
  }

  datatype VerifyFault = WrongLength | NoDigest | NotRecoverable | WrongSigner

  /** When VerifyEIP712 gives each answer; at most one of them applies. */
  predicate VerifyFaulty(keccak: seq<byte> -> Word, recover: Recovery, d: Domain, a: Authorization,
                         signature: seq<byte>, e: VerifyFault)
  {
    if |signature| != 65 then e == WrongLength
    else if TypedDigest(keccak, d, a).None? then e == NoDigest
    else
      match recover(TypedDigest(keccak, d, a).value, Raw(signature))
      case None => e == NotRecoverable
      case Some(signer) => e == WrongSigner && signer != a.from
  }

  /** VerifyEIP712: succeeds exactly on 65 bytes from which the digest recovers the sender. */
  method VerifyEIP712(keccak: seq<byte> -> Word, recover: Recovery, d: Domain, auth: Authorization,
                      signature: seq<byte>)
    returns (r: Result<Address, VerifyFault>)
    ensures r.Success? <==> |signature| == 65 && SignedBy(keccak, recover, d, auth, signature)
    ensures r.Success? ==> r.value == auth.from
    ensures forall e :: r == Failure(e) <==> VerifyFaulty(keccak, recover, d, auth, signature, e)
  {
    hide Digest, IsUint256, Encodable;
    if |signature| != 65 {
      return Failure(WrongLength);
    }
    var digest := TypedDigest(keccak, d, auth);
    if digest.None? {
      return Failure(NoDigest);
    }
    var sig := new byte[65](i requires 0 <= i < 65 => signature[i]);
    if sig[64] >= 27 {
      sig[64] := sig[64] - 27;
    }
    assert sig[..] == Raw(signature);
    var recovered := recover(digest.value, sig[..]);
    if recovered.None? {
      return Failure(NotRecoverable);
    }
    if recovered.value != auth.from {
      return Failure(WrongSigner);
    }
    r := Success(recovered.value);
  }

  /** The order of the secp256k1 group. */
  const SECP256K1_N: nat := 0xFFFFFFFF_FFFFFFFF_FFFFFFFF_FFFFFFFE_BAAEDCE6_AF48A03B_BFD25E8C_D0364141

  /** `crypto.ValidateSignatureValues` with the homestead rule: both in range, and s in the lower half. */
  predicate ValidValues(r: nat, s: nat) {
    1 <= r < SECP256K1_N && 1 <= s <= SECP256K1_N / 2
  }

  /** Of the two signatures that differ in the sign of s exactly one is in the accepted form. */
  lemma OneFormOnly(r: nat, s: nat)
    requires 1 <= r < SECP256K1_N && 1 <= s < SECP256K1_N
    ensures ValidValues(r, s) <==> !ValidValues(r, SECP256K1_N - s)
  {
  }

  /** The signature as the contract takes it. */
  datatype Split = Split(r: Word, s: Word, v: byte)

  /** `split` and the signature are the same bytes, with v counted from 27 and in the low-s form. */
  predicate Splits(signature: Signature, split: Split) {
    && split.v in {27, 28}
    && split.r + split.s + [split.v - 27] == Raw(signature)
    && ValidValues(FromBytes(split.r), FromBytes(split.s))
  }

  datatype SplitFault = BadLength | BadRecoveryID | BadValues

  /** When splitSignature gives each answer; at most one of them applies. */
  predicate SplitFaulty(signature: seq<byte>, e: SplitFault) {
    if |signature| != 65 then e == BadLength
    else if signature[64] !in {0, 1, 27, 28} then e == BadRecoveryID
    else e == BadValues && !ValidValues(FromBytes(signature[..32]), FromBytes(signature[32..64]))
  }

  /** splitSignature: succeeds exactly when a split exists, and then returns it. */
  method SplitSignature(signature: seq<byte>) returns (result: Result<Split, SplitFault>)
    ensures result.Success? ==> |signature| == 65 && Splits(signature, result.value)
    ensures result.Failure? && |signature| == 65 ==> forall split :: !Splits(signature, split)
    ensures forall e :: result == Failure(e) <==> SplitFaulty(signature, e)
  {
    hide FromBytes;
    if |signature| != 65 {
      return Failure(BadLength);
    }
    var r := new byte[32](i requires 0 <= i < 32 => signature[i]);
    var s := new byte[32](i requires 0 <= i < 32 => signature[32 + i]);
    var v := signature[64];
    var recoveryID := v;
    if v < 27 {
      v := v + 27;
    } else {
      recoveryID := v - 27;
    }
    if recoveryID > 1 {
      assert Raw(signature)[64] == recoveryID;
      return Failure(BadRecoveryID);
    }
    assert r[..] == signature[..32] && s[..] == signature[32..64];
    if !ValidValues(FromBytes(r[..]), FromBytes(s[..])) {
      forall split: Split | split.v in {27, 28} && split.r + split.s + [split.v - 27] == Raw(signature)
        ensures split.r == r[..] && split.s == s[..]
      {
        SplitParts(split, signature);
      }
      return Failure(BadValues);
    }
    result := Success(Split(r[..], s[..], v));
  }

  lemma SplitParts(split: Split, signature: Signature)
    requires split.v >= 27 && split.r + split.s + [split.v - 27] == Raw(signature)
    ensures split.r == signature[..32] && split.s == signature[32..64] && split.v == RecoveryID(signature[64]) + 27
  {
    var raw := split.r + split.s + [split.v - 27];
    assert raw[..32] == split.r && raw[32..64] == split.s && raw[64] == split.v - 27;
    assert Raw(signature)[..32] == signature[..32] && Raw(signature)[32..64] == signature[32..64];
  }

  // ----- settlement -----

  datatype Settings = Settings(payTo: string, domain: Domain, dryRun: bool)

  datatype ExactPayload = ExactPayload(signature: string, authorization: AuthorizationPayload)

  /** The arguments of the contract call. */
  datatype Call = Call(auth: Authorization, split: Split)

  datatype Settlement = Settlement(txHash: string, payer: string)

  datatype SettleFault =
    | BadPayload
    | BadAuthorization(fault: Fault)
    | AmountMismatch
    | PayToMismatch
    | NotYetValid
    | Expired
    | BadSignatureEncoding
    | BadSignature(verify: VerifyFault)
    | BadSplit(split: SplitFault)
    | SubmitFailed

  /** `payload` pays `cost` to the configured address at time `now`, by the call `call`. */
  ghost predicate Accepted(s: Settings, payload: ExactPayload, cost: int, now: int,
                           keccak: seq<byte> -> Word, recover: Recovery, call: Call) {
    && Decodes(payload.authorization, call.auth)
    && call.auth.value == cost
    && DecodePrefixed(s.payTo) == Some(call.auth.to)
    && call.auth.validAfter <= now < call.auth.validBefore
    && var signature := DecodePrefixed(payload.signature);
       && signature.Some? && |signature.value| == 65
       && SignedBy(keccak, recover, s.domain, call.auth, signature.value)
       && Splits(signature.value, call.split)
  }

  /** What each refusal of a decoded authorization says, by itself. */
  ghost predicate SettleFaulty(s: Settings, payload: ExactPayload, a: Authorization, cost: int, now: int,
                               keccak: seq<byte> -> Word, recover: Recovery, e: SettleFault)
  {
    var signature := DecodePrefixed(payload.signature);
    match e
    case AmountMismatch => a.value != cost
    case PayToMismatch => DecodePrefixed(s.payTo) != Some(a.to)
    case NotYetValid => a.validAfter > now
    case Expired => a.validBefore <= now
    case BadSignatureEncoding => signature.None?
    case BadSignature(v) => signature.Some? && VerifyFaulty(keccak, recover, s.domain, a, signature.value, v)
    case BadSplit(f) => signature.Some? && SplitFaulty(signature.value, f)
    case _ => false
  }

  /** The order of the checks. */
  function SettleRank(e: SettleFault): nat {
    match e
    case BadPayload => 0
    case BadAuthorization(_) => 1
    case AmountMismatch => 2
    case PayToMismatch => 3
    case NotYetValid => 4
    case Expired => 5
    case BadSignatureEncoding => 6
    case BadSignature(_) => 7
    case BadSplit(_) => 8
    case SubmitFailed => 9
  }

  /** The authorization is refused for this, and for nothing that is checked before it. */
  ghost predicate FirstSettleFault(s: Settings, payload: ExactPayload, a: Authorization, cost: int, now: int,
                                   keccak: seq<byte> -> Word, recover: Recovery, e: SettleFault)
  {
    && SettleFaulty(s, payload, a, cost, now, keccak, recover, e)
    && forall other :: SettleRank(other) < SettleRank(e) ==>
         !SettleFaulty(s, payload, a, cost, now, keccak, recover, other)
  }

  lemma DecodedExactly(p: AuthorizationPayload, decoded: Result<Authorization, Fault>)
    requires decoded.Success? ==> Decodes(p, decoded.value)
    requires decoded.Failure? ==> FirstFault(p, decoded.error)
    ensures forall a :: Decodes(p, a) <==> decoded == Success(a)
    ensures forall f :: FirstFault(p, f) <==> decoded == Failure(f)
  {
    DecodesExactly(p);
    hide Decodes, Faulty;
  }

  /**
   * Settle: succeeds exactly when the payload is accepted and, outside a dry run, the call is submitted without
   * error. `accepted` is the accepted call, if there is one.
   */
  method Settle(s: Settings, payload: Option<ExactPayload>, cost: int, now: int, casing: Address -> nat -> bool,
                keccak: seq<byte> -> Word, recover: Recovery, transact: Call -> Option<string>)
    returns (r: Result<Settlement, SettleFault>, ghost accepted: Option<Call>)
    ensures accepted.Some? ==> payload.Some? && Accepted(s, payload.value, cost, now, keccak, recover, accepted.value)
    ensures accepted.None? && payload.Some? ==>
              forall call :: !Accepted(s, payload.value, cost, now, keccak, recover, call)
    ensures r.Success? <==> accepted.Some? && (s.dryRun || transact(accepted.value).Some?)
    ensures r.Success? ==>
              && r.value.payer == AddressHex(accepted.value.auth.from, casing(accepted.value.auth.from))
              && r.value.txHash == if s.dryRun then "0xDRYRUN" + EncodeHex(accepted.value.auth.nonce[..30])
                                   else transact(accepted.value).value
    ensures r == Failure(SubmitFailed) <==> accepted.Some? && r.Failure?
    ensures r == Failure(BadPayload) <==> payload.None?
    ensures payload.Some? ==>
              forall f :: r == Failure(BadAuthorization(f)) <==> FirstFault(payload.value.authorization, f)
    ensures payload.Some? && r.Failure? && r.error != SubmitFailed ==>
              forall a :: Decodes(payload.value.authorization, a) ==>
                FirstSettleFault(s, payload.value, a, cost, now, keccak, recover, r.error)
  {
    hide Decodes, FirstFault, DecodePrefixed, SignedBy, Splits, VerifyFaulty, SplitFaulty, IsHexAddress;
    hide HexToAddress, AddressHex, ToLower, EncodePrefixed;
    hide EncodeHex, FromBytes, Raw, TypedDigest, Digest, ParseInt10, Rank, ValidValues, Encodable, IsUint256;
    accepted := None;
    if payload.None? {
      return Failure(BadPayload), None;
    }
    var p := payload.value;
    var decoded := DecodeAuthorization(p.authorization);
    DecodedExactly(p.authorization, decoded);
    if decoded.Failure? {
      return Failure(BadAuthorization(decoded.error)), None;
    }
    var auth := decoded.value;
    if auth.value != cost {
      return Failure(AmountMismatch), None;
    }
    DecodePrefixedExactly(s.payTo, auth.to);
    AddressHexLower(auth.to, casing(auth.to));
    if !EqualFold(AddressHex(auth.to, casing(auth.to)), s.payTo) {
      return Failure(PayToMismatch), None;
    }
    if auth.validAfter > now {
      return Failure(NotYetValid), None;
    }
    if auth.validBefore <= now {
      return Failure(Expired), None;
    }
    var sig := DecodePrefixed(p.signature);
    if sig.None? {
      return Failure(BadSignatureEncoding), None;
    }
    var signer := VerifyEIP712(keccak, recover, s.domain, auth, sig.value);
    if signer.Failure? {
      return Failure(BadSignature(signer.error)), None;
    }
    var split := SplitSignature(sig.value);
    if split.Failure? {
      return Failure(BadSplit(split.error)), None;
    }
    accepted := Some(Call(auth, split.value));
    if s.dryRun {
      var dryHash := "0xDRYRUN" + EncodeHex(auth.nonce[..30]);
      return Success(Settlement(dryHash, AddressHex(signer.value, casing(signer.value)))), accepted;
    }
    var hash := transact(Call(auth, split.value));
    if hash.None? {
      return Failure(SubmitFailed), accepted;
    }
    r := Success(Settlement(hash.value, AddressHex(signer.value, casing(signer.value))));
  }
}

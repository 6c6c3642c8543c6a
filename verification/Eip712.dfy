/**
 * The EIP-712 digest of an EIP-3009 TransferWithAuthorization, and the test payer's signEIP712
 * (cmd/testpay/main.go). Keccak-256 and the signing function are parameters.
 */
module Eip712 {
  import opened Basics
  import opened Hex
  import opened Abi

  datatype Authorization = Authorization(
    from: Address, to: Address, value: int, validAfter: int, validBefore: int, nonce: Word)

  /** The signing domain; `name` and `version` are the bytes of the configured texts. */
  datatype Domain = Domain(name: seq<byte>, version: seq<byte>, chainID: int, token: Address)

  /** A 65-byte signature: r, s and the recovery byte. */
  type Signature = b: seq<byte> | |b| == 65 witness Zeros(65)

  predicate IsUint256(n: int) {
    0 <= n < Pow256(32)
  }

  /** Every number fits a word, whatever its sign: beyond this the client's padding panics. */
  predicate Fits(a: Authorization) {
    Magnitude(a.value) < Pow256(32) && Magnitude(a.validAfter) < Pow256(32) && Magnitude(a.validBefore) < Pow256(32)
  }

  /** Every number is a uint256: outside this range the server's typed-data library refuses to hash. */
  predicate Encodable(a: Authorization) {
    IsUint256(a.value) && IsUint256(a.validAfter) && IsUint256(a.validBefore)
  }

  // ----- type strings -----

  const TRANSFER_TYPE: string :=
    "TransferWithAuthorization(address from,address to,uint256 value,"
    + "uint256 validAfter,uint256 validBefore,bytes32 nonce)"

  const DOMAIN_TYPE: string := "EIP712Domain(string name,string version,uint256 chainId,address verifyingContract)"

  /** The bytes of an ASCII text. */
  function Ascii(s: string): (b: seq<byte>)
    ensures |b| == |s| && forall i :: 0 <= i < |s| && s[i] as int < 256 ==> b[i] as int == s[i] as int
  {
    seq(|s|, i requires 0 <= i < |s| => (s[i] as int % 256) as byte)
  }

  // ----- struct encoding -----

  /** encodeData of EIP-712 after the type hash: seven words in all. */
  function StructWords(typeHash: Word, a: Authorization): seq<Word>
    requires Fits(a)
  {
    [typeHash, AddressWord(a.from), AddressWord(a.to),
     NumberWord(a.value), NumberWord(a.validAfter), NumberWord(a.validBefore), a.nonce]
  }

  function DomainWords(typeHash: Word, nameHash: Word, versionHash: Word, chainID: int, token: Address): seq<Word>
    requires Magnitude(chainID) < Pow256(32)
  {
    [typeHash, nameHash, versionHash, NumberWord(chainID), AddressWord(token)]
  }

  function DecodeStruct(b: seq<byte>): Authorization
    requires |b| == 224
  {
    Authorization(WordAt(b, 1)[12..], WordAt(b, 2)[12..], FromBytes(WordAt(b, 3)), FromBytes(WordAt(b, 4)),
                  FromBytes(WordAt(b, 5)), WordAt(b, 6))
  }

  /** The 224 bytes read back as the authorization exactly when its numbers are uint256s: a sign is lost. */
  lemma StructReadsBack(typeHash: Word, a: Authorization)
    requires Fits(a)
    ensures WordAt(Join(StructWords(typeHash, a)), 0) == typeHash
    ensures DecodeStruct(Join(StructWords(typeHash, a))) == a <==> Encodable(a)
  {
    hide Join, FromBytes, Pow256, MinimalBytes;
    var words := StructWords(typeHash, a);
    JoinSplits(words, 0);
    JoinSplits(words, 1);
    JoinSplits(words, 2);
    JoinSplits(words, 3);
    JoinSplits(words, 4);
    JoinSplits(words, 5);
    JoinSplits(words, 6);
    assert AddressWord(a.from)[12..] == a.from && AddressWord(a.to)[12..] == a.to;
  }

  /** The struct encoding is injective over authorizations with uint256 fields. */
  lemma StructInjective(typeHash: Word, a: Authorization, typeHash': Word, a': Authorization)
    requires Encodable(a) && Encodable(a')
    ensures Join(StructWords(typeHash, a)) == Join(StructWords(typeHash', a')) <==> typeHash == typeHash' && a == a'
  {
    StructReadsBack(typeHash, a);
    StructReadsBack(typeHash', a');
  }

  lemma DomainInjective(t: Word, n: Word, v: Word, chain: int, token: Address,
                        t': Word, n': Word, v': Word, chain': int, token': Address)
    requires IsUint256(chain) && IsUint256(chain')
    ensures Join(DomainWords(t, n, v, chain, token)) == Join(DomainWords(t', n', v', chain', token'))
            <==> t == t' && n == n' && v == v' && chain == chain' && token == token'
  {
    hide Join, FromBytes, Pow256, MinimalBytes;
    var words, words' := DomainWords(t, n, v, chain, token), DomainWords(t', n', v', chain', token');
    JoinInjective(words, words');
    NumberWordsDiffer(chain, chain');
    assert AddressWord(token)[12..] == token && AddressWord(token')[12..] == token';
    if words == words' {
      assert words[0] == words'[0] && words[1] == words'[1] && words[2] == words'[2];
      assert words[3] == words'[3] && words[4] == words'[4];
    }
  }

  // ----- the digest -----

  function DomainBytes(keccak: seq<byte> -> Word, d: Domain): seq<byte>
    requires Magnitude(d.chainID) < Pow256(32)
  {
    Join(DomainWords(keccak(Ascii(DOMAIN_TYPE)), keccak(d.name), keccak(d.version), d.chainID, d.token))
  }

  function StructBytes(keccak: seq<byte> -> Word, a: Authorization): seq<byte>
    requires Fits(a)
  {
    Join(StructWords(keccak(Ascii(TRANSFER_TYPE)), a))
  }

  function SigningBytes(keccak: seq<byte> -> Word, d: Domain, a: Authorization): seq<byte>
    requires Magnitude(d.chainID) < Pow256(32) && Fits(a)
  {
    [0x19, 0x01] + keccak(DomainBytes(keccak, d)) + keccak(StructBytes(keccak, a))
  }

  /** What is signed. */
  function Digest(keccak: seq<byte> -> Word, d: Domain, a: Authorization): Word
    requires Magnitude(d.chainID) < Pow256(32) && Fits(a)
  {
    keccak(SigningBytes(keccak, d, a))
  }

  /** The domain word by word: type, name, version, chain and token, in the order of EIP712Domain. */
  lemma DomainReadsBack(keccak: seq<byte> -> Word, d: Domain)
    requires IsUint256(d.chainID)
    ensures var b := DomainBytes(keccak, d);
            && |b| == 160
            && WordAt(b, 0) == keccak(Ascii(DOMAIN_TYPE))
            && WordAt(b, 1) == keccak(d.name) && WordAt(b, 2) == keccak(d.version)
            && FromBytes(WordAt(b, 3)) == d.chainID
            && WordAt(b, 4)[..12] == Zeros(12) && WordAt(b, 4)[12..] == d.token
  {
    hide Join, FromBytes, Pow256, MinimalBytes;
    var words := DomainWords(keccak(Ascii(DOMAIN_TYPE)), keccak(d.name), keccak(d.version), d.chainID, d.token);
    JoinSplits(words, 0);
    JoinSplits(words, 1);
    JoinSplits(words, 2);
    JoinSplits(words, 3);
    JoinSplits(words, 4);
    assert AddressWord(d.token)[..12] == Zeros(12) && AddressWord(d.token)[12..] == d.token;
  }

  /** What is hashed last: the two prefix bytes, the hash of the domain, and the hash of the struct. */
  lemma SigningLayout(keccak: seq<byte> -> Word, d: Domain, a: Authorization)
    requires IsUint256(d.chainID) && Fits(a)
    ensures var b := SigningBytes(keccak, d, a);
            && |b| == 66 && b[0] == 0x19 && b[1] == 0x01
            && b[2..34] == keccak(DomainBytes(keccak, d)) && b[34..] == keccak(StructBytes(keccak, a))
            && WordAt(StructBytes(keccak, a), 0) == keccak(Ascii(TRANSFER_TYPE))
  {
    StructReadsBack(keccak(Ascii(TRANSFER_TYPE)), a);
    hide DomainBytes, Pow256, DecodeStruct, Encodable;
  }

  /** The messages hashed on the way to a digest, apart from the two fixed type strings. */
  function Hashed(keccak: seq<byte> -> Word, d: Domain, a: Authorization): set<seq<byte>>
    requires Magnitude(d.chainID) < Pow256(32) && Fits(a)
  {
    {SigningBytes(keccak, d, a), DomainBytes(keccak, d), StructBytes(keccak, a), d.name, d.version}
  }

  ghost predicate CollisionFree(keccak: seq<byte> -> Word, messages: set<seq<byte>>) {
    forall x, y :: x in messages && y in messages && keccak(x) == keccak(y) ==> x == y
  }

  /**
   * A signature binds every field: unless Keccak collides on one of the ten messages involved, two digests agree
   * exactly when the domains and the authorizations do.
   */
  lemma DigestBinds(keccak: seq<byte> -> Word, d: Domain, a: Authorization, d': Domain, a': Authorization)
    requires IsUint256(d.chainID) && IsUint256(d'.chainID) && Encodable(a) && Encodable(a')
    requires CollisionFree(keccak, Hashed(keccak, d, a) + Hashed(keccak, d', a'))
    ensures Digest(keccak, d, a) == Digest(keccak, d', a') <==> d == d' && a == a'
  {
    var s, s' := SigningBytes(keccak, d, a), SigningBytes(keccak, d', a');
    if keccak(s) == keccak(s') {
      var messages := Hashed(keccak, d, a) + Hashed(keccak, d', a');
      assert s in messages && s' in messages;
      assert s[2..34] == keccak(DomainBytes(keccak, d)) && s'[2..34] == keccak(DomainBytes(keccak, d'));
      assert s[34..] == keccak(StructBytes(keccak, a)) && s'[34..] == keccak(StructBytes(keccak, a'));
      assert DomainBytes(keccak, d) in messages && DomainBytes(keccak, d') in messages;
      assert StructBytes(keccak, a) in messages && StructBytes(keccak, a') in messages;
      hide Join, StructWords, DomainWords, Pow256;
      StructInjective(keccak(Ascii(TRANSFER_TYPE)), a, keccak(Ascii(TRANSFER_TYPE)), a');
      DomainInjective(keccak(Ascii(DOMAIN_TYPE)), keccak(d.name), keccak(d.version), d.chainID, d.token,
                      keccak(Ascii(DOMAIN_TYPE)), keccak(d'.name), keccak(d'.version), d'.chainID, d'.token);
      assert d.name in messages && d'.name in messages && d.version in messages && d'.version in messages;
    }
  }

  // ----- the client -----

  /** `copy` into a 32-byte array: cut at 32 bytes, filled up with zeros. */
  function NonceWord(nonce: seq<byte>): (w: Word)
    ensures |nonce| == 32 ==> w == nonce
    ensures |nonce| < 32 ==> w[..|nonce|] == nonce && w[|nonce|..] == Zeros(32 - |nonce|)
    ensures |nonce| > 32 ==> w == nonce[..32]
  {
    (nonce + Zeros(32))[..32]
  }

  /** The domain separator of signEIP712. */
  method HashDomain(keccak: seq<byte> -> Word, d: Domain) returns (separator: Word)
    requires Magnitude(d.chainID) < Pow256(32)
    ensures separator == keccak(DomainBytes(keccak, d))
  {
    hide Pow256, FromBytes, MinimalBytes, Join;
    var chainWord := PaddedBig(d.chainID);
    var tokenWord := PaddedAddr(d.token);
    ghost var words := DomainWords(keccak(Ascii(DOMAIN_TYPE)), keccak(d.name), keccak(d.version), d.chainID, d.token);
    var parts := [keccak(Ascii(DOMAIN_TYPE)), keccak(d.name), keccak(d.version), chainWord, tokenWord];
    PaddedWords(words);
    assert parts == words;
    var encoded := EncodeABI(parts);
    separator := keccak(encoded);
  }

  /** The message hash of signEIP712, for an authorization valid from time zero. */
  method HashMessage(keccak: seq<byte> -> Word, from: Address, to: Address, value: int, validBefore: int,
                     nonce: seq<byte>)
    returns (hash: Word)
    requires Magnitude(value) < Pow256(32) && Magnitude(validBefore) < Pow256(32)
    ensures hash == keccak(StructBytes(keccak, Authorization(from, to, value, 0, validBefore, NonceWord(nonce))))
  {
    hide FromBytes, MinimalBytes, Join;
    var nonce32 := new byte[32](_ => 0);
    forall i | 0 <= i < |nonce| && i < 32 {
      nonce32[i] := nonce[i];
    }
    assert nonce32[..] == NonceWord(nonce);
    var fromWord := PaddedAddr(from);
    var toWord := PaddedAddr(to);
    var valueWord := PaddedBig(value);
    var afterWord := PaddedBig(0);
    var beforeWord := PaddedBig(validBefore);
    ghost var a := Authorization(from, to, value, 0, validBefore, NonceWord(nonce));
    ghost var words := StructWords(keccak(Ascii(TRANSFER_TYPE)), a);
    var parts := [keccak(Ascii(TRANSFER_TYPE)), fromWord, toWord, valueWord, afterWord, beforeWord, nonce32[..]];
    PaddedWords(words);
    assert parts == words;
    var encoded := EncodeABI(parts);
    hash := keccak(encoded);
  }

  /**
   * signEIP712. The client fixes validAfter at zero; `sign` is `crypto.Sign`, whose recovery byte it raises by 27,
   * as a uint8.
   */
  method SignEIP712(keccak: seq<byte> -> Word, sign: Word -> Option<Signature>, d: Domain, from: Address, to: Address,
                    value: int, validBefore: int, nonce: seq<byte>) returns (r: Option<Signature>)
    requires Magnitude(d.chainID) < Pow256(32) && Magnitude(value) < Pow256(32) && Magnitude(validBefore) < Pow256(32)
    ensures var raw := sign(Digest(keccak, d, Authorization(from, to, value, 0, validBefore, NonceWord(nonce))));
            && (r.Some? <==> raw.Some?)
            && (r.Some? ==> r.value[..64] == raw.value[..64]
                            && r.value[64] as int == (raw.value[64] as int + 27) % 256)
  {
    hide DomainBytes, StructBytes, Pow256;
    var domainSep := HashDomain(keccak, d);
    var msgHash := HashMessage(keccak, from, to, value, validBefore, nonce);
    var digest := keccak([0x19, 0x01] + domainSep + msgHash);
    var raw := sign(digest);
    if raw.None? {
      return None;
    }
    var sig := new byte[65](i requires 0 <= i < 65 => raw.value[i]);
    sig[64] := ((sig[64] as int + 27) % 256) as byte;
    r := Some(sig[..]);
  }
}

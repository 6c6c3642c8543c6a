/** Hexadecimal text, as go-ethereum's `common` and `hexutil` read and write it for the settler. */
module Hex {
  import opened Basics
  import opened Text

  function Zeros(n: nat): (z: seq<byte>)
    ensures |z| == n && forall i :: 0 <= i < n ==> z[i] == 0
  {
    seq(n, _ => 0)
  }

  /** `common.Address`, an array of 20 bytes. */
  type Address = b: seq<byte> | |b| == 20 witness Zeros(20)

  predicate IsHexDigit(c: char) {
    IsDigit(c) || 'a' <= c <= 'f' || 'A' <= c <= 'F'
  }

  predicate AllHexDigits(s: string) {
    forall i :: 0 <= i < |s| ==> IsHexDigit(s[i])
  }

  function HexValue(c: char): (d: nat)
    requires IsHexDigit(c)
    ensures d < 16
  {
    if IsDigit(c) then DigitValue(c) else LowerChar(c) as int - 'a' as int + 10
  }

  function HexDigit(d: nat): (c: char)
    requires d < 16
    ensures IsHexDigit(c) && HexValue(c) == d && LowerChar(c) == c
  {
    if d < 10 then Digit(d) else ('a' as int + d - 10) as char
  }

  /** `common.Bytes2Hex`: two lower-case digits a byte. */
  function EncodeHex(b: seq<byte>): (s: string)
    ensures |s| == 2 * |b|
  {
    if b == [] then "" else [HexDigit(b[0] as int / 16), HexDigit(b[0] as int % 16)] + EncodeHex(b[1..])
  }

  /** `hex.DecodeString`: an even number of digits of either case. */
  function DecodeHex(s: string): Option<seq<byte>> {
    if s == "" then Some([])
    else if |s| == 1 || !IsHexDigit(s[0]) || !IsHexDigit(s[1]) then None
    else
      match DecodeHex(s[2..])
      case None => None
      case Some(rest) => Some([(16 * HexValue(s[0]) + HexValue(s[1])) as byte] + rest)
  }

  /** Decoding inverts encoding, and reads exactly the texts that are some casing of an encoding. */
  lemma {:induction false} DecodeHexExactly(s: string, b: seq<byte>)
    ensures DecodeHex(s) == Some(b) <==> ToLower(s) == EncodeHex(b)
    decreases |s|
  {
    if |s| < 2 || b == [] {
      assert |ToLower(s)| == |s| && |EncodeHex(b)| == 2 * |b|;
    } else {
      var e, high, low := EncodeHex(b), b[0] as int / 16, b[0] as int % 16;
      DecodeHexExactly(s[2..], b[1..]);
      LowerHexDigit(s[0], high);
      LowerHexDigit(s[1], low);
      assert e == [HexDigit(high), HexDigit(low)] + EncodeHex(b[1..]);
      assert ToLower(s) == [LowerChar(s[0]), LowerChar(s[1])] + ToLower(s[2..]);
      assert ToLower(s) == e <==>
             && LowerChar(s[0]) == HexDigit(high) && LowerChar(s[1]) == HexDigit(low)
             && ToLower(s[2..]) == EncodeHex(b[1..]) by {
        SplitPairs(LowerChar(s[0]), LowerChar(s[1]), ToLower(s[2..]), HexDigit(high), HexDigit(low), EncodeHex(b[1..]));
      }
      DecodeHexSteps(s, b);
    }
  }

  lemma SplitPairs(a: char, b: char, rest: string, a': char, b': char, rest': string)
    ensures [a, b] + rest == [a', b'] + rest' <==> a == a' && b == b' && rest == rest'
  {
    var s, s' := [a, b] + rest, [a', b'] + rest';
    assert s[0] == a && s[1] == b && s[2..] == rest;
    assert s'[0] == a' && s'[1] == b' && s'[2..] == rest';
  }

  lemma DecodeHexSteps(s: string, b: seq<byte>)
    requires |s| >= 2 && b != []
    ensures DecodeHex(s) == Some(b) <==>
            && IsHexDigit(s[0]) && HexValue(s[0]) == b[0] as int / 16
            && IsHexDigit(s[1]) && HexValue(s[1]) == b[0] as int % 16
            && DecodeHex(s[2..]) == Some(b[1..])
  {
    assert b == [b[0]] + b[1..];
    if IsHexDigit(s[0]) && IsHexDigit(s[1]) && DecodeHex(s[2..]).Some? {
      var read := (16 * HexValue(s[0]) + HexValue(s[1])) as byte;
      var rest := DecodeHex(s[2..]).value;
      assert ([read] + rest)[0] == read && ([read] + rest)[1..] == rest;
    }
  }

  lemma LowerHexDigit(c: char, d: nat)
    requires d < 16
    ensures IsHexDigit(c) && HexValue(c) == d <==> LowerChar(c) == HexDigit(d)
  {
  }

  lemma {:induction false} DecodesDigits(s: string)
    ensures DecodeHex(s).Some? <==> |s| % 2 == 0 && AllHexDigits(s)
    ensures DecodeHex(s).Some? ==> 2 * |DecodeHex(s).value| == |s|
    decreases |s|
  {
    if |s| < 2 {
    } else {
      DecodesDigits(s[2..]);
      assert AllHexDigits(s) <==> IsHexDigit(s[0]) && IsHexDigit(s[1]) && AllHexDigits(s[2..]) by {
        assert forall i :: 2 <= i < |s| ==> s[i] == s[2..][i - 2];
      }
    }
  }

  /** The number a hexadecimal text spells. */
  function HexNumber(s: string): nat
    requires AllHexDigits(s)
  {
    if s == "" then 0 else 16 * HexNumber(s[..|s| - 1]) + HexValue(s[|s| - 1])
  }

  /** The text of one byte spells that byte, high digit first, in the usual alphabet. */
  lemma ByteText(b: byte)
    ensures AllHexDigits(EncodeHex([b])) && HexNumber(EncodeHex([b])) == b as int
    ensures EncodeHex([b]) == ["0123456789abcdef"[b as int / 16], "0123456789abcdef"[b as int % 16]]
  {
    var s := EncodeHex([b]);
    assert [b][1..] == [];
    HexAlphabet(b as int / 16);
    HexAlphabet(b as int % 16);
    assert s == [HexDigit(b as int / 16), HexDigit(b as int % 16)];
    assert s[..1] == [s[0]] && s[..1][..0] == "";
    assert HexNumber(s[..1]) == HexValue(s[0]);
  }

  lemma HexAlphabet(d: nat)
    requires d < 16
    ensures HexDigit(d) == "0123456789abcdef"[d]
  {
    var alphabet := "0123456789abcdef";
    assert d < 10 ==> alphabet[d] as int == '0' as int + d;
    assert d >= 10 ==> alphabet[d] as int == 'a' as int + d - 10;
  }

  /** Encoding goes byte by byte, in order. */
  lemma {:induction false} EncodedInOrder(a: seq<byte>, b: seq<byte>)
    ensures EncodeHex(a + b) == EncodeHex(a) + EncodeHex(b)
  {
    if a == [] {
      assert a + b == b;
    } else {
      assert (a + b)[1..] == a[1..] + b;
      EncodedInOrder(a[1..], b);
    }
  }

  // ----- prefixed text -----

  predicate HasPrefix0x(s: string) {
    |s| >= 2 && s[0] == '0' && (s[1] == 'x' || s[1] == 'X')
  }

  /** `hexutil.Decode`: the prefix is required. */
  function DecodePrefixed(s: string): Option<seq<byte>> {
    if HasPrefix0x(s) then DecodeHex(s[2..]) else None
  }

  function EncodePrefixed(b: seq<byte>): string {
    "0x" + EncodeHex(b)
  }

  lemma DecodePrefixedExactly(s: string, b: seq<byte>)
    ensures DecodePrefixed(s) == Some(b) <==> ToLower(s) == EncodePrefixed(b)
  {
    if |s| >= 2 {
      DecodeHexExactly(s[2..], b);
      assert ToLower(s)[2..] == ToLower(s[2..]);
      assert EncodePrefixed(b)[2..] == EncodeHex(b);
      assert ToLower(s) == ToLower(s)[..2] + ToLower(s)[2..];
      assert HasPrefix0x(s) <==> ToLower(s)[..2] == "0x";
    }
  }

  function StripPrefix0x(s: string): string {
    if HasPrefix0x(s) then s[2..] else s
  }

  /** `common.IsHexAddress`: forty digits, with or without the prefix. */
  predicate IsHexAddress(s: string) {
    |StripPrefix0x(s)| == 40 && AllHexDigits(StripPrefix0x(s))
  }

  /** `common.HexToAddress`, for the texts IsHexAddress admits. */
  function HexToAddress(s: string): Address
    requires IsHexAddress(s)
  {
    DecodesDigits(StripPrefix0x(s));
    DecodeHex(StripPrefix0x(s)).value
  }

  /** `Address.Hex`; which letters the checksum writes in upper case is left open. */
  function AddressHex(a: Address, upper: nat -> bool): string {
    "0x" + Recased(EncodeHex(a), upper)
  }

  function Recased(s: string, upper: nat -> bool): (r: string)
    ensures |r| == |s| && forall i :: 0 <= i < |s| ==> r[i] == if upper(i) then UpperChar(s[i]) else s[i]
  {
    seq(|s|, i requires 0 <= i < |s| => if upper(i) then UpperChar(s[i]) else s[i])
  }

  function UpperChar(c: char): char {
    if 'a' <= c <= 'z' then (c as int - 32) as char else c
  }

  /** `strings.EqualFold`; no character outside ASCII folds to a hexadecimal digit or to x. */
  predicate EqualFold(a: string, b: string) {
    ToLower(a) == ToLower(b)
  }

  lemma {:induction false} EncodeHexIsLower(b: seq<byte>)
    ensures ToLower(EncodeHex(b)) == EncodeHex(b)
  {
    if b == [] {
    } else {
      EncodeHexIsLower(b[1..]);
      var rest := EncodeHex(b[1..]);
      assert forall i :: 0 <= i < |rest| ==> LowerChar(rest[i]) == rest[i] by {
        assert forall i :: 0 <= i < |rest| ==> ToLower(rest)[i] == rest[i];
      }
    }
  }

  lemma {:induction false} EncodeHexIsHex(b: seq<byte>)
    ensures AllHexDigits(EncodeHex(b))
  {
    if b == [] {
    } else {
      EncodeHexIsHex(b[1..]);
    }
  }

  lemma AddressHexLower(a: Address, upper: nat -> bool)
    ensures ToLower(AddressHex(a, upper)) == EncodePrefixed(a)
  {
    EncodeHexIsLower(a);
    EncodeHexIsHex(a);
    var digits, s := EncodeHex(a), AddressHex(a, upper);
    forall i | 0 <= i < |digits|
      ensures LowerChar(s[i + 2]) == digits[i]
    {
      assert s[i + 2] == Recased(digits, upper)[i];
      assert ToLower(digits)[i] == digits[i] && IsHexDigit(digits[i]);
    }
    assert ToLower(s)[2..] == digits;
    assert ToLower(s)[..2] == "0x";
    assert ToLower(s) == ToLower(s)[..2] + ToLower(s)[2..];
  }

  /** Address text reads back, whatever its casing. */
  lemma AddressHexReads(a: Address, upper: nat -> bool)
    ensures IsHexAddress(AddressHex(a, upper)) && HexToAddress(AddressHex(a, upper)) == a
  {
    var s := AddressHex(a, upper);
    AddressHexLower(a, upper);
    DecodePrefixedExactly(s, a);
    DecodesDigits(s[2..]);
  }

  /**
   * The comparison of a recipient with the configured address holds exactly when the configured text carries the
   * 0x prefix and names that recipient: an address configured without the prefix matches nothing.
   */
  lemma RecipientMatchesExactly(to: Address, payTo: string, upper: nat -> bool)
    requires IsHexAddress(payTo)
    ensures EqualFold(AddressHex(to, upper), payTo) <==> HasPrefix0x(payTo) && HexToAddress(payTo) == to
  {
    AddressHexLower(to, upper);
    DecodePrefixedExactly(payTo, to);
    DecodesDigits(StripPrefix0x(payTo));
  }
}

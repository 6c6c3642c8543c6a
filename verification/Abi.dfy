/** Big-endian numbers and 32-byte ABI words, as cmd/testpay/main.go pads and joins them. */
module Abi {
  import opened Basics
  import opened Hex

  /** `[32]byte`. */
  type Word = b: seq<byte> | |b| == 32 witness Zeros(32)

  function Pow256(k: nat): (r: nat)
    ensures r > 0
  {
    if k == 0 then 1 else 256 * Pow256(k - 1)
  }

  /** The number a big-endian byte string spells (`(*big.Int).SetBytes`). */
  function FromBytes(b: seq<byte>): nat {
    if b == [] then 0 else 256 * FromBytes(b[..|b| - 1]) + b[|b| - 1] as int
  }

  /** The shortest byte string that spells `n` (`(*big.Int).Bytes` of a number with magnitude `n`). */
  function MinimalBytes(n: nat): seq<byte> {
    if n == 0 then [] else MinimalBytes(n / 256) + [(n % 256) as byte]
  }

  function Magnitude(n: int): nat {
    if n < 0 then -n else n
  }

  lemma {:induction false} FromMinimalBytes(n: nat)
    ensures FromBytes(MinimalBytes(n)) == n
  {
    if n == 0 {
    } else {
      FromMinimalBytes(n / 256);
      assert MinimalBytes(n)[..|MinimalBytes(n)| - 1] == MinimalBytes(n / 256);
    }
  }

  /** A number has at most `k` bytes exactly when it is below 256 to the `k`. */
  lemma {:induction false} MinimalBytesLength(n: nat, k: nat)
    ensures |MinimalBytes(n)| <= k <==> n < Pow256(k)
  {
    if n == 0 || k == 0 {
    } else {
      MinimalBytesLength(n / 256, k - 1);
    }
  }

  lemma {:induction false} FromBytesBound(b: seq<byte>)
    ensures FromBytes(b) < Pow256(|b|)
  {
    if b == [] {
    } else {
      FromBytesBound(b[..|b| - 1]);
    }
  }

  /** Byte strings of equal length that spell the same number are the same. */
  lemma {:induction false} FromBytesInjective(a: seq<byte>, b: seq<byte>)
    requires |a| == |b| && FromBytes(a) == FromBytes(b)
    ensures a == b
  {
    if a == [] {
    } else {
      var n := |a| - 1;
      FromBytesInjective(a[..n], b[..n]);
      assert a == a[..n] + [a[n]] && b == b[..n] + [b[n]];
    }
  }

  /** `p` moved to the right end of a word. */
  function LeftPad(p: seq<byte>): Word
    requires |p| <= 32
  {
    Zeros(32 - |p|) + p
  }

  lemma {:induction false} LeadingZeros(k: nat, p: seq<byte>)
    ensures FromBytes(Zeros(k) + p) == FromBytes(p)
  {
    var whole := Zeros(k) + p;
    if p != [] {
      assert whole[..|whole| - 1] == Zeros(k) + p[..|p| - 1];
      LeadingZeros(k, p[..|p| - 1]);
    } else if k > 0 {
      assert whole[..|whole| - 1] == Zeros(k - 1) + p;
      LeadingZeros(k - 1, p);
    } else {
      assert whole == p;
    }
  }

  function AddressWord(a: Address): Word {
    LeftPad(a)
  }

  /** The word of a number: the only one that spells its magnitude. */
  function NumberWord(n: int): (w: Word)
    requires Magnitude(n) < Pow256(32)
    ensures FromBytes(w) == Magnitude(n)
  {
    MinimalBytesLength(Magnitude(n), 32);
    FromMinimalBytes(Magnitude(n));
    var b := MinimalBytes(Magnitude(n));
    LeadingZeros(32 - |b|, b);
    LeftPad(b)
  }

  /** Words tell numbers apart up to their sign, so they tell all uint256 values apart. */
  lemma NumberWordsDiffer(m: int, n: int)
    requires Magnitude(m) < Pow256(32) && Magnitude(n) < Pow256(32)
    ensures NumberWord(m) == NumberWord(n) <==> m == n || m == -n
  {
    if m == -n {
      FromBytesInjective(NumberWord(m), NumberWord(n));
    }
  }

  // ----- the encoders -----

  /** paddedBig. The slice bound `32 - len(b)` is negative, a panic, for larger numbers. */
  method PaddedBig(n: int) returns (word: Word)
    requires Magnitude(n) < Pow256(32)
    ensures FromBytes(word) == Magnitude(n)
    ensures word == NumberWord(n)
  {
    hide Pow256, FromBytes;
    var b := MinimalBytes(Magnitude(n));
    MinimalBytesLength(Magnitude(n), 32);
    var padded := new byte[32](_ => 0);
    forall i | 0 <= i < |b| {
      padded[32 - |b| + i] := b[i];
    }
    word := padded[..];
    assert word == LeftPad(b) == NumberWord(n);
  }

  /** paddedAddr: twelve zero bytes, then the address. */
  method PaddedAddr(a: Address) returns (word: Word)
    ensures word[..12] == Zeros(12) && word[12..] == a
    ensures word == AddressWord(a)
  {
    var padded := new byte[32](_ => 0);
    forall i | 0 <= i < 20 {
      padded[12 + i] := a[i];
    }
    word := padded[..];
    assert word == LeftPad(a);
  }

  /** The words one after the other. */
  function Join(words: seq<Word>): (b: seq<byte>)
    ensures |b| == 32 * |words|
  {
    if words == [] then [] else Join(words[..|words| - 1]) + words[|words| - 1]
  }

  /** Word `i` of a byte string. */
  function WordAt(b: seq<byte>, i: nat): Word
    requires 32 * (i + 1) <= |b|
  {
    b[32 * i..32 * (i + 1)]
  }

  lemma {:induction false} JoinSplits(words: seq<Word>, i: nat)
    requires i < |words|
    ensures WordAt(Join(words), i) == words[i]
  {
    var n := |words| - 1;
    var front := Join(words[..n]);
    assert |front| == 32 * n;
    if i < n {
      JoinSplits(words[..n], i);
      assert 32 * (i + 1) <= 32 * n;
      assert Join(words)[32 * i..32 * (i + 1)] == front[32 * i..32 * (i + 1)];
    }
  }

  /** Joined words come apart again in only one way. */
  lemma JoinInjective(a: seq<Word>, b: seq<Word>)
    ensures Join(a) == Join(b) <==> a == b
  {
    if Join(a) == Join(b) {
      assert |a| == |b|;
      forall i | 0 <= i < |a|
        ensures a[i] == b[i]
      {
        JoinSplits(a, i);
        JoinSplits(b, i);
      }
    }
  }

  function Padded(parts: seq<seq<byte>>): (words: seq<Word>)
    requires forall i :: 0 <= i < |parts| ==> |parts[i]| <= 32
    ensures |words| == |parts| && forall i :: 0 <= i < |parts| ==> words[i] == LeftPad(parts[i])
  {
    seq(|parts|, i requires 0 <= i < |parts| => LeftPad(parts[i]))
  }

  /** Whole words are not padded. */
  lemma PaddedWords(words: seq<Word>)
    ensures Padded(words) == words
  {
    assert forall i :: 0 <= i < |words| ==> LeftPad(words[i]) == words[i];
  }

  /** encodeABI. A part longer than a word makes the slice bound negative, a panic. */
  method EncodeABI(parts: seq<seq<byte>>) returns (buf: seq<byte>)
    requires forall i :: 0 <= i < |parts| ==> |parts[i]| <= 32
    ensures |buf| == 32 * |parts|
    ensures forall i :: 0 <= i < |parts| ==> WordAt(buf, i) == LeftPad(parts[i])
    ensures buf == Join(Padded(parts))
  {
    buf := [];
    ghost var words: seq<Word> := [];
    for k := 0 to |parts|
      invariant |words| == k && buf == Join(words)
      invariant forall i :: 0 <= i < k ==> words[i] == LeftPad(parts[i])
    {
      var p := parts[k];
      var padded := new byte[32](_ => 0);
      forall i | 0 <= i < |p| {
        padded[32 - |p| + i] := p[i];
      }
      assert padded[..] == LeftPad(p);
      words := words + [LeftPad(p)];
      assert words[..|words| - 1] == words[..k];
      buf := buf + padded[..];
    }
    assert words == Padded(parts);
    forall i | 0 <= i < |parts|
      ensures WordAt(buf, i) == LeftPad(parts[i])
    {
      JoinSplits(words, i);
    }
  }
}

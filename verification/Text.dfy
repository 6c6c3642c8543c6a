/** Strings: trimming, case, and decimal numerals, as the server's `strings` and `fmt` calls use them. */
module Text {
  import opened Basics

  // ----- strings.TrimSpace -----

  /** Unicode White_Space, the set `strings.TrimSpace` removes. */
  predicate IsSpace(c: char) {
    || '\t' <= c <= '\r' || c == ' ' || c == '\U{85}' || c == '\U{A0}' || c == '\U{1680}'
    || '\U{2000}' <= c <= '\U{200A}' || c == '\U{2028}' || c == '\U{2029}' || c == '\U{202F}'
    || c == '\U{205F}' || c == '\U{3000}'
  }

  predicate AllSpace(s: string) {
    forall i :: 0 <= i < |s| ==> IsSpace(s[i])
  }

  predicate Trimmed(s: string) {
    s != "" ==> !IsSpace(s[0]) && !IsSpace(s[|s| - 1])
  }

  function TrimLeft(s: string): (r: string) {
    if s != "" && IsSpace(s[0]) then TrimLeft(s[1..]) else s
  }

  function TrimRight(s: string): (r: string) {
    if s != "" && IsSpace(s[|s| - 1]) then TrimRight(s[..|s| - 1]) else s
  }

  function TrimSpace(s: string): string {
    TrimRight(TrimLeft(s))
  }

  lemma {:induction false} TrimLeftStrips(lead: string, s: string)
    requires AllSpace(lead) && (s != "" ==> !IsSpace(s[0]))
    ensures TrimLeft(lead + s) == s
  {
    if lead == "" {
      assert lead + s == s;
    } else {
      assert (lead + s)[1..] == lead[1..] + s;
      TrimLeftStrips(lead[1..], s);
    }
  }

  lemma {:induction false} TrimRightStrips(s: string, trail: string)
    requires AllSpace(trail) && (s != "" ==> !IsSpace(s[|s| - 1]))
    ensures TrimRight(s + trail) == s
  {
    if trail == "" {
      assert s + trail == s;
    } else {
      assert (s + trail)[..|s + trail| - 1] == s + trail[..|trail| - 1];
      TrimRightStrips(s, trail[..|trail| - 1]);
    }
  }

  lemma TrimSpaceStrips(lead: string, s: string, trail: string)
    requires AllSpace(lead) && AllSpace(trail) && Trimmed(s) && s != ""
    ensures TrimSpace(lead + s + trail) == s
  {
    assert lead + s + trail == lead + (s + trail);
    TrimLeftStrips(lead, s + trail);
    TrimRightStrips(s, trail);
  }

  lemma {:induction false} TrimLeftResult(s: string)
    ensures TrimLeft(s) != "" ==> !IsSpace(TrimLeft(s)[0])
  {
    if s == "" || !IsSpace(s[0]) {
    } else {
      TrimLeftResult(s[1..]);
    }
  }

  lemma {:induction false} TrimRightResult(s: string)
    ensures TrimRight(s) != "" ==> !IsSpace(TrimRight(s)[|TrimRight(s)| - 1])
    ensures TrimRight(s) != "" ==> TrimRight(s)[0] == s[0]
  {
    if s == "" || !IsSpace(s[|s| - 1]) {
    } else {
      TrimRightResult(s[..|s| - 1]);
    }
  }

  lemma TrimSpaceTrims(s: string)
    ensures Trimmed(TrimSpace(s))
  {
    TrimLeftResult(s);
    TrimRightResult(TrimLeft(s));
  }

  // ----- len -----

  /** The bytes of a character in UTF-8. */
  function Utf8Size(c: char): nat {
    var n := c as int;
    if n < 0x80 then 1 else if n < 0x800 then 2 else if n < 0x1_0000 then 3 else 4
  }

  /** Go's `len` of a string. */
  function ByteLength(s: string): nat {
    if s == "" then 0 else ByteLength(s[..|s| - 1]) + Utf8Size(s[|s| - 1])
  }

  /** A proper prefix has fewer bytes. */
  lemma {:induction false} PrefixHasFewerBytes(a: string, b: string)
    requires a <= b
    ensures a != b ==> ByteLength(a) < ByteLength(b)
  {
    if |a| == |b| {
      assert a == b;
    } else {
      var shorter := b[..|b| - 1];
      assert a <= shorter;
      PrefixHasFewerBytes(a, shorter);
    }
  }

  // ----- the order of texts -----

  /** Texts in the order of their code points, which is the order of their UTF-8 bytes. */
  predicate Before(a: string, b: string) {
    b != "" && (a == "" || a[0] < b[0] || (a[0] == b[0] && Before(a[1..], b[1..])))
  }

  lemma {:induction false} NotBeforeItself(a: string)
    ensures !Before(a, a)
  {
    if a == "" {
    } else {
      NotBeforeItself(a[1..]);
    }
  }

  lemma {:induction false} BeforeTotal(a: string, b: string)
    ensures Before(a, b) || a == b || Before(b, a)
  {
    if a != "" && b != "" && a[0] == b[0] {
      BeforeTotal(a[1..], b[1..]);
      assert a == [a[0]] + a[1..] && b == [b[0]] + b[1..];
    }
  }

  lemma {:induction false} BeforeTransitive(a: string, b: string, c: string)
    requires Before(a, b) && Before(b, c)
    ensures Before(a, c)
  {
    if a != "" && a[0] == b[0] == c[0] {
      BeforeTransitive(a[1..], b[1..], c[1..]);
    }
  }

  ghost predicate LeastIn(keys: set<string>, least: string) {
    least in keys && forall key :: key in keys ==> key == least || Before(least, key)
  }

  lemma {:induction false} LeastExists(keys: set<string>) returns (least: string)
    requires keys != {}
    ensures LeastIn(keys, least)
  {
    var some :| some in keys;
    if keys == {some} {
      least := some;
    } else {
      var other := LeastExists(keys - {some});
      BeforeTotal(some, other);
      least := if Before(some, other) then some else other;
      forall key | key in keys
        ensures key == least || Before(least, key)
      {
        if key != some && key != other && Before(some, other) {
          BeforeTransitive(some, other, key);
        }
      }
    }
  }

  // ----- strings.ToLower -----

  function LowerChar(c: char): char {
    if 'A' <= c <= 'Z' then (c as int + 32) as char else c
  }

  /** `strings.ToLower` on ASCII letters; every other character is kept. */
  function ToLower(s: string): (r: string)
    ensures |r| == |s|
    ensures forall i :: 0 <= i < |s| ==> r[i] == LowerChar(s[i])
  {
    seq(|s|, i requires 0 <= i < |s| => LowerChar(s[i]))
  }

  function Normalize(s: string): string {
    ToLower(TrimSpace(s))
  }

  /** A trimmed lower-case name is its own normal form, and every normal form is one. */
  lemma NormalizeFixpoint(s: string)
    ensures Normalize(s) == s <==> Trimmed(s) && ToLower(s) == s
  {
    if Trimmed(s) && s != "" {
      TrimSpaceStrips("", s, "");
      assert "" + s + "" == s;
    }
    if Normalize(s) == s {
      NormalizeResult(s);
    }
  }

  lemma NormalizeResult(s: string)
    ensures Trimmed(Normalize(s)) && ToLower(Normalize(s)) == Normalize(s)
  {
    TrimSpaceTrims(s);
  }

  /** Surrounding white space goes, and nothing else but the case of the rest changes. */
  lemma NormalizeStrips(lead: string, s: string, trail: string)
    requires AllSpace(lead) && AllSpace(trail) && Trimmed(s)
    ensures Normalize(lead + s + trail) == ToLower(s)
  {
    if s == "" {
      AllSpaceTrims(lead + s + trail);
    } else {
      TrimSpaceStrips(lead, s, trail);
    }
  }

  lemma {:induction false} AllSpaceTrims(s: string)
    requires AllSpace(s)
    ensures TrimSpace(s) == ""
  {
    if s == "" {
    } else {
      AllSpaceTrims(s[1..]);
    }
  }

  lemma NormalizeIdempotent(s: string)
    ensures Normalize(Normalize(s)) == Normalize(s)
  {
    NormalizeResult(s);
    NormalizeFixpoint(Normalize(s));
  }

  // ----- decimal numerals -----

  predicate IsDigit(c: char) {
    '0' <= c <= '9'
  }

  predicate AllDigits(s: string) {
    forall i :: 0 <= i < |s| ==> IsDigit(s[i])
  }

  predicate AllZeros(s: string) {
    forall i :: 0 <= i < |s| ==> s[i] == '0'
  }

  function DigitValue(c: char): nat
    requires IsDigit(c)
  {
    c as int - '0' as int
  }

  function Digit(d: nat): (c: char)
    requires d < 10
    ensures IsDigit(c) && DigitValue(c) == d
  {
    ('0' as int + d) as char
  }

  function DigitsValue(s: string): nat
    requires AllDigits(s)
  {
    if s == "" then 0 else 10 * DigitsValue(s[..|s| - 1]) + DigitValue(s[|s| - 1])
  }

  /** `%d` of a natural number. */
  function Decimal(n: nat): (s: string)
    ensures s != "" && AllDigits(s)
  {
    if n < 10 then [Digit(n)] else Decimal(n / 10) + [Digit(n % 10)]
  }

  /** `%d` of an integer. */
  function DecimalInt(n: int): string {
    if n < 0 then "-" + Decimal(-n) else Decimal(n)
  }

  /** `n` written with exactly `k` digits. */
  function FixedDigits(n: nat, k: nat): (s: string)
    requires n < Pow10(k)
    ensures |s| == k && AllDigits(s)
  {
    if k == 0 then "" else FixedDigits(n / 10, k - 1) + [Digit(n % 10)]
  }

  lemma {:induction false} DecimalValue(n: nat)
    ensures DigitsValue(Decimal(n)) == n
  {
    if n >= 10 {
      DecimalValue(n / 10);
      var s := Decimal(n);
      assert s[..|s| - 1] == Decimal(n / 10);
    } else {
      var s := Decimal(n);
      assert s[..|s| - 1] == "";
    }
  }

  lemma {:induction false} FixedDigitsValue(n: nat, k: nat)
    requires n < Pow10(k)
    ensures DigitsValue(FixedDigits(n, k)) == n
  {
    if k == 0 {
    } else {
      FixedDigitsValue(n / 10, k - 1);
      var s := FixedDigits(n, k);
      assert s[..|s| - 1] == FixedDigits(n / 10, k - 1);
    }
  }

  lemma {:induction false} DigitsValueAppend(a: string, b: string)
    requires AllDigits(a) && AllDigits(b)
    ensures AllDigits(a + b)
    ensures DigitsValue(a + b) == DigitsValue(a) * Pow10(|b|) + DigitsValue(b)
  {
    if b == "" {
      assert a + b == a;
    } else {
      var b' := b[..|b| - 1];
      DigitsValueAppend(a, b');
      assert (a + b)[..|a + b| - 1] == a + b';
      assert DigitsValue(a) * Pow10(|b|) == 10 * (DigitsValue(a) * Pow10(|b'|));
    }
  }

  lemma {:induction false} DigitsValueBound(s: string)
    requires AllDigits(s)
    ensures DigitsValue(s) < Pow10(|s|)
  {
    if s == "" {
    } else {
      DigitsValueBound(s[..|s| - 1]);
    }
  }

  lemma {:induction false} DigitsValueZero(s: string)
    requires AllDigits(s)
    ensures DigitsValue(s) == 0 <==> AllZeros(s)
  {
    if s == "" {
    } else {
      DigitsValueZero(s[..|s| - 1]);
      var last := s[|s| - 1];
      assert AllZeros(s) <==> AllZeros(s[..|s| - 1]) && last == '0';
    }
  }

  lemma Pow10Add(a: nat, b: nat)
    ensures Pow10(a + b) == Pow10(a) * Pow10(b)
  {
    if a == 0 {
    } else {
      Pow10Add(a - 1, b);
    }
  }

  /** `(*big.Int).SetString(s, 10)`: an optional sign and at least one digit. */
  function ParseInt10(s: string): Option<int> {
    var negative := s != "" && s[0] == '-';
    var digits := if s != "" && (s[0] == '-' || s[0] == '+') then s[1..] else s;
    if digits == "" || !AllDigits(digits) then None
    else
      var magnitude: int := DigitsValue(digits);
      Some(if negative then -magnitude else magnitude)
  }

  /** Printing with `%d` and reading back with SetString gives the number again. */
  lemma ParsePrintedInt(n: int)
    ensures ParseInt10(DecimalInt(n)) == Some(n)
  {
    if n < 0 {
      DecimalValue(-n);
      assert ("-" + Decimal(-n))[1..] == Decimal(-n);
    } else {
      DecimalValue(n);
      assert IsDigit(Decimal(n)[0]);
    }
  }

  /** `s` is an optional sign and some digits that spell `n`. */
  ghost predicate SpellsInt(s: string, sign: string, digits: string, n: int) {
    && s == sign + digits && (sign == "" || sign == "+" || sign == "-")
    && digits != "" && AllDigits(digits)
    && DigitsValue(digits) == if sign == "-" then -n else n
  }

  /** SetString in base ten reads exactly the digit strings with at most one sign, as the number they spell. */
  lemma ParseInt10Exactly(s: string, n: int)
    ensures ParseInt10(s) == Some(n) <==> exists sign, digits :: SpellsInt(s, sign, digits, n)
  {
    if ParseInt10(s) == Some(n) {
      var sign := if s[0] == '-' || s[0] == '+' then s[..1] else "";
      var digits := s[|sign|..];
      assert s == sign + digits;
      assert SpellsInt(s, sign, digits, n);
    }
    if sign, digits :| SpellsInt(s, sign, digits, n) {
      assert IsDigit(digits[0]);
      assert s[|sign|..] == digits;
    }
  }

  /** The digits are the ASCII ones, and a printed number has no needless leading zero. */
  lemma {:induction false} DecimalIsCanonical(n: nat)
    ensures Decimal(n)[0] == '0' <==> n == 0
    ensures n < 10 ==> Decimal(n) == [ "0123456789"[n] ]
  {
    if n < 10 {
      assert "0123456789"[n] as int == '0' as int + n;
    } else {
      DecimalIsCanonical(n / 10);
    }
  }

  lemma DecimalIntInjective(a: int, b: int)
    requires DecimalInt(a) == DecimalInt(b)
    ensures a == b
  {
    ParsePrintedInt(a);
    ParsePrintedInt(b);
  }

  lemma DecimalIntHasNoBar(n: int)
    ensures '|' !in DecimalInt(n)
  {
    var s := if n < 0 then Decimal(-n) else Decimal(n);
    assert AllDigits(s);
  }
}

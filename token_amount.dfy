/** `token_to_yocto` of `amm/src/lib.rs`: reads a decimal token amount
    such as "265.555" and returns it in yocto units (24 decimal places) as a
    `u128`. The text is split at '.', a missing fraction counts as "0", each
    part is parsed as a `u128` (a part that does not parse counts as 0),
    and the fraction is scaled by `10^(24 - d)` where `d` is the number of
    digits of the PARSED fraction. */
module TokenAmount {
  import opened Base

  // ---------------------------------------------------------------------
  // `str::split`

  /** `s.split(sep)`: the pieces between separators, empty pieces included. */
  function Split(s: string, sep: char): (parts: seq<string>)
    ensures |parts| >= 1
    ensures forall i :: 0 <= i < |parts| ==> sep !in parts[i]
    decreases |s|
  {
    if |s| == 0 then [""]
    else
      var rest := Split(s[1..], sep);
      if s[0] == sep then [""] + rest
      else [[s[0]] + rest[0]] + rest[1..]
  }

  /** The pieces put back together with the separator between them. */
  function Join(parts: seq<string>, sep: char): string
    requires |parts| >= 1
    decreases |parts|
  {
    if |parts| == 1 then parts[0] else parts[0] + [sep] + Join(parts[1..], sep)
  }

  /** Splitting loses nothing: joining the pieces gives the text back. */
  lemma {:induction false} JoinSplit(s: string, sep: char)
    ensures Join(Split(s, sep), sep) == s
    decreases |s|
  {
    if |s| > 0 {
      JoinSplit(s[1..], sep);
      var rest := Split(s[1..], sep);
      if s[0] == sep {
        assert s == [s[0]] + s[1..];
      } else if |rest| == 1 {
        assert s == [s[0]] + rest[0];
      } else {
        var parts := Split(s, sep);
        assert parts[1..] == rest[1..];
        assert Join(parts, sep) == [s[0]] + (rest[0] + [sep] + Join(rest[1..], sep));
        assert s == [s[0]] + s[1..];
      }
    }
  }

  /** There is one more piece than there are separators. */
  lemma {:induction false} SplitCount(s: string, sep: char)
    ensures |Split(s, sep)| == multiset(s)[sep] + 1
    decreases |s|
  {
    if |s| > 0 {
      SplitCount(s[1..], sep);
      assert s == [s[0]] + s[1..];
      assert multiset(s) == multiset{s[0]} + multiset(s[1..]);
    }
  }

  /** Text without the separator splits at its first separator. */
  lemma {:induction false} SplitAtFirst(a: string, b: string, sep: char)
    requires sep !in a
    ensures Split(a + [sep] + b, sep) == [a] + Split(b, sep)
    decreases |a|
  {
    if |a| > 0 {
      SplitAtFirst(a[1..], b, sep);
      assert (a + [sep] + b)[1..] == a[1..] + [sep] + b;
      assert [a[0]] + a[1..] == a;
    } else {
      assert a + [sep] + b == [sep] + b;
    }
  }

  /** Text without the separator is a single piece. */
  lemma {:induction false} SplitNone(a: string, sep: char)
    requires sep !in a
    ensures Split(a, sep) == [a]
    decreases |a|
  {
    if |a| > 0 {
      SplitNone(a[1..], sep);
      assert [a[0]] + a[1..] == a;
    }
  }

  // ---------------------------------------------------------------------
  // `str::parse::<u128>`

  predicate IsDigit(c: char) {
    '0' <= c <= '9'
  }

  predicate AllDigits(s: string) {
    forall i :: 0 <= i < |s| ==> IsDigit(s[i])
  }

  /** The value of a string of decimal digits, most significant first. */
  function DigitsValue(s: string): nat
    requires AllDigits(s)
    decreases |s|
  {
    if |s| == 0 then 0
    else DigitsValue(s[..|s| - 1]) * 10 + (s[|s| - 1] as int - '0' as int)
  }

  function Pow10(n: nat): (p: nat)
    ensures p >= 1
  {
    if n == 0 then 1 else 10 * Pow10(n - 1)
  }

  /** The digits a `u128` parse reads: the text after one optional '+'. */
  function UnsignedDigits(s: string): string {
    if |s| > 1 && s[0] == '+' then s[1..] else s
  }

  /** `s.parse::<u128>().ok()`: empty text, a non-digit or a value that does
      not fit in 128 bits is an error. */
  function ParseU128(s: string): Option<U128> {
    var digits := UnsignedDigits(s);
    if |digits| == 0 || !AllDigits(digits) then None
    else if DigitsValue(digits) >= U128_LIMIT then None
    else Some(DigitsValue(digits))
  }

  /** `n.to_string().len()` */
  function DecimalDigits(n: nat): nat {
    if n < 10 then 1 else 1 + DecimalDigits(n / 10)
  }

  // ---------------------------------------------------------------------
  // `token_to_yocto`

  /** Yocto units have 24 decimal places. */
  const YOCTO_DECIMALS: nat := 24

  /** `10u128.pow(24)` */
  const ONE_TOKEN: nat := 1_000_000_000_000_000_000_000_000

  /** The two pieces of the amount: a lone piece gets "0" as its fraction;
      more than two pieces cannot form the pair. */
  function AmountParts(tokenAmount: string): Result<(string, string), Panic> {
    var pieces := Split(tokenAmount, '.');
    var parts := if |pieces| < 2 then pieces + ["0"] else pieces;
    if |parts| != 2 then Failure(NotAPair) else Success((parts[0], parts[1]))
  }

  /** The sum `int_part + decimal_part` that `token_to_yocto` returns:
      `integer_part * 10^24` plus
      `decimal_part * 10^(24 - amount_of_decimals)`; the `u32` subtraction
      panics when there are more than 24 decimals, and the `u128`
      operations panic when out of range. */
  function Scale(integerPart: nat, decimalPart: nat, amountOfDecimals: nat): Result<U128, Panic> {
    var intPart := integerPart * ONE_TOKEN;
    if intPart >= U128_LIMIT then Failure(ArithmeticOverflow)
    else if amountOfDecimals > YOCTO_DECIMALS then Failure(ArithmeticOverflow)
    else
      var scaled := decimalPart * Pow10(YOCTO_DECIMALS - amountOfDecimals);
      if intPart + scaled >= U128_LIMIT then Failure(ArithmeticOverflow)
      else Success(intPart + scaled)
  }

  /** `token_to_yocto`, as written: the fraction is scaled by the number of
      digits of its parsed value. */
  function TokenToYocto(tokenAmount: string): Result<U128, Panic> {
    var parts :- AmountParts(tokenAmount);
    var integerPart := ParseU128(parts.0).GetOr(0);
    var decimalPart := ParseU128(parts.1).GetOr(0);
    Scale(integerPart, decimalPart, DecimalDigits(decimalPart))
  }

  /** `token_to_yocto` with the fraction scaled by the number of digits
      written, so that leading zeros keep their place. */
  function TokenToYoctoExact(tokenAmount: string): Result<U128, Panic> {
    var parts :- AmountParts(tokenAmount);
    var integerPart := ParseU128(parts.0).GetOr(0);
    var decimalPart := ParseU128(parts.1).GetOr(0);
    var amountOfDecimals := if ParseU128(parts.1).Some? then |UnsignedDigits(parts.1)| else 1;
    Scale(integerPart, decimalPart, amountOfDecimals)
  }

  /** The amount "i.f" in yocto units: the digits of `i` and `f` read as
      one number, shifted so that `f` fills the first `|f|` of the 24
      decimal places. */
  function YoctoValue(i: string, f: string): nat
    requires AllDigits(i + f) && |f| <= YOCTO_DECIMALS
  {
    var places: nat := YOCTO_DECIMALS - |f|;
    DigitsValue(i + f) * Pow10(places)
  }

  // ---------------------------------------------------------------------
  // Arithmetic of decimal digits

  lemma {:induction false} Pow10Add(a: nat, b: nat)
    ensures Pow10(a + b) == Pow10(a) * Pow10(b)
    decreases a
  {
    if a > 0 {
      Pow10Add(a - 1, b);
    }
  }

  lemma {:induction false} Pow10Increasing(a: nat, b: nat)
    requires a < b
    ensures Pow10(a) < Pow10(b)
    decreases b
  {
    if a < b - 1 {
      Pow10Increasing(a, b - 1);
    }
  }

  lemma Pow10AtMost(a: nat, b: nat)
    requires a <= b
    ensures Pow10(a) <= Pow10(b)
  {
    if a < b {
      Pow10Increasing(a, b);
    }
  }

  /** Digits written after others shift them: `value(a + b) = value(a) * 10^|b| + value(b)`. */
  lemma {:induction false} DigitsConcat(a: string, b: string)
    requires AllDigits(a) && AllDigits(b)
    ensures AllDigits(a + b)
    ensures DigitsValue(a + b) == DigitsValue(a) * Pow10(|b|) + DigitsValue(b)
    decreases |b|
  {
    if |b| == 0 {
      assert a + b == a;
    } else {
      var b', d := b[..|b| - 1], b[|b| - 1] as int - '0' as int;
      DigitsConcat(a, b');
      assert (a + b)[..|a + b| - 1] == a + b';
      assert (a + b)[|a + b| - 1] == b[|b| - 1];
      assert DigitsValue(a + b) == DigitsValue(a + b') * 10 + d;
      assert DigitsValue(b) == DigitsValue(b') * 10 + d;
      Distribute(DigitsValue(a), Pow10(|b'|), DigitsValue(b'), 10);
    }
  }

  /** `n` digits hold a value below `10^n`. */
  lemma {:induction false} DigitsBelow(s: string)
    requires AllDigits(s)
    ensures DigitsValue(s) < Pow10(|s|)
    decreases |s|
  {
    if |s| > 0 {
      DigitsBelow(s[..|s| - 1]);
    }
  }

  /** Without a leading zero, `n` digits hold at least `10^(n-1)`. */
  lemma {:induction false} DigitsAtLeast(s: string)
    requires AllDigits(s) && |s| >= 1 && s[0] != '0'
    ensures Pow10(|s| - 1) <= DigitsValue(s)
    decreases |s|
  {
    if |s| > 1 {
      DigitsAtLeast(s[..|s| - 1]);
    }
  }

  /** With a leading zero, `n` digits hold less than `10^(n-1)`. */
  lemma {:induction false} DigitsLeadingZero(s: string)
    requires AllDigits(s) && |s| >= 1 && s[0] == '0'
    ensures DigitsValue(s) < Pow10(|s| - 1)
  {
    var tail := s[1..];
    DigitsConcat(s[..1], tail);
    assert s[..1] + tail == s;
    assert s[..1][..0] == "";
    DigitsBelow(tail);
  }

  /** `to_string` of a number in `[10^(d-1), 10^d)` has `d` characters. */
  lemma {:induction false} DecimalDigitsExact(n: nat, d: nat)
    requires d >= 1 && Pow10(d - 1) <= n < Pow10(d)
    ensures DecimalDigits(n) == d
    decreases d
  {
    if d > 1 {
      DecimalDigitsExact(n / 10, d - 1);
    }
  }

  /** A digit string without a leading zero prints back to as many digits. */
  lemma DecimalDigitsOfDigits(f: string)
    requires AllDigits(f) && |f| >= 1 && f[0] != '0'
    ensures DecimalDigits(DigitsValue(f)) == |f|
  {
    DigitsAtLeast(f);
    DigitsBelow(f);
    DecimalDigitsExact(DigitsValue(f), |f|);
  }

  /** A number below `10^d` prints to at most `d` digits. */
  lemma {:induction false} DecimalDigitsAtMost(n: nat, d: nat)
    requires d >= 1 && n < Pow10(d)
    ensures DecimalDigits(n) <= d
    decreases d
  {
    if d > 1 && n >= 10 {
      DecimalDigitsAtMost(n / 10, d - 1);
    }
  }

  /** A number prints to `DecimalDigits(n)` digits: it is below
      `10^DecimalDigits(n)` and, unless it is 0, at least `10^(DecimalDigits(n) - 1)`. */
  lemma {:induction false} DecimalDigitsLower(n: nat)
    ensures Pow10(DecimalDigits(n) - 1) <= n || n == 0
    ensures n < Pow10(DecimalDigits(n))
    decreases n
  {
    if n >= 10 {
      DecimalDigitsLower(n / 10);
    }
  }

  // ---------------------------------------------------------------------
  // Properties of `token_to_yocto`

  lemma DigitsHaveNoSeparator(s: string)
    requires AllDigits(s)
    ensures '.' !in s && UnsignedDigits(s) == s
  {
  }

  /** A non-empty digit string whose value fits in a `u128` parses to that value. */
  lemma ParseDigits(s: string)
    requires AllDigits(s) && |s| >= 1 && DigitsValue(s) < U128_LIMIT
    ensures ParseU128(s) == Some(DigitsValue(s))
  {
    DigitsHaveNoSeparator(s);
  }

  /** "i.f" splits into its integer and fraction text. */
  lemma PartsOfDecimal(i: string, f: string)
    requires '.' !in i && '.' !in f
    ensures AmountParts(i + "." + f) == Success((i, f))
  {
    SplitAtFirst(i, f, '.');
    SplitNone(f, '.');
  }

  /** The call panics on its `unwrap` of the pair exactly when the text has
      two or more dots. */
  lemma TokenToYoctoNotAPair(s: string)
    ensures TokenToYocto(s) == Failure(NotAPair) <==> multiset(s)['.'] >= 2
  {
    SplitCount(s, '.');
  }

  /** A whole number with a zero fraction is the number of tokens times `10^24`. */
  lemma ScaleWhole(v: nat)
    requires v * ONE_TOKEN < U128_LIMIT
    ensures Scale(v, 0, DecimalDigits(0)) == Success(v * ONE_TOKEN)
  {
  }

  /** A missing fraction is the text "0", which parses to 0. */
  lemma ZeroFraction()
    ensures ParseU128("0") == Some(0)
  {
    assert AllDigits("0");
    assert DigitsValue("0") == 0;
  }

  /** Digits with no dot are the whole part, with "0" as the fraction. */
  lemma ParseWhole(i: string)
    requires AllDigits(i) && |i| >= 1 && DigitsValue(i) < U128_LIMIT
    ensures TokenToYocto(i) == Scale(DigitsValue(i), 0, DecimalDigits(0))
  {
    DigitsHaveNoSeparator(i);
    SplitNone(i, '.');
    ParseDigits(i);
    ZeroFraction();
  }

  /** Text with no dot reads as a whole number of tokens: its fraction is
      taken as "0". For digits that is the number times `10^24`. */
  lemma TokenToYoctoWhole(i: string)
    requires AllDigits(i) && |i| >= 1 && DigitsValue(i) * ONE_TOKEN < U128_LIMIT
    ensures TokenToYocto(i) == Success(DigitsValue(i) * ONE_TOKEN)
  {
    assert DigitsValue(i) <= DigitsValue(i) * ONE_TOKEN;
    ParseWhole(i);
    ScaleWhole(DigitsValue(i));
  }

  /** Text with no dot that is not a `u128` (say "abc" or "") reads as 0. */
  lemma TokenToYoctoUnparseable(s: string)
    requires '.' !in s && ParseU128(s).None?
    ensures TokenToYocto(s) == Success(0)
  {
    SplitNone(s, '.');
    ZeroFraction();
    ScaleWhole(0);
  }

  /** In "i.f", a fraction that does not parse counts as 0, so the text
      converts like "i" with no fraction. */
  lemma TokenToYoctoUnparseableFraction(i: string, f: string)
    requires '.' !in i && '.' !in f && ParseU128(f).None?
    ensures TokenToYocto(i + "." + f) == TokenToYocto(i)
  {
    PartsOfDecimal(i, f);
    SplitNone(i, '.');
    ZeroFraction();
  }

  /** In "i.f", an integer part that does not parse counts as 0, so the
      text converts like ".f". */
  lemma TokenToYoctoUnparseableWhole(i: string, f: string)
    requires '.' !in i && '.' !in f && ParseU128(i).None?
    ensures TokenToYocto(i + "." + f) == TokenToYocto("" + "." + f)
  {
    PartsOfDecimal(i, f);
    PartsOfDecimal("", f);
  }

  /** One leading '+' is accepted: "+d" parses like the digits "d". */
  lemma ParseU128Plus(s: string)
    requires AllDigits(s) && |s| >= 1
    ensures ParseU128("+" + s) == ParseU128(s)
  {
    assert ("+" + s)[1..] == s;
  }

  /** `10u128.pow(24)` is the constant the model uses. */
  lemma OneTokenIsPow10()
    ensures Pow10(YOCTO_DECIMALS) == ONE_TOKEN
  {
    assert Pow10(3) == 1000;
    Pow10Add(3, 3);
    Pow10Add(6, 6);
    Pow10Add(12, 12);
  }

  /** The test "50": fifty tokens. */
  lemma TokenToYoctoFifty()
    ensures TokenToYocto("50") == Success(50 * Pow10(24))
  {
    assert AllDigits("50");
    assert "50"[..1] == "5";
    assert DigitsValue("50") == 50;
    TokenToYoctoWhole("50");
    OneTokenIsPow10();
  }

  lemma MulLess(a: nat, b: nat, p: nat)
    requires a < b && p > 0
    ensures a * p < b * p
  {
    assert b * p == a * p + (b - a) * p;
  }

  /** A fraction of at most `d` digits, scaled to fill the remaining
      places, stays below one token. */
  lemma FractionBelowOneToken(decimalPart: nat, d: nat)
    requires d <= YOCTO_DECIMALS && decimalPart < Pow10(d)
    ensures decimalPart * Pow10(YOCTO_DECIMALS - d) < ONE_TOKEN
  {
    Pow10Add(d, YOCTO_DECIMALS - d);
    OneTokenIsPow10();
    MulLess(decimalPart, Pow10(d), Pow10(YOCTO_DECIMALS - d));
  }

  /** Hence the sum fits whenever one more whole token would. */
  lemma ScaleFraction(integerPart: nat, decimalPart: nat, d: nat)
    requires d <= YOCTO_DECIMALS && decimalPart < Pow10(d)
    requires integerPart * ONE_TOKEN + ONE_TOKEN <= U128_LIMIT
    ensures Scale(integerPart, decimalPart, d)
      == Success(integerPart * ONE_TOKEN + decimalPart * Pow10(YOCTO_DECIMALS - d))
  {
    FractionBelowOneToken(decimalPart, d);
  }

  /** A whole part that fits with one more token is itself below the limit. */
  lemma WholeFits(integerPart: nat)
    requires integerPart * ONE_TOKEN + ONE_TOKEN <= U128_LIMIT
    ensures integerPart < U128_LIMIT
  {
    assert integerPart <= integerPart * ONE_TOKEN;
  }

  /** `|f|` digits, at most 24 of them, hold less than one token. */
  lemma FractionFits(f: string)
    requires AllDigits(f) && |f| <= YOCTO_DECIMALS
    ensures DigitsValue(f) < Pow10(|f|) <= ONE_TOKEN
  {
    DigitsBelow(f);
    Pow10AtMost(|f|, YOCTO_DECIMALS);
    OneTokenIsPow10();
  }

  /** The parts of "i.f" for digit strings `i` and `f`. */
  lemma PartsOfDigits(i: string, f: string)
    requires AllDigits(i) && AllDigits(f) && |i| >= 1 && 1 <= |f| <= YOCTO_DECIMALS
    requires DigitsValue(i) * ONE_TOKEN + ONE_TOKEN <= U128_LIMIT
    ensures DigitsValue(f) < Pow10(|f|)
    ensures AmountParts(i + "." + f) == Success((i, f))
    ensures ParseU128(i) == Some(DigitsValue(i)) && ParseU128(f) == Some(DigitsValue(f))
  {
    WholeFits(DigitsValue(i));
    FractionFits(f);
    DigitsHaveNoSeparator(i);
    DigitsHaveNoSeparator(f);
    PartsOfDecimal(i, f);
    ParseDigits(i);
    ParseDigits(f);
  }

  /** As written, "i.f" scales the fraction by the digits of its value. */
  lemma ParseDecimal(i: string, f: string)
    requires AllDigits(i) && AllDigits(f) && |i| >= 1 && 1 <= |f| <= YOCTO_DECIMALS
    requires DigitsValue(i) * ONE_TOKEN + ONE_TOKEN <= U128_LIMIT
    ensures DigitsValue(f) < Pow10(|f|)
    ensures TokenToYocto(i + "." + f) == Scale(DigitsValue(i), DigitsValue(f), DecimalDigits(DigitsValue(f)))
  {
    PartsOfDigits(i, f);
  }

  /** Corrected, "i.f" scales the fraction by its written digits. */
  lemma ParseDecimalExact(i: string, f: string)
    requires AllDigits(i) && AllDigits(f) && |i| >= 1 && 1 <= |f| <= YOCTO_DECIMALS
    requires DigitsValue(i) * ONE_TOKEN + ONE_TOKEN <= U128_LIMIT
    ensures DigitsValue(f) < Pow10(|f|)
    ensures TokenToYoctoExact(i + "." + f) == Scale(DigitsValue(i), DigitsValue(f), |f|)
  {
    PartsOfDigits(i, f);
  }

  /** With digits on both sides, the as-written conversion scales the
      fraction by the number of digits of its value, which may be fewer
      than the digits written (`ScaleByValueDigits` gives the amount). */
  lemma TokenToYoctoDecimal(i: string, f: string)
    requires AllDigits(i) && AllDigits(f) && |i| >= 1 && 1 <= |f| <= YOCTO_DECIMALS
    requires DigitsValue(i) * ONE_TOKEN + ONE_TOKEN <= U128_LIMIT
    ensures DigitsValue(f) < Pow10(|f|) && DecimalDigits(DigitsValue(f)) <= |f|
    ensures TokenToYocto(i + "." + f) == Scale(DigitsValue(i), DigitsValue(f), DecimalDigits(DigitsValue(f)))
  {
    ParseDecimal(i, f);
    DecimalDigitsAtMost(DigitsValue(f), |f|);
  }

  /** Scaling a fraction of at most `n` digits by the digits of its value. */
  lemma ScaleByValueDigits(integerPart: nat, decimalPart: nat, n: nat)
    requires 1 <= n <= YOCTO_DECIMALS && decimalPart < Pow10(n)
    requires integerPart * ONE_TOKEN + ONE_TOKEN <= U128_LIMIT
    ensures DecimalDigits(decimalPart) <= n
    ensures Scale(integerPart, decimalPart, DecimalDigits(decimalPart))
      == Success(integerPart * ONE_TOKEN + decimalPart * Pow10(YOCTO_DECIMALS - DecimalDigits(decimalPart)))
  {
    DecimalDigitsAtMost(decimalPart, n);
    DecimalDigitsLower(decimalPart);
    ScaleFraction(integerPart, decimalPart, DecimalDigits(decimalPart));
  }

  lemma Distribute(a: nat, b: nat, c: nat, d: nat)
    ensures (a * b + c) * d == a * (b * d) + c * d
  {
  }

  /** Padding "i" "f" with zeros to `n` places after `i`: the whole part
      moves up `n` places and the fraction `n - |f|`. */
  lemma DigitsPadded(i: string, f: string, n: nat)
    requires AllDigits(i) && AllDigits(f) && |f| <= n
    ensures AllDigits(i + f)
    ensures DigitsValue(i + f) * Pow10(n - |f|)
      == DigitsValue(i) * Pow10(n) + DigitsValue(f) * Pow10(n - |f|)
  {
    DigitsConcat(i, f);
    Pow10Add(|f|, n - |f|);
    Distribute(DigitsValue(i), Pow10(|f|), DigitsValue(f), Pow10(n - |f|));
  }

  /** `YoctoValue` is the whole tokens plus the scaled fraction. */
  lemma YoctoValueParts(i: string, f: string)
    requires AllDigits(i) && AllDigits(f) && |f| <= YOCTO_DECIMALS
    ensures AllDigits(i + f)
    ensures YoctoValue(i, f)
      == DigitsValue(i) * ONE_TOKEN + DigitsValue(f) * Pow10(YOCTO_DECIMALS - |f|)
  {
    DigitsPadded(i, f, YOCTO_DECIMALS);
    OneTokenIsPow10();
  }

  /** Scaling by the number of written digits gives `YoctoValue`. */
  lemma ScaleIsYoctoValue(i: string, f: string)
    requires AllDigits(i) && AllDigits(f) && |f| <= YOCTO_DECIMALS
    requires DigitsValue(i) * ONE_TOKEN + ONE_TOKEN <= U128_LIMIT
    ensures AllDigits(i + f)
    ensures Scale(DigitsValue(i), DigitsValue(f), |f|) == Success(YoctoValue(i, f))
  {
    FractionFits(f);
    ScaleFraction(DigitsValue(i), DigitsValue(f), |f|);
    YoctoValueParts(i, f);
  }

  /** The corrected conversion reads "i.f" as the decimal number it
      denotes: the digits of `i` and `f` as one number, in yocto units. */
  lemma TokenToYoctoExactIsYoctoValue(i: string, f: string)
    requires AllDigits(i) && AllDigits(f) && |i| >= 1 && 1 <= |f| <= YOCTO_DECIMALS
    requires DigitsValue(i) * ONE_TOKEN + ONE_TOKEN <= U128_LIMIT
    ensures AllDigits(i + f)
    ensures TokenToYoctoExact(i + "." + f) == Success(YoctoValue(i, f))
  {
    ParseDecimalExact(i, f);
    ScaleIsYoctoValue(i, f);
  }

  /** Scaling by the digits of the value or by `n` written digits gives
      the same amount exactly when the value has `n` digits or is zero. */
  lemma ScaleAgrees(integerPart: nat, decimalPart: nat, n: nat)
    requires 1 <= n <= YOCTO_DECIMALS && decimalPart < Pow10(n)
    requires integerPart * ONE_TOKEN + ONE_TOKEN <= U128_LIMIT
    ensures Scale(integerPart, decimalPart, DecimalDigits(decimalPart)) == Scale(integerPart, decimalPart, n)
      <==> DecimalDigits(decimalPart) == n || decimalPart == 0
  {
    var d := DecimalDigits(decimalPart);
    DecimalDigitsAtMost(decimalPart, n);
    DecimalDigitsLower(decimalPart);
    ScaleFraction(integerPart, decimalPart, d);
    ScaleFraction(integerPart, decimalPart, n);
    if d != n && decimalPart > 0 {
      FewerPlacesScaleMore(decimalPart, d, n);
    }
  }

  /** A positive fraction scaled to fewer written places is worth more. */
  lemma FewerPlacesScaleMore(v: nat, d: nat, n: nat)
    requires 0 < v && d < n <= YOCTO_DECIMALS
    ensures v * Pow10(YOCTO_DECIMALS - n) < v * Pow10(YOCTO_DECIMALS - d)
  {
    Pow10Increasing(YOCTO_DECIMALS - n, YOCTO_DECIMALS - d);
    MulLess(Pow10(YOCTO_DECIMALS - n), Pow10(YOCTO_DECIMALS - d), v);
  }

  /** A nonzero digit string prints back to as many digits exactly when it
      has no leading zero. */
  lemma DecimalDigitsOfText(f: string)
    requires AllDigits(f) && |f| >= 1
    ensures DecimalDigits(DigitsValue(f)) == |f| || DigitsValue(f) == 0
      <==> f[0] != '0' || DigitsValue(f) == 0
  {
    var v := DigitsValue(f);
    if f[0] != '0' {
      DecimalDigitsOfDigits(f);
    } else if v > 0 {
      DigitsLeadingZero(f);
      DecimalDigitsLower(v);
      if DecimalDigits(v) >= |f| {
        Pow10AtMost(|f| - 1, DecimalDigits(v) - 1);
      }
    }
  }

  /** The as-written conversion agrees with the corrected one exactly
      when the fraction has no leading zero or is zero. */
  lemma TokenToYoctoAgreesWithExact(i: string, f: string)
    requires AllDigits(i) && AllDigits(f) && |i| >= 1 && 1 <= |f| <= YOCTO_DECIMALS
    requires DigitsValue(i) * ONE_TOKEN + ONE_TOKEN <= U128_LIMIT
    ensures TokenToYocto(i + "." + f) == TokenToYoctoExact(i + "." + f)
      <==> f[0] != '0' || DigitsValue(f) == 0
  {
    ParseDecimal(i, f);
    ParseDecimalExact(i, f);
    ScaleAgrees(DigitsValue(i), DigitsValue(f), |f|);
    DecimalDigitsOfText(f);
  }

  /** The zero of "0" followed by digits adds nothing to their value. */
  lemma LeadingZeroValue(f: string)
    requires AllDigits(f)
    ensures AllDigits("0" + f) && DigitsValue("0" + f) == DigitsValue(f)
  {
    DigitsConcat("0", f);
    assert "0"[..0] == "";
  }

  /** As written, a zero right after the dot is dropped: "i.0f" converts
      like "i.f". */
  lemma TokenToYoctoDropsLeadingZero(i: string, f: string)
    requires AllDigits(i) && AllDigits(f) && |i| >= 1 && 1 <= |f| < YOCTO_DECIMALS
    requires DigitsValue(i) * ONE_TOKEN + ONE_TOKEN <= U128_LIMIT
    ensures TokenToYocto(i + "." + ("0" + f)) == TokenToYocto(i + "." + f)
  {
    LeadingZeroValue(f);
    ParseDecimal(i, "0" + f);
    ParseDecimal(i, f);
  }

  /** The corrected conversion tells "i.0f" and "i.f" apart when `f` has
      no leading zero. */
  lemma TokenToYoctoExactKeepsLeadingZero(i: string, f: string)
    requires AllDigits(i) && AllDigits(f) && |i| >= 1 && 1 <= |f| < YOCTO_DECIMALS
    requires f[0] != '0'
    requires DigitsValue(i) * ONE_TOKEN + ONE_TOKEN <= U128_LIMIT
    ensures TokenToYoctoExact(i + "." + ("0" + f)) != TokenToYoctoExact(i + "." + f)
  {
    LeadingZeroValue(f);
    DigitsAtLeast(f);
    TokenToYoctoDropsLeadingZero(i, f);
    TokenToYoctoAgreesWithExact(i, "0" + f);
    TokenToYoctoAgreesWithExact(i, f);
  }

  /** The value of a digit string grows by one digit at the right. */
  lemma DigitsSnoc(s: string, c: char)
    requires AllDigits(s) && IsDigit(c)
    ensures AllDigits(s + [c])
    ensures DigitsValue(s + [c]) == DigitsValue(s) * 10 + (c as int - '0' as int)
  {
    assert (s + [c])[..|s|] == s;
  }

  /** Digit strings worth 265 and 555, the second without a leading zero,
      convert like 265 tokens and 555 in three decimal places. */
  lemma TokenToYoctoOfValues(i: string, f: string)
    requires AllDigits(i) && AllDigits(f) && |i| >= 1 && |f| == 3 && f[0] != '0'
    requires DigitsValue(i) == 265 && DigitsValue(f) == 555
    ensures TokenToYocto(i + "." + f) == Scale(265, 555, 3)
  {
    DecimalDigitsOfDigits(f);
    TokenToYoctoDecimal(i, f);
  }

  /** 265 tokens and 555 thousandths in yocto units. */
  lemma Scale265()
    ensures Scale(265, 555, 3) == Success(265 * ONE_TOKEN + 555 * Pow10(YOCTO_DECIMALS - 3))
  {
    assert Pow10(3) == 1000;
    ScaleFraction(265, 555, 3);
  }

  /** The digits of "265" and "555". */
  lemma Digits265()
    ensures AllDigits("265") && AllDigits("555")
    ensures DigitsValue("265") == 265 && DigitsValue("555") == 555
  {
    assert "265"[..2] == "26" && "26"[..1] == "2";
    assert "555"[..2] == "55" && "55"[..1] == "5";
  }

  /** The test "265.555": 265 tokens and 555 thousandths. */
  lemma TokenToYocto265(i: string, f: string)
    requires i == "265" && f == "555"
    ensures TokenToYocto(i + "." + f) == Success(265 * ONE_TOKEN + 555 * Pow10(YOCTO_DECIMALS - 3))
  {
    Digits265();
    TokenToYoctoOfValues(i, f);
    Scale265();
  }

  /** "1.05" converts like "1.5", one and a half tokens, where it denotes
      one and five hundredths; the corrected conversion tells them apart. */
  lemma TokenToYocto105(oneOhFive: string, oneFive: string)
    requires oneOhFive == "1.05" && oneFive == "1.5"
    ensures TokenToYocto(oneOhFive) == TokenToYocto(oneFive)
    ensures TokenToYoctoExact(oneOhFive) != TokenToYoctoExact(oneFive)
  {
    var i, f :| i == "1" && f == "5";
    DigitsSnoc("", '1');
    DigitsSnoc("", '5');
    assert oneOhFive == i + "." + ("0" + f);
    assert oneFive == i + "." + f;
    TokenToYoctoDropsLeadingZero(i, f);
    TokenToYoctoExactKeepsLeadingZero(i, f);
  }
}

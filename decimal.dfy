/** Decimal text of unsigned integers as Rust's standard library reads and
    writes it: `str::parse::<u16>()` / `str::parse::<u32>()` (the `FromStr`
    implementation of the unsigned integer types) and `Display` (what
    `format!("{}", n)` and `to_string()` produce). */
module Decimal {
  import opened Wrappers

  const U8Max: nat := 0xFF
  const U16Max: nat := 0xFFFF
  const U32Max: nat := 0xFFFF_FFFF

  type U16 = n: nat | n <= U16Max
  type U32 = n: nat | n <= U32Max

  predicate IsDigit(c: char) { '0' <= c <= '9' }

  function DigitValue(c: char): nat
    requires IsDigit(c)
  {
    c as int - '0' as int
  }

  function DigitChar(d: nat): (c: char)
    requires d < 10
    ensures IsDigit(c) && DigitValue(c) == d
  {
    ('0' as int + d) as char
  }

  predicate AllDigits(s: string) { forall i :: 0 <= i < |s| ==> IsDigit(s[i]) }

  /** The number a string of decimal digits denotes, most significant digit first. */
  function Value(s: string): nat
    requires AllDigits(s)
  {
    if s == [] then 0 else Value(s[..|s| - 1]) * 10 + DigitValue(s[|s| - 1])
  }

  /** Digits without a superfluous leading zero: the form `Display` writes. */
  predicate Canonical(s: string)
  {
    |s| > 0 && AllDigits(s) && (s[0] == '0' ==> |s| == 1)
  }

  /** `Display` of an unsigned integer: shortest decimal text, no sign. */
  function Show(n: nat): (s: string)
    ensures Canonical(s) && Value(s) == n
  {
    if n < 10 then [DigitChar(n)]
    else
      var s := Show(n / 10) + [DigitChar(n % 10)];
      assert s[..|s| - 1] == Show(n / 10);
      s
  }

  /** Decimal text read back: `Show` is the only canonical spelling of a number. */
  lemma {:induction false} ShowValue(s: string)
    requires Canonical(s)
    ensures Show(Value(s)) == s
  {
    var init := s[..|s| - 1];
    if |s| > 1 {
      assert init[0] == s[0] && init[0] != '0';
      ShowValue(init);
      LeadingNonZero(init);
      assert s == init + [s[|s| - 1]];
    }
  }

  lemma LeadingNonZero(s: string)
    requires Canonical(s) && s[0] != '0'
    ensures Value(s) >= 1
  {
    if |s| > 1 {
      var init := s[..|s| - 1];
      assert init[0] == s[0];
      LeadingNonZero(init);
    }
  }

  /** A number below 1000 is written with at most three digits. */
  lemma ShowShort(n: nat)
    requires n < 1000
    ensures |Show(n)| <= 3
  {
    if n >= 10 {
      assert Show(n) == Show(n / 10) + [DigitChar(n % 10)];
      if n / 10 >= 10 {
        assert Show(n / 10) == Show(n / 10 / 10) + [DigitChar(n / 10 % 10)];
      }
    }
  }

  /** The error kinds of Rust's `ParseIntError` that unsigned parsing can raise. */
  datatype IntErrorKind = Empty | InvalidDigit | PosOverflow

  /** The `Display` text of a `ParseIntError` of each kind. */
  function IntErrorMessage(k: IntErrorKind): string
  {
    match k
    case Empty => "cannot parse integer from empty string"
    case InvalidDigit => "invalid digit found in string"
    case PosOverflow => "number too large to fit in target type"
  }

  /** The digit loop of unsigned `from_str`: left to right, a non-digit is
      `InvalidDigit` and an accumulated value above `max` is `PosOverflow`,
      whichever comes first. */
  function Accumulate(ds: string, acc: nat, max: nat): (r: Result<nat, IntErrorKind>)
    requires acc <= max
    ensures r.Ok? ==> r.value <= max
    ensures r != Err(Empty)
    decreases |ds|
  {
    if ds == [] then Ok(acc)
    else if !IsDigit(ds[0]) then Err(InvalidDigit)
    else if acc * 10 + DigitValue(ds[0]) > max then Err(PosOverflow)
    else Accumulate(ds[1..], acc * 10 + DigitValue(ds[0]), max)
  }

  /** Unsigned `from_str` for a type whose largest value is `max`: empty text
      is `Empty`, a lone sign is `InvalidDigit`, one leading `+` is skipped
      (a `-` is not a sign for unsigned types, so it is an invalid digit). */
  function ParseUnsigned(s: string, max: nat): (r: Result<nat, IntErrorKind>)
    ensures r.Ok? ==> r.value <= max
    ensures r == Err(Empty) <==> s == []
  {
    if s == [] then Err(Empty)
    else if s == "+" || s == "-" then Err(InvalidDigit)
    else if s[0] == '+' then Accumulate(s[1..], 0, max)
    else Accumulate(s, 0, max)
  }

  function ParseU16(s: string): (r: Result<U16, IntErrorKind>)
  {
    match ParseUnsigned(s, U16Max)
    case Ok(n) => Ok(n)
    case Err(k) => Err(k)
  }

  function ParseU32(s: string): (r: Result<U32, IntErrorKind>)
  {
    match ParseUnsigned(s, U32Max)
    case Ok(n) => Ok(n)
    case Err(k) => Err(k)
  }

  /** The text after the optional leading `+`. */
  function DigitsOf(s: string): string
  {
    if s != [] && s[0] == '+' then s[1..] else s
  }

  /** Declarative reading of what unsigned `from_str` accepts. */
  predicate IsUnsignedText(s: string, max: nat)
  {
    var ds := DigitsOf(s);
    ds != [] && AllDigits(ds) && Value(ds) <= max
  }

  /** Left-to-right reading of a digit string onto an accumulator. */
  function Fold(acc: nat, ds: string): nat
    requires AllDigits(ds)
    decreases |ds|
  {
    if ds == [] then acc else Fold(acc * 10 + DigitValue(ds[0]), ds[1..])
  }

  lemma {:induction false} FoldGrows(acc: nat, ds: string)
    requires AllDigits(ds)
    ensures Fold(acc, ds) >= acc
    decreases |ds|
  {
    if ds != [] {
      FoldGrows(acc * 10 + DigitValue(ds[0]), ds[1..]);
    }
  }

  lemma {:induction false} FoldAppend(acc: nat, ds: string, c: char)
    requires AllDigits(ds) && IsDigit(c)
    ensures AllDigits(ds + [c]) && Fold(acc, ds + [c]) == Fold(acc, ds) * 10 + DigitValue(c)
    decreases |ds|
  {
    if ds != [] {
      assert (ds + [c])[1..] == ds[1..] + [c];
      FoldAppend(acc * 10 + DigitValue(ds[0]), ds[1..], c);
    }
  }

  /** Reading left to right and reading by place value agree. */
  lemma {:induction false} FoldIsValue(ds: string)
    requires AllDigits(ds)
    ensures Fold(0, ds) == Value(ds)
    decreases |ds|
  {
    if ds != [] {
      var init := ds[..|ds| - 1];
      FoldIsValue(init);
      FoldAppend(0, init, ds[|ds| - 1]);
      assert init + [ds[|ds| - 1]] == ds;
    }
  }

  lemma {:induction false} AccumulateMeaning(ds: string, acc: nat, max: nat)
    requires acc <= max
    ensures Accumulate(ds, acc, max).Ok? <==> AllDigits(ds) && Fold(acc, ds) <= max
    ensures Accumulate(ds, acc, max).Ok? ==> AllDigits(ds) && Accumulate(ds, acc, max).value == Fold(acc, ds)
    decreases |ds|
  {
    if ds != [] && IsDigit(ds[0]) {
      var next := acc * 10 + DigitValue(ds[0]);
      assert AllDigits(ds) <==> AllDigits(ds[1..]);
      if next > max {
        if AllDigits(ds) {
          FoldGrows(next, ds[1..]);
        }
      } else {
        AccumulateMeaning(ds[1..], next, max);
      }
    }
  }

  /** Unsigned `from_str` succeeds exactly on an optional `+` followed by at
      least one decimal digit whose value fits the type, and yields that value. */
  lemma ParseUnsignedMeaning(s: string, max: nat)
    ensures ParseUnsigned(s, max).Ok? <==> IsUnsignedText(s, max)
    ensures ParseUnsigned(s, max).Ok? ==> ParseUnsigned(s, max).value == Value(DigitsOf(s))
  {
    var ds := DigitsOf(s);
    AccumulateMeaning(ds, 0, max);
    if AllDigits(ds) {
      FoldIsValue(ds);
    }
  }

  /** `parse(n.to_string())` gives `n` back for every `n` the type holds. */
  lemma ParseShow(n: nat, max: nat)
    requires n <= max
    ensures ParseUnsigned(Show(n), max) == Ok(n)
  {
    ParseUnsignedMeaning(Show(n), max);
  }
}

/** Formatting a number with an SI prefix or a power-of-ten suffix
    (`get_eng_notation`). Numbers are exact reals; Python's float rendering of
    the mantissa is the parameter `show`. */
module EngNotation {
  import opened Common
  import opened Text

  /** The exponents of the prefix table, in the table's order:
      24, 21, 18, ..., -21, -24. */
  const Keys: seq<int> := [24, 21, 18, 15, 12, 9, 6, 3, 0, -3, -6, -9, -12, -15, -18, -21, -24]

  /** The SI prefix letter of each exponent. */
  const Prefixes: map<int, string> :=
    map[24 := "Y", 21 := "Z", 18 := "E", 15 := "P", 12 := "T", 9 := "G", 6 := "M", 3 := "k",
        0 := "", -3 := "m", -6 := "u", -9 := "n", -12 := "p", -15 := "f", -18 := "a",
        -21 := "z", -24 := "y"]

  /** The prefix letters read back as exponents. */
  const PrefixExponents: map<string, int> :=
    map["Y" := 24, "Z" := 21, "E" := 18, "P" := 15, "T" := 12, "G" := 9, "M" := 6, "k" := 3,
        "m" := -3, "u" := -6, "n" := -9, "p" := -12, "f" := -15, "a" := -18,
        "z" := -21, "y" := -24]

  // ---------------------------------------------------------------------------
  // Powers of ten

  function Pow10Nat(n: nat): (r: nat)
    ensures r >= 1
  {
    if n == 0 then 1 else 10 * Pow10Nat(n - 1)
  }

  /** `10 ** k` for any integer `k`, exactly. */
  function Pow10(k: int): (r: real)
    ensures r > 0.0
  {
    if k >= 0 then Pow10Nat(k) as real else 1.0 / (Pow10Nat(-k) as real)
  }

  lemma Pow10Step(k: int)
    ensures Pow10(k + 1) == 10.0 * Pow10(k)
  {
    if k < 0 {
      var p := Pow10Nat(-k - 1) as real;
      assert Pow10Nat(-k) as real == 10.0 * p;
      assert Pow10(k) == 1.0 / (10.0 * p);
      assert Pow10(k + 1) == 1.0 / p;
    }
  }

  lemma {:induction false} Pow10Monotone(a: int, b: int)
    requires a <= b
    ensures Pow10(a) <= Pow10(b)
    decreases b - a
  {
    if a < b {
      Pow10Monotone(a, b - 1);
      Pow10Step(b - 1);
    }
  }

  // ---------------------------------------------------------------------------
  // Choosing the exponent

  function Abs(x: real): real
  {
    if x < 0.0 then -x else x
  }

  /** `[key for key in keys if a >= 10 ** key]`, in order. */
  function Eligible(keys: seq<int>, a: real): (r: seq<int>)
    ensures forall k :: k in r <==> k in keys && Pow10(k) <= a
    decreases |keys|
  {
    if |keys| == 0 then []
    else (if Pow10(keys[0]) <= a then [keys[0]] else []) + Eligible(keys[1..], a)
  }

  /** `max(s)` of a non-empty list. */
  function Max(s: seq<int>): (m: int)
    requires |s| > 0
    ensures m in s && forall k :: k in s ==> k <= m
    decreases |s|
  {
    if |s| == 1 then s[0]
    else
      var m := Max(s[1..]);
      assert forall k :: k in s ==> k == s[0] || k in s[1..];
      if s[0] > m then s[0] else m
  }

  /** The exponent `num` of the source: the largest table exponent whose power
      of ten does not exceed `a`; `max` of an empty list raises. */
  function Exponent(a: real): Result<int>
  {
    var eligible := Eligible(Keys, a);
    if |eligible| == 0 then Err(EmptyMax) else Ok(Max(eligible))
  }

  /** The table's exponents are exactly the multiples of 3 from -24 to 24. */
  lemma KeysAreMultiplesOfThree(k: int)
    ensures k in Keys <==> -24 <= k <= 24 && k % 3 == 0
  {
  }

  /** Below 24, the next multiple of three is also a table exponent. */
  lemma KeyAbove(num: int)
    requires num in Keys && num != 24
    ensures num + 3 in Keys
  {
    KeysAreMultiplesOfThree(num);
    KeysAreMultiplesOfThree(num + 3);
  }

  /** The next table exponent above the largest eligible one is not eligible. */
  lemma NextKeyTooLarge(a: real, e: seq<int>, num: int)
    requires num + 3 in Keys
    requires e == Eligible(Keys, a) && |e| > 0 && num == Max(e)
    ensures a < Pow10(num + 3)
  {
    assert num + 3 !in e;
  }

  /** The exponent exists exactly when `a` is at least `10 ** -24`; it is then
      a multiple of 3 in [-24, 24], its power of ten does not exceed `a`, the
      next one up does (unless the exponent is already 24), and no larger table
      exponent qualifies. */
  lemma ExponentChoice(a: real)
    ensures Exponent(a).Ok? <==> Pow10(-24) <= a
    ensures Exponent(a).Err? ==> Exponent(a).error == EmptyMax
    ensures Exponent(a).Ok? ==>
      var num := Exponent(a).value;
      && num in Keys && num % 3 == 0 && -24 <= num <= 24
      && Pow10(num) <= a
      && (num == 24 || a < Pow10(num + 3))
      && forall k :: k in Keys && Pow10(k) <= a ==> k <= num
  {
    var e := Eligible(Keys, a);
    KeysAreMultiplesOfThree(-24);
    if Pow10(-24) <= a {
      assert -24 in e;
    }
    if |e| > 0 {
      var num := Max(e);
      assert Exponent(a) == Ok(num);
      assert num in Keys && Pow10(num) <= a;
      KeysAreMultiplesOfThree(num);
      Pow10Monotone(-24, num);
      if num != 24 {
        KeyAbove(num);
        NextKeyTooLarge(a, e, num);
      }
    }
  }

  // ---------------------------------------------------------------------------
  // The mantissa

  /** Python's `int(x)` on a float: truncation toward zero. */
  function Trunc(x: real): int
  {
    if x >= 0.0 then x.Floor else -((-x).Floor)
  }

  /** Truncation keeps the sign and drops less than one in magnitude. */
  lemma TruncTowardZero(x: real)
    ensures x >= 0.0 ==> 0 <= Trunc(x) && Trunc(x) as real <= x < Trunc(x) as real + 1.0
    ensures x < 0.0 ==> Trunc(x) <= 0 && Trunc(x) as real - 1.0 < x <= Trunc(x) as real
  {
  }

  /** `int(x * p)`: the number of whole steps of `1 / p` in `x`. */
  function Steps(x: real, p: real): int
  {
    Trunc(x * p)
  }

  /** `int(x * p) / p`: `x` cut to whole steps of `1 / p`. */
  function CutToSteps(x: real, p: real): real
    requires p > 0.0
  {
    Steps(x, p) as real / p
  }

  /** `int(a / 10 ** num * 10 ** decimal_place) / 10 ** decimal_place`. */
  function Mantissa(a: real, num: int, places: int): real
  {
    CutToSteps(a / Pow10(num), Pow10(places))
  }

  /** Cutting `x >= 0` to whole steps of `1 / p` gives `m` with
      `m <= x < m + 1 / p`, a whole number `int(x * p)` of steps. */
  lemma TruncToSteps(x: real, p: real)
    requires x >= 0.0 && p > 0.0
    ensures 0.0 <= CutToSteps(x, p) <= x < CutToSteps(x, p) + 1.0 / p
    ensures CutToSteps(x, p) * p == Steps(x, p) as real
  {
    var t := Steps(x, p);
    assert t == (x * p).Floor;
    assert t as real <= x * p < t as real + 1.0;
    var m := CutToSteps(x, p);
    assert m == t as real / p;
    assert m * p == t as real;
    if x < m {
      MulStrict(x, m, p);
    }
    var n := m + 1.0 / p;
    assert n * p == m * p + (1.0 / p) * p;
    assert (1.0 / p) * p == 1.0;
    if n <= x {
      MulMono(n, x, p);
    }
  }

  /** A quotient of a non-negative number by a positive one is non-negative. */
  lemma QuotientNonNegative(a: real, q: real)
    requires a >= 0.0 && q > 0.0
    ensures a / q >= 0.0
  {
  }

  /** The mantissa is `a / 10 ** num` cut (not rounded) to `places` decimals:
      a whole number `int(a / 10 ** num * 10 ** places)` of steps
      `10 ** -places`, not above the exact quotient and less than one step
      below it. */
  lemma MantissaTruncates(a: real, num: int, places: int)
    requires a >= 0.0
    ensures 0.0 <= Mantissa(a, num, places) <= a / Pow10(num)
    ensures a / Pow10(num) < Mantissa(a, num, places) + 1.0 / Pow10(places)
    ensures Mantissa(a, num, places) * Pow10(places) == Steps(a / Pow10(num), Pow10(places)) as real
  {
    var x, p := a / Pow10(num), Pow10(places);
    QuotientNonNegative(a, Pow10(num));
    TruncToSteps(x, p);
    assert Mantissa(a, num, places) == CutToSteps(x, p);
  }

  lemma MulStrict(x: real, y: real, q: real)
    requires q > 0.0 && x < y
    ensures x * q < y * q
  {
  }

  lemma MulMono(x: real, y: real, q: real)
    requires q > 0.0 && x <= y
    ensures x * q <= y * q
  {
  }

  lemma QuotientBounds(a: real, q: real)
    requires q > 0.0 && q <= a < 1000.0 * q
    ensures 1.0 <= a / q < 1000.0
  {
    var x := a / q;
    assert x * q == a;
    if x < 1.0 {
      MulStrict(x, 1.0, q);
    }
    if x >= 1000.0 {
      MulMono(1000.0, x, q);
    }
  }

  /** Cutting a quotient of at least 1 to decimals leaves at least 1. */
  lemma TruncAtLeastOne(x: real, places: nat)
    requires x >= 1.0
    ensures CutToSteps(x, Pow10(places)) >= 1.0
  {
    var p := Pow10(places);
    var n := Pow10Nat(places);
    assert p == n as real;
    MulMono(1.0, x, p);
    WholeBelow(n, x * p);
    assert n <= Steps(x, p);
    TruncToSteps(x, p);
    var m := CutToSteps(x, p);
    if m < 1.0 {
      MulStrict(m, 1.0, p);
    }
  }

  /** A whole number not above `y >= 0` is not above its truncation. */
  lemma WholeBelow(n: int, y: real)
    requires 0.0 <= n as real <= y
    ensures n <= Trunc(y)
  {
    assert Trunc(y) == y.Floor;
    assert y < y.Floor as real + 1.0;
  }

  /** With a non-negative number of places, a mantissa below the top exponent
      has one to three integer digits: 1 <= m < 1000. */
  lemma MantissaDigits(a: real, num: int, places: int)
    requires places >= 0
    requires Pow10(num) <= a < Pow10(num + 3)
    ensures 1.0 <= Mantissa(a, num, places) < 1000.0
  {
    var q := Pow10(num);
    Pow10Step(num); Pow10Step(num + 1); Pow10Step(num + 2);
    QuotientBounds(a, q);
    MantissaTruncates(a, num, places);
    TruncAtLeastOne(a / q, places);
  }

  // ---------------------------------------------------------------------------
  // The formatted text

  /** The parts of the formatted number: sign, mantissa, exponent and the
      suffix that stands for the exponent. */
  datatype Notation = Notation(negative: bool, mantissa: real, exponent: int, suffix: string)

  /** `mult`: nothing for exponent 0, else the prefix letter when a unit is
      given, else `e<num>`. */
  function Suffix(num: int, unit: string): string
    requires num in Keys
  {
    if num == 0 then "" else if unit != "" then Prefixes[num] else "e" + IntToString(num)
  }

  /** Reading an exponent back from a suffix. */
  function ExponentOfSuffix(suffix: string, unit: string): int
  {
    if suffix == "" then 0
    else if unit != "" then (if suffix in PrefixExponents then PrefixExponents[suffix] else 0)
    else ParseInt(suffix[1..])
  }

  /** The suffix is unambiguous: it determines the exponent it stands for. */
  lemma SuffixDeterminesExponent(num: int, unit: string)
    requires num in Keys
    ensures ExponentOfSuffix(Suffix(num, unit), unit) == num
  {
    if num != 0 {
      if unit == "" {
        ParseIntToString(num);
        assert Suffix(num, unit)[1..] == IntToString(num);
      } else {
        assert Prefixes[num] != "";
      }
    }
  }

  /** The parts of `get_eng_notation(value, unit, places)` for a non-zero value. */
  function Decompose(value: real, unit: string, places: int): Result<Notation>
    requires value != 0.0
  {
    var a := Abs(value);
    var num :- Exponent(a);
    ExponentChoice(a);
    Ok(Notation(value < 0.0, Mantissa(a, num, places), num, Suffix(num, unit)))
  }

  function Render(n: Notation, unit: string, show: real -> string): string
  {
    (if n.negative then "-" else "") + show(n.mantissa) + n.suffix + unit
  }

  /** `get_eng_notation(value, unit, decimal_place)`. Zero is written `0`
      followed by the unit; a magnitude below `10 ** -24` raises. */
  function GetEngNotation(value: real, unit: string, places: int, show: real -> string): (r: Result<string>)
    ensures value == 0.0 ==> r == Ok("0" + unit)
    ensures r.Err? <==> value != 0.0 && Abs(value) < Pow10(-24)
  {
    if value == 0.0 then Ok("0" + unit)
    else
      ExponentChoice(Abs(value));
      var n :- Decompose(value, unit, places);
      Ok(Render(n, unit, show))
  }

  /** The letter of every non-zero table exponent is a single character. */
  lemma PrefixLetters(num: int)
    requires num in Keys && num != 0
    ensures num in Prefixes && |Prefixes[num]| == 1
  {
    KeysAreMultiplesOfThree(num);
  }

  /** The suffix of an exponent: nothing for 0, one prefix letter with a unit,
      `e<num>` without one; and it reads back as the exponent. */
  lemma SuffixShape(num: int, unit: string)
    requires num in Keys
    ensures num == 0 ==> Suffix(num, unit) == ""
    ensures num != 0 && unit != "" ==> Suffix(num, unit) == Prefixes[num] && |Suffix(num, unit)| == 1
    ensures num != 0 && unit == "" ==> Suffix(num, unit) == "e" + IntToString(num)
    ensures ExponentOfSuffix(Suffix(num, unit), unit) == num
  {
    if num != 0 {
      PrefixLetters(num);
    }
    SuffixDeterminesExponent(num, unit);
  }

  lemma DecomposeExponent(value: real, unit: string, places: int)
    requires value != 0.0 && Pow10(-24) <= Abs(value)
    ensures Decompose(value, unit, places).Ok?
    ensures var n := Decompose(value, unit, places).value; var a := Abs(value);
      && (n.negative <==> value < 0.0)
      && n.exponent in Keys && Pow10(n.exponent) <= a && (n.exponent == 24 || a < Pow10(n.exponent + 3))
  {
    ExponentChoice(Abs(value));
  }

  lemma DecomposeMantissa(value: real, unit: string, places: int)
    requires value != 0.0 && Pow10(-24) <= Abs(value)
    ensures Decompose(value, unit, places).Ok?
    ensures var n := Decompose(value, unit, places).value; var a := Abs(value);
      && n.mantissa <= a / Pow10(n.exponent) < n.mantissa + 1.0 / Pow10(places)
      && n.mantissa == Mantissa(a, n.exponent, places)
  {
    var a := Abs(value);
    ExponentChoice(a);
    var num := Exponent(a).value;
    MantissaTruncates(a, num, places);
    var n := Decompose(value, unit, places).value;
    assert n.exponent == num && n.mantissa == Mantissa(a, num, places);
  }

  lemma DecomposeSuffix(value: real, unit: string, places: int)
    requires value != 0.0 && Pow10(-24) <= Abs(value)
    ensures Decompose(value, unit, places).Ok?
    ensures var n := Decompose(value, unit, places).value;
      n.suffix == Suffix(n.exponent, unit)
  {
    ExponentChoice(Abs(value));
  }

  /** What the parts of a non-zero value are: the sign flag is set exactly for
      negative values, the exponent is chosen as `ExponentChoice` says, the
      mantissa is the quotient cut to whole steps (`MantissaTruncates`), and
      the suffix stands for the exponent as `SuffixShape` says. */
  lemma DecomposeParts(value: real, unit: string, places: int)
    requires value != 0.0 && Pow10(-24) <= Abs(value)
    ensures Decompose(value, unit, places).Ok?
    ensures var n := Decompose(value, unit, places).value; var a := Abs(value);
      && (n.negative <==> value < 0.0)
      && n.exponent in Keys && Pow10(n.exponent) <= a && (n.exponent == 24 || a < Pow10(n.exponent + 3))
      && n.mantissa <= a / Pow10(n.exponent) < n.mantissa + 1.0 / Pow10(places)
      && n.mantissa == Mantissa(a, n.exponent, places)
      && n.suffix == Suffix(n.exponent, unit)
  {
    DecomposeExponent(value, unit, places);
    DecomposeMantissa(value, unit, places);
    DecomposeSuffix(value, unit, places);
  }

  /** A non-zero value in range is written as the rendering of its parts. */
  lemma RendersParts(value: real, unit: string, places: int, show: real -> string)
    requires value != 0.0 && Pow10(-24) <= Abs(value)
    ensures Decompose(value, unit, places).Ok?
    ensures GetEngNotation(value, unit, places, show)
      == Ok(Render(Decompose(value, unit, places).value, unit, show))
  {
    DecomposeExponent(value, unit, places);
  }

  /** The text starts with `-` exactly for negative values, provided the
      rendering of a non-negative mantissa is never empty and never starts
      with `-`. */
  lemma SignShown(value: real, unit: string, places: int, show: real -> string)
    requires value != 0.0 && Pow10(-24) <= Abs(value)
    requires forall m :: m >= 0.0 ==> show(m) != "" && show(m)[0] != '-'
    ensures var r := GetEngNotation(value, unit, places, show);
      r.Ok? && (|r.value| > 0 && r.value[0] == '-' <==> value < 0.0)
  {
    RendersParts(value, unit, places, show);
    DecomposeParts(value, unit, places);
    var n := Decompose(value, unit, places).value;
    MantissaTruncates(Abs(value), n.exponent, places);
    var s := Render(n, unit, show);
    if value >= 0.0 {
      assert s[0] == show(n.mantissa)[0];
    }
  }

  /** No table exponent above the one of `a`'s decade qualifies. */
  lemma NoLargerKey(a: real, k: int, num: int)
    requires -24 <= k <= 24 && k % 3 == 0 && -24 <= num <= 24 && num % 3 == 0
    requires Pow10(num) <= a
    requires k == 24 || a < Pow10(k + 3)
    ensures num <= k
  {
    if num > k {
      Pow10Monotone(k + 3, num);
    }
  }

  lemma DecadeHasExponent(a: real, k: int)
    requires -24 <= k <= 24 && Pow10(k) <= a
    ensures Exponent(a).Ok?
  {
    Pow10Monotone(-24, k);
    ExponentChoice(a);
  }

  lemma DecadeExponent(a: real, k: int)
    requires -24 <= k <= 24 && k % 3 == 0 && Pow10(k) <= a
    requires k == 24 || a < Pow10(k + 3)
    requires Exponent(a).Ok?
    ensures Exponent(a).value == k
  {
    ExponentChoice(a);
    KeysAreMultiplesOfThree(k);
    var num := Exponent(a).value;
    assert k <= num;
    NoLargerKey(a, k, num);
  }

  /** A magnitude in the decade of a table exponent gets that exponent. */
  lemma ExponentInDecade(a: real, k: int)
    requires -24 <= k <= 24 && k % 3 == 0 && Pow10(k) <= a
    requires k == 24 || a < Pow10(k + 3)
    ensures Exponent(a) == Ok(k)
  {
    DecadeHasExponent(a, k);
    DecadeExponent(a, k);
  }

  /** Without a sign the text is the mantissa, the suffix and the unit. */
  lemma RenderNonNegative(n: Notation, unit: string, show: real -> string)
    requires !n.negative
    ensures Render(n, unit, show) == show(n.mantissa) + n.suffix + unit
  {
    assert "" + show(n.mantissa) == show(n.mantissa);
  }

  // ---------------------------------------------------------------------------
  // Steps of the 1500 Hz example: the lemmas below up to `Example1500Hz` only
  // build that example and state no property of the model of their own.

  lemma KiloOf1500(value: real)
    requires value == 1500.0
    ensures Exponent(value) == Ok(3)
  {
    assert Pow10(3) == 1000.0;
    assert Pow10(6) == 1000000.0;
    ExponentInDecade(value, 3);
  }

  lemma MantissaOf1500(value: real)
    requires value == 1500.0
    ensures Mantissa(value, 3, 2) == 1.5
  {
    assert Pow10(3) == 1000.0;
    assert Pow10(2) == 100.0;
  }

  lemma PartsOf1500(value: real, unit: string, places: int)
    requires value == 1500.0 && places == 2
    ensures Decompose(value, unit, places).Ok?
    ensures var n := Decompose(value, unit, places).value;
      !n.negative && n.exponent == 3 && n.mantissa == 1.5 && n.suffix == Suffix(3, unit)
  {
    KiloOf1500(value);
    MantissaOf1500(value);
  }

  lemma KiloSuffix(unit: string)
    requires unit == "Hz"
    ensures Suffix(3, unit) == "k"
  {
  }

  lemma DecomposeOf1500(value: real, unit: string, places: int)
    requires value == 1500.0 && unit == "Hz" && places == 2
    ensures Decompose(value, unit, places) == Ok(Notation(false, 1.5, 3, "k"))
  {
    PartsOf1500(value, unit, places);
    KiloSuffix(unit);
  }

  lemma InRange1500(value: real)
    requires value == 1500.0
    ensures Pow10(-24) <= value
  {
    Pow10Monotone(-24, 3);
    assert Pow10(3) == 1000.0;
  }

  /** A non-negative value in range is written as its mantissa, suffix and unit. */
  lemma NonNegativeText(value: real, unit: string, places: int, show: real -> string, n: Notation)
    requires value != 0.0 && Pow10(-24) <= Abs(value)
    requires Decompose(value, unit, places) == Ok(n) && !n.negative
    ensures GetEngNotation(value, unit, places, show) == Ok(show(n.mantissa) + n.suffix + unit)
  {
    RendersParts(value, unit, places, show);
    RenderNonNegative(n, unit, show);
  }

  /** `get_eng_notation(1500, unit='Hz', decimal_place=2)` is the rendering of
      1.5, the prefix `k` and the unit `Hz`. */
  lemma Example1500Hz(value: real, unit: string, places: int, show: real -> string)
    requires value == 1500.0 && unit == "Hz" && places == 2
    ensures GetEngNotation(value, unit, places, show) == Ok(show(1.5) + "k" + unit)
  {
    DecomposeOf1500(value, unit, places);
    InRange1500(value);
    assert Abs(value) == value;
    NonNegativeText(value, unit, places, show, Notation(false, 1.5, 3, "k"));
  }
}

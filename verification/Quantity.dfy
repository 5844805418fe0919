/**
 Kubernetes-style quantities: the checked i128 decimal parser with suffix scaling, the printers
 for reported usage, and the limit gate built on the parser.
 */
module Quantity {
  import opened Options
  import opened Text

  const I128_MAX: int := 0x7fff_ffff_ffff_ffff_ffff_ffff_ffff_ffff
  const I128_MIN: int := -I128_MAX - 1

  /** The result of a checked i128 operation whose mathematical value is `x`. */
  function Checked(x: int): Option<int> {
    if I128_MIN <= x <= I128_MAX then Some(x) else None
  }

  /** i128 division truncates toward zero. */
  function TruncatingDiv(a: int, b: nat): int
    requires b > 0
  {
    if a >= 0 then a / b else -(-a / b)
  }

  /** `str::parse::<i128>`: an optional sign, then at least one digit. */
  function ParseI128(s: string): Option<int> {
    if s == [] then None
    else
      var digits := if s[0] == '-' || s[0] == '+' then s[1..] else s;
      if digits == [] || !AllDigits(digits) then None
      else if s[0] == '-' then Checked(0 - DigitsValue(digits))
      else Checked(DigitsValue(digits))
  }

  /** `split_once('.')` with the missing case filled in: the text before and after the first dot. */
  function SplitAtDot(s: string): (string, string) {
    if s == [] then ([], [])
    else if s[0] == '.' then ([], s[1..])
    else
      var (whole, frac) := SplitAtDot(s[1..]);
      ([s[0]] + whole, frac)
  }

  /** The exponent goes through `as u32`, which keeps the low 32 bits of the fraction's length. */
  const U32_MODULUS: nat := 0x1_0000_0000

  function CheckedPow10(length: nat): Option<int> {
    Checked(Pow10(length % U32_MODULUS))
  }

  function ParseDecimalScaled(number: string, scale: int): Option<int> {
    var trimmed := Trim(number);
    if trimmed == [] then None
    else
      var (whole, frac) := SplitAtDot(trimmed);
      ParseParts(whole, frac, scale)
  }

  function ParseParts(whole: string, frac: string, scale: int): Option<int> {
    match ParseI128(whole)
    case None => None
    case Some(wholeValue) =>
      match Checked(wholeValue * scale)
      case None => None
      case Some(total) => if frac == [] then Some(total) else AddFraction(total, frac, scale)
  }

  function AddFraction(total: int, frac: string, scale: int): Option<int> {
    match ParseI128(frac)
    case None => None
    case Some(fracValue) =>
      match CheckedPow10(|frac|)
      case None => None
      case Some(denominator) =>
        match Checked(fracValue * scale)
        case None => None
        case Some(scaled) => Checked(total + TruncatingDiv(scaled, denominator))
  }

  type Unit = (string, int)

  /** The first suffix that matches and leaves a number decides. */
  function ParseScaled(quantity: string, units: seq<Unit>): Option<int> {
    if units == [] then None
    else
      var (suffix, scale) := units[0];
      match StripSuffix(quantity, suffix)
      case Some(number) =>
        if suffix == [] || number != [] then ParseDecimalScaled(number, scale)
        else ParseScaled(quantity, units[1..])
      case None => ParseScaled(quantity, units[1..])
  }

  const CPU_UNITS: seq<Unit> := [("n", 1), ("u", 1_000), ("m", 1_000_000), ("", 1_000_000_000)]

  const KI: int := 1_024
  const MI: int := 1_048_576
  const GI: int := 1_073_741_824
  const TI: int := 1_099_511_627_776
  const PI: int := 1_125_899_906_842_624
  const EI: int := 1_152_921_504_606_846_976

  const MEMORY_UNITS: seq<Unit> := [
    ("Ki", KI), ("Mi", MI), ("Gi", GI), ("Ti", TI), ("Pi", PI), ("Ei", EI),
    ("k", 1_000), ("M", 1_000_000), ("G", 1_000_000_000), ("T", 1_000_000_000_000),
    ("P", 1_000_000_000_000_000), ("E", 1_000_000_000_000_000_000), ("", 1)]

  datatype Resource = Cpu | Memory

  function Units(resource: Resource): seq<Unit> {
    match resource
    case Cpu => CPU_UNITS
    case Memory => MEMORY_UNITS
  }

  function Parse(resource: Resource, quantity: string): Option<int> {
    ParseScaled(quantity, Units(resource))
  }

  // ---- Suffix selection ----

  predicate IsLetter(c: char) {
    'a' <= c <= 'z' || 'A' <= c <= 'Z'
  }

  /**
   Letters only, positive scales, and an earlier suffix is longer than a later one or starts
   differently at the same length: no suffix shadows one that comes after it.
   */
  predicate UnitsWellFormed(units: seq<Unit>) {
    && (forall i :: 0 <= i < |units| ==> UnitWellFormed(units[i]))
    && (forall i, k :: 0 <= i < k < |units| ==> Precedes(units[i].0, units[k].0))
  }

  predicate UnitWellFormed(unit: Unit) {
    0 < unit.1 <= I128_MAX && forall j :: 0 <= j < |unit.0| ==> IsLetter(unit.0[j])
  }

  predicate Precedes(first: string, second: string) {
    |first| > |second| || (|first| == |second| > 0 && first[0] != second[0])
  }

  lemma UnitsAreWellFormed(resource: Resource)
    ensures UnitsWellFormed(Units(resource))
  {
    if resource == Memory {
      MemoryUnitsAreOrdered();
      MemoryUnitsAreLetters();
    }
  }

  lemma MemoryUnitsAreLetters()
    ensures forall i :: 0 <= i < |MEMORY_UNITS| ==> UnitWellFormed(MEMORY_UNITS[i])
  {
  }

  lemma MemoryUnitsAreOrdered()
    ensures forall i, k :: 0 <= i < k < |MEMORY_UNITS| ==> Precedes(MEMORY_UNITS[i].0, MEMORY_UNITS[k].0)
  {
    var heads := "KMGTPEkMGTPE";
    assert forall i :: 0 <= i < 12 ==>
        |MEMORY_UNITS[i].0| == (if i < 6 then 2 else 1) && MEMORY_UNITS[i].0[0] == heads[i];
    assert forall i, k :: 0 <= i < k < 6 ==> heads[i] != heads[k];
    assert forall i, k :: 6 <= i < k < 12 ==> heads[i] != heads[k];
  }

  /** A number followed by a unit's suffix is read with exactly that unit's scale. */
  lemma {:induction false} SuffixChosen(number: string, k: nat, units: seq<Unit>)
    requires UnitsWellFormed(units) && k < |units|
    requires number != [] && !IsLetter(number[|number| - 1])
    ensures ParseScaled(number + units[k].0, units) == ParseDecimalScaled(number, units[k].1)
  {
    var suffix := units[k].0;
    var quantity := number + suffix;
    if k == 0 {
      assert quantity[..|quantity| - |suffix|] == number;
    } else {
      var first := units[0].0;
      assert Precedes(first, suffix);
      SuffixMismatch(number, suffix, first);
      assert units[1..][k - 1] == units[k];
      SuffixChosen(number, k - 1, units[1..]);
    }
  }

  lemma SuffixMismatch(number: string, suffix: string, other: string)
    requires number != [] && !IsLetter(number[|number| - 1])
    requires Precedes(other, suffix)
    requires forall j :: 0 <= j < |other| ==> IsLetter(other[j])
    ensures StripSuffix(number + suffix, other) == None
  {
    var quantity := number + suffix;
    if |other| <= |quantity| {
      var tail := quantity[|quantity| - |other|..];
      var j := if |other| == |suffix| then 0 else |other| - |suffix| - 1;
      assert tail[j] == if |other| == |suffix| then suffix[0] else number[|number| - 1];
    }
  }

  // ---- Exactness on unsigned decimals ----

  /** An unsigned decimal with a unit: `whole[.frac]suffix`. */
  datatype Amount = Amount(whole: string, frac: string, unit: nat)

  predicate IsAmount(a: Amount, resource: Resource) {
    a.whole != [] && AllDigits(a.whole) && AllDigits(a.frac) && a.unit < |Units(resource)|
  }

  /** The text of a whole part and a fraction. */
  function Dotted(whole: string, frac: string): string {
    if frac == [] then whole else whole + "." + frac
  }

  function NumberText(a: Amount): string {
    Dotted(a.whole, a.frac)
  }

  function Render(a: Amount, resource: Resource): string
    requires IsAmount(a, resource)
  {
    NumberText(a) + Units(resource)[a.unit].0
  }

  function Scale(a: Amount, resource: Resource): int
    requires IsAmount(a, resource)
  {
    Units(resource)[a.unit].1
  }

  /** The exact rational value of `whole.frac` times `scale`. */
  function ScaledValue(whole: string, frac: string, scale: int): real
    requires AllDigits(whole) && AllDigits(frac)
  {
    ScaledMixed(DigitsValue(whole), DigitsValue(frac), Pow10(|frac|), scale)
  }

  /** (w + f/p) * scale. */
  function ScaledMixed(w: nat, f: nat, p: nat, scale: int): real
    requires p > 0
  {
    (w as real + f as real / p as real) * scale as real
  }

  /** The exact value of an amount in the resource's base unit (nanocores or bytes). */
  function Value(a: Amount, resource: Resource): real
    requires IsAmount(a, resource)
  {
    ScaledValue(a.whole, a.frac, Scale(a, resource))
  }

  lemma {:induction false} SplitAtDotOf(whole: string, rest: string)
    requires forall i :: 0 <= i < |whole| ==> whole[i] != '.'
    ensures SplitAtDot(whole) == (whole, [])
    ensures SplitAtDot(whole + "." + rest) == (whole, rest)
  {
    if whole == [] {
      assert whole + "." + rest == "." + rest;
    } else {
      SplitAtDotOf(whole[1..], rest);
      assert (whole + "." + rest)[1..] == whole[1..] + "." + rest;
      assert [whole[0]] + whole[1..] == whole;
    }
  }

  /** What a fraction adds, overflow by overflow. */
  function UnsignedFraction(frac: string, scale: nat): Option<int>
    requires AllDigits(frac)
  {
    var f, p := DigitsValue(frac), Pow10(|frac| % U32_MODULUS);
    if f > I128_MAX || p > I128_MAX || f * scale > I128_MAX then None else Some(f * scale / p)
  }

  /** What the parser computes on `whole[.frac]`. */
  function UnsignedResult(whole: string, frac: string, scale: nat): Option<int>
    requires AllDigits(whole) && AllDigits(frac)
  {
    var total := DigitsValue(whole) * scale;
    if DigitsValue(whole) > I128_MAX || total > I128_MAX then None
    else if frac == [] then Some(total)
    else
      match UnsignedFraction(frac, scale)
      case None => None
      case Some(part) => if total + part > I128_MAX then None else Some(total + part)
  }

  lemma ParseI128Unsigned(digits: string)
    requires digits != [] && AllDigits(digits)
    ensures ParseI128(digits) == Checked(DigitsValue(digits))
  {
    assert IsDigit(digits[0]);
  }

  lemma AddFractionFrom(total: int, frac: string, scale: nat, f: nat, p: nat, scaled: nat)
    requires ParseI128(frac) == Checked(f) && p == Pow10(|frac| % U32_MODULUS) && scaled == f * scale
    ensures AddFraction(total, frac, scale)
         == if f > I128_MAX || p > I128_MAX || scaled > I128_MAX then None else Checked(total + scaled / p)
  {
  }

  lemma AddFractionUnsigned(total: int, frac: string, scale: nat)
    requires frac != [] && AllDigits(frac)
    ensures AddFraction(total, frac, scale)
         == match UnsignedFraction(frac, scale) case None => None case Some(part) => Checked(total + part)
    ensures UnsignedFraction(frac, scale).Some? ==> UnsignedFraction(frac, scale).value >= 0
  {
    var f, p := DigitsValue(frac), Pow10(|frac| % U32_MODULUS);
    ParseI128Unsigned(frac);
    AddFractionFrom(total, frac, scale, f, p, f * scale);
    QuotientIsNatural(f * scale, p);
  }

  lemma QuotientIsNatural(n: nat, d: nat)
    requires d > 0
    ensures n / d >= 0
  {
  }

  lemma ParsePartsFrom(whole: string, frac: string, scale: nat, w: nat, total: nat, added: Option<int>)
    requires ParseI128(whole) == Checked(w) && total == w * scale
    requires frac != [] ==> AddFraction(total, frac, scale) == added
    ensures ParseParts(whole, frac, scale)
         == if w > I128_MAX || total > I128_MAX then None else if frac == [] then Some(total) else added
  {
  }

  lemma ParsePartsUnsigned(whole: string, frac: string, scale: nat)
    requires whole != [] && AllDigits(whole) && AllDigits(frac)
    ensures ParseParts(whole, frac, scale) == UnsignedResult(whole, frac, scale)
  {
    var total: nat := DigitsValue(whole) * scale;
    var added := match UnsignedFraction(frac, scale) case None => None case Some(part) => Checked(total + part);
    ParseI128Unsigned(whole);
    if frac != [] {
      AddFractionUnsigned(total, frac, scale);
    }
    ParsePartsFrom(whole, frac, scale, DigitsValue(whole), total, added);
  }

  /** The parser on an unsigned number, before any suffix is considered. */
  lemma ParseUnsignedNumber(a: Amount, scale: nat)
    requires a.whole != [] && AllDigits(a.whole) && AllDigits(a.frac)
    ensures ParseDecimalScaled(NumberText(a), scale) == UnsignedResult(a.whole, a.frac, scale)
  {
    NumberTextEnds(a);
    assert forall i :: 0 <= i < |a.whole| ==> IsDigit(a.whole[i]);
    ParseTrimmedText(a.whole, a.frac, scale);
    ParsePartsUnsigned(a.whole, a.frac, scale);
  }

  lemma ParseTrimmedText(whole: string, frac: string, scale: int)
    requires whole != [] && Trimmed(Dotted(whole, frac)) && forall i :: 0 <= i < |whole| ==> whole[i] != '.'
    ensures ParseDecimalScaled(Dotted(whole, frac), scale) == ParseParts(whole, frac, scale)
  {
    TrimShape(Dotted(whole, frac));
    SplitAtDotOf(whole, frac);
  }

  lemma NumberTextEnds(a: Amount)
    requires a.whole != [] && AllDigits(a.whole) && AllDigits(a.frac)
    ensures var number := NumberText(a);
            number != [] && IsDigit(number[0]) && IsDigit(number[|number| - 1])
  {
    assert IsDigit(a.whole[0]) && IsDigit(a.whole[|a.whole| - 1]);
    assert a.frac != [] ==> IsDigit(a.frac[|a.frac| - 1]);
  }

  lemma ParseUnsigned(a: Amount, resource: Resource)
    requires IsAmount(a, resource)
    ensures Scale(a, resource) > 0
    ensures Parse(resource, Render(a, resource)) == UnsignedResult(a.whole, a.frac, Scale(a, resource))
  {
    UnitsAreWellFormed(resource);
    NumberTextEnds(a);
    SuffixChosen(NumberText(a), a.unit, Units(resource));
    ParseUnsignedNumber(a, Scale(a, resource));
  }

  // ---- The value returned is the floor of the exact value ----

  lemma FloorOfQuotient(n: int, d: nat)
    requires d > 0
    ensures (n as real / d as real).Floor == n / d
  {
    var q := n / d;
    assert q * d <= n < (q + 1) * d;
    assert q as real * d as real <= n as real < (q + 1) as real * d as real;
    assert q as real <= n as real / d as real < (q + 1) as real;
  }

  lemma ScaledValueFloor(whole: string, frac: string, scale: int)
    requires AllDigits(whole) && AllDigits(frac)
    ensures ScaledValue(whole, frac, scale).Floor
         == DigitsValue(whole) * scale + (DigitsValue(frac) * scale) / Pow10(|frac|)
  {
    DistributeFloor(DigitsValue(whole), DigitsValue(frac), Pow10(|frac|), scale);
  }

  lemma DistributeFloor(w: nat, f: nat, p: nat, scale: int)
    requires p > 0
    ensures ScaledMixed(w, f, p, scale).Floor == w * scale + (f * scale) / p
  {
    var n := w * scale;
    var fraction := (f * scale) as real / p as real;
    calc {
      (w as real + f as real / p as real) * scale as real;
      w as real * scale as real + (f as real / p as real) * scale as real;
      n as real + fraction;
    }
    FloorOfQuotient(f * scale, p);
    assert (n as real + fraction).Floor == n + fraction.Floor;
  }

  lemma {:induction false} Pow10Monotone(m: nat, n: nat)
    requires m <= n
    ensures Pow10(m) <= Pow10(n)
  {
    if m < n {
      Pow10Monotone(m, n - 1);
    }
  }

  lemma Pow10Exceeds(n: nat)
    requires n >= 39
    ensures Pow10(n) > I128_MAX
  {
    assert Pow10(10) == 10_000_000_000;
    assert Pow10(20) == 100_000_000_000_000_000_000;
    assert Pow10(30) == 1_000_000_000_000_000_000_000_000_000_000;
    assert Pow10(39) > I128_MAX;
    Pow10Monotone(39, n);
  }

  /** Whether a fraction of this length survives the narrowing of its length to 32 bits. */
  predicate FractionReadExactly(frac: string, scale: int)
    requires AllDigits(frac)
  {
    |frac| < U32_MODULUS || DigitsValue(frac) * scale < Pow10(|frac| % U32_MODULUS)
  }

  lemma UnsignedResultIsFloorExactlyWhen(whole: string, frac: string, scale: nat)
    requires AllDigits(whole) && AllDigits(frac) && scale > 0
    requires UnsignedResult(whole, frac, scale).Some?
    ensures UnsignedResult(whole, frac, scale) == Some(ScaledValue(whole, frac, scale).Floor)
            <==> FractionReadExactly(frac, scale)
  {
    ScaledValueFloor(whole, frac, scale);
    if frac != [] {
      FractionIsExactExactlyWhen(frac, scale, DigitsValue(frac) * scale);
    }
  }

  lemma FractionIsExactExactlyWhen(frac: string, scale: nat, scaled: nat)
    requires AllDigits(frac) && scaled == DigitsValue(frac) * scale && UnsignedFraction(frac, scale).Some?
    ensures UnsignedFraction(frac, scale).value == scaled / Pow10(|frac|) <==> FractionReadExactly(frac, scale)
  {
    if |frac| >= U32_MODULUS {
      Pow10Exceeds(|frac|);
      SmallQuotient(scaled, Pow10(|frac|));
      SmallQuotient(scaled, Pow10(|frac| % U32_MODULUS));
    }
  }

  /**
   Whenever the parser answers on an unsigned amount, it answers the floor of the exact value,
   unless the fraction is so long that `as u32` shortens its length and the shortened power of ten
   no longer swallows the fraction.
   */
  lemma ParsedValueIsFloorExactlyWhen(a: Amount, resource: Resource)
    requires IsAmount(a, resource)
    requires Parse(resource, Render(a, resource)).Some?
    ensures Parse(resource, Render(a, resource)) == Some(Value(a, resource).Floor)
            <==> FractionReadExactly(a.frac, Scale(a, resource))
  {
    ParseUnsigned(a, resource);
    UnsignedResultIsFloorExactlyWhen(a.whole, a.frac, Scale(a, resource));
  }

  lemma SmallQuotient(n: nat, d: nat)
    requires d > 0
    ensures n / d == 0 <==> n < d
  {
  }

  /** For every fraction a real request can carry, a parsed amount is exact. */
  lemma ParsedValueIsFloor(a: Amount, resource: Resource)
    requires IsAmount(a, resource) && |a.frac| < U32_MODULUS
    ensures Parse(resource, Render(a, resource)).Some?
            ==> Parse(resource, Render(a, resource)) == Some(Value(a, resource).Floor)
  {
    if Parse(resource, Render(a, resource)).Some? {
      ParsedValueIsFloorExactlyWhen(a, resource);
    }
  }

  lemma {:induction false} ZerosValue(n: nat)
    ensures var zeros := seq(n, _ => '0'); AllDigits(zeros) && DigitsValue(zeros) == 0
  {
    if n > 0 {
      ZerosValue(n - 1);
      assert seq(n, _ => '0')[..n - 1] == seq(n - 1, _ => '0');
    }
  }

  /** A fraction of 2^32 digits is read as if it had none: 0.00...05 bytes parse as 5 bytes. */
  lemma LongFractionIsMisread()
    ensures exists a: Amount ::
              IsAmount(a, Memory) && |a.frac| == U32_MODULUS
              && Parse(Memory, Render(a, Memory)) == Some(5) && Value(a, Memory).Floor == 0
  {
    var zeros := seq(U32_MODULUS - 1, _ => '0');
    ZerosValue(U32_MODULUS - 1);
    var frac := zeros + "5";
    DigitsValueConcat(zeros, "5");
    FiveAtTheEnd(frac);
    var a := Amount("0", frac, 12);
    assert Units(Memory)[12] == ("", 1);
    ParseUnsigned(a, Memory);
  }

  lemma FiveAtTheEnd(frac: string)
    requires |frac| == U32_MODULUS && AllDigits(frac)
    requires DigitsValue(frac) == 0 * Pow10(1) + DigitsValue("5")
    ensures UnsignedResult("0", frac, 1) == Some(5)
    ensures ScaledValue("0", frac, 1).Floor == 0
  {
    assert DigitsValue("0") == 0 && DigitsValue("5") == 5;
    assert Pow10(|frac| % U32_MODULUS) == 1;
    ScaledValueFloor("0", frac, 1);
    Pow10Exceeds(|frac|);
    SmallQuotient(5, Pow10(|frac|));
  }

  // ---- A sign in front of a fraction ----

  lemma ParseI128Negated(digits: string)
    requires digits != [] && AllDigits(digits)
    ensures ParseI128("-" + digits) == Checked(0 - DigitsValue(digits))
  {
    assert ("-" + digits)[1..] == digits;
  }

  /** What the fraction adds to the whole part, sign or no sign. */
  function FractionPart(frac: string, scale: nat): (part: int)
    requires AllDigits(frac) && (frac != [] ==> UnsignedFraction(frac, scale).Some?)
  {
    if frac == [] then 0 else UnsignedFraction(frac, scale).value
  }

  lemma ParsePartsFromTotal(whole: string, frac: string, scale: nat, w: int, total: int)
    requires ParseI128(whole) == Some(w) && w * scale == total && I128_MIN <= total <= I128_MAX
    requires AllDigits(frac) && (frac != [] ==> UnsignedFraction(frac, scale).Some?)
    ensures FractionPart(frac, scale) >= 0
    ensures ParseParts(whole, frac, scale)
         == if frac == [] then Some(total) else Checked(total + FractionPart(frac, scale))
  {
    if frac != [] {
      AddFractionUnsigned(total, frac, scale);
    }
  }

  /** A leading minus negates the whole part only; the fraction is still added. */
  lemma NegatedParts(whole: string, frac: string, scale: nat, total: nat)
    requires whole != [] && AllDigits(whole) && AllDigits(frac) && total == DigitsValue(whole) * scale
    requires UnsignedResult(whole, frac, scale).Some?
    ensures FractionPart(frac, scale) >= 0
    ensures UnsignedResult(whole, frac, scale) == Some(total + FractionPart(frac, scale))
    ensures ParseParts("-" + whole, frac, scale) == Some(FractionPart(frac, scale) - total)
  {
    ParseI128Negated(whole);
    NegatedProduct(DigitsValue(whole), scale);
    ParsePartsFromTotal("-" + whole, frac, scale, 0 - DigitsValue(whole), 0 - total);
  }

  lemma NegatedProduct(n: int, scale: int)
    ensures (0 - n) * scale == 0 - n * scale
  {
  }

  /** The parser on a signed number, before any suffix is considered. */
  lemma ParseSignedNumber(sign: char, a: Amount, scale: int)
    requires sign in {'+', '-'} && a.whole != [] && AllDigits(a.whole) && AllDigits(a.frac)
    ensures var number := [sign] + NumberText(a);
            ParseDecimalScaled(number, scale) == ParseParts([sign] + a.whole, a.frac, scale)
  {
    var number := [sign] + NumberText(a);
    NumberTextEnds(a);
    assert number[|number| - 1] == NumberText(a)[|NumberText(a)| - 1];
    assert number == Dotted([sign] + a.whole, a.frac);
    assert forall i :: 0 <= i < |a.whole| ==> IsDigit(a.whole[i]);
    ParseTrimmedText([sign] + a.whole, a.frac, scale);
  }

  lemma {:induction false} SignedSuffixChosen(sign: char, number: string, k: nat, units: seq<Unit>)
    requires UnitsWellFormed(units) && k < |units|
    requires number != [] && !IsLetter(number[|number| - 1])
    ensures ParseScaled([sign] + (number + units[k].0), units) == ParseDecimalScaled([sign] + number, units[k].1)
  {
    assert [sign] + (number + units[k].0) == ([sign] + number) + units[k].0;
    SuffixChosen([sign] + number, k, units);
  }

  lemma ParseSigned(sign: char, a: Amount, resource: Resource)
    requires sign in {'+', '-'} && IsAmount(a, resource)
    ensures Parse(resource, [sign] + Render(a, resource)) == ParseParts([sign] + a.whole, a.frac, Scale(a, resource))
  {
    UnitsAreWellFormed(resource);
    NumberTextEnds(a);
    ParseSignedNumber(sign, a, Scale(a, resource));
    SignedSuffixChosen(sign, NumberText(a), a.unit, Units(resource));
  }

  lemma ParseNegated(a: Amount, resource: Resource)
    requires IsAmount(a, resource)
    ensures Parse(resource, "-" + Render(a, resource)) == ParseParts("-" + a.whole, a.frac, Scale(a, resource))
  {
    ParseSigned('-', a, resource);
  }

  /** Both texts can be read, and to opposite values. */
  predicate AreOpposite(x: Option<int>, y: Option<int>) {
    x.Some? && y.Some? && x.value + y.value == 0
  }

  predicate FractionAddsNothing(frac: string, scale: int)
    requires AllDigits(frac)
  {
    DigitsValue(frac) * scale < Pow10(|frac| % U32_MODULUS)
  }

  lemma FractionPartVanishesExactlyWhen(frac: string, scale: nat)
    requires AllDigits(frac) && (frac != [] ==> UnsignedFraction(frac, scale).Some?)
    ensures FractionPart(frac, scale) == 0 <==> FractionAddsNothing(frac, scale)
  {
    SmallQuotient(DigitsValue(frac) * scale, Pow10(|frac| % U32_MODULUS));
  }

  lemma SignNegatesPartsExactlyWhen(whole: string, frac: string, scale: nat)
    requires whole != [] && AllDigits(whole) && AllDigits(frac)
    requires UnsignedResult(whole, frac, scale).Some?
    ensures AreOpposite(UnsignedResult(whole, frac, scale), ParseParts("-" + whole, frac, scale))
            <==> FractionAddsNothing(frac, scale)
  {
    NegatedParts(whole, frac, scale, DigitsValue(whole) * scale);
    FractionPartVanishesExactlyWhen(frac, scale);
  }

  /** A minus sign in front of a readable amount negates it exactly when the fraction adds no whole unit. */
  lemma SignNegatesExactlyWhen(a: Amount, resource: Resource)
    requires IsAmount(a, resource) && Parse(resource, Render(a, resource)).Some?
    ensures AreOpposite(Parse(resource, Render(a, resource)), Parse(resource, "-" + Render(a, resource)))
            <==> FractionAddsNothing(a.frac, Scale(a, resource))
  {
    ParseUnsigned(a, resource);
    ParseNegated(a, resource);
    SignNegatesPartsExactlyWhen(a.whole, a.frac, Scale(a, resource));
  }

  /** Minus one and a half kibibytes parse as minus half a kibibyte. */
  lemma NegativeFractionIsMisread()
    ensures Parse(Memory, "-1.5Ki") == Some(-512)
  {
    var a := Amount("1", "5", 0);
    assert Units(Memory)[0] == ("Ki", KI);
    assert "-" + Render(a, Memory) == "-1.5Ki";
    assert DigitsValue("1") == 1 && DigitsValue("5") == 5 && Pow10(1) == 10;
    ParseNegated(a, Memory);
    NegatedParts("1", "5", KI, KI);
  }

  /** The smallest i128 is the value of a memory text. */
  lemma SmallestI128Parses()
    ensures Parse(Memory, "-" + Decimal(I128_MAX + 1)) == Some(I128_MIN)
  {
    var a := Amount(Decimal(I128_MAX + 1), [], 12);
    assert Units(Memory)[12] == ("", 1);
    assert Render(a, Memory) == Decimal(I128_MAX + 1);
    ParseNegated(a, Memory);
    ParseI128Negated(a.whole);
    ParsePartsFromTotal("-" + a.whole, [], 1, I128_MIN, I128_MIN);
  }

  // ---- The limit gate ----

  datatype Violation = InvalidQuantity | InvalidLimit | ExceedsLimit

  /** `quantity_exceeds_limit`: an unparsable side is represented by the smallest i128. */
  function QuantityViolation(resource: Resource, quantity: string, limit: string): Option<Violation> {
    Verdict(Parse(resource, quantity), Parse(resource, limit))
  }

  function Verdict(quantity: Option<int>, limit: Option<int>): Option<Violation> {
    if OrMin(quantity) == I128_MIN then Some(InvalidQuantity)
    else if OrMin(limit) == I128_MIN then Some(InvalidLimit)
    else if OrMin(quantity) > OrMin(limit) then Some(ExceedsLimit)
    else None
  }

  function OrMin(parsed: Option<int>): int {
    match parsed case Some(v) => v case None => I128_MIN
  }

  /** The gate's verdict when each side either fails to parse or parses to a floored value. */
  predicate IsExactToOneUnit(violation: Option<Violation>, quantity: Option<int>, limit: Option<int>,
                             x: real, y: real) {
    if quantity.None? then violation == Some(InvalidQuantity)
    else if limit.None? then violation == Some(InvalidLimit)
    else
      && (violation == None <==> x.Floor <= y.Floor)
      && (x <= y ==> violation == None)
      && (x >= y + 1.0 ==> violation == Some(ExceedsLimit))
  }

  lemma VerdictFromFloors(quantity: Option<int>, limit: Option<int>, x: real, y: real)
    requires x >= 0.0 && y >= 0.0
    requires quantity.Some? ==> quantity.value == x.Floor
    requires limit.Some? ==> limit.value == y.Floor
    ensures IsExactToOneUnit(Verdict(quantity, limit), quantity, limit, x, y)
  {
  }

  /**
   On unsigned amounts the gate compares exact values up to rounding down to the base unit: it
   never refuses a request at or below the limit, always refuses one a whole unit above it, and
   refuses every request or limit the parser cannot read.
   */
  lemma LimitGateIsExactToOneUnit(a: Amount, limit: Amount, resource: Resource)
    requires IsAmount(a, resource) && IsAmount(limit, resource)
    requires |a.frac| < U32_MODULUS && |limit.frac| < U32_MODULUS
    ensures IsExactToOneUnit(QuantityViolation(resource, Render(a, resource), Render(limit, resource)),
                             Parse(resource, Render(a, resource)), Parse(resource, Render(limit, resource)),
                             Value(a, resource), Value(limit, resource))
  {
    ParsedValueIsFloor(a, resource);
    ParsedValueIsFloor(limit, resource);
    ValueIsNonNegative(a, resource);
    ValueIsNonNegative(limit, resource);
    VerdictFromFloors(Parse(resource, Render(a, resource)), Parse(resource, Render(limit, resource)),
                      Value(a, resource), Value(limit, resource));
  }

  /** For arbitrary texts the gate accepts exactly two readable values in order, neither of them the smallest i128. */
  lemma LimitGateAcceptsExactlyWhen(resource: Resource, quantity: string, limit: string)
    ensures QuantityViolation(resource, quantity, limit) == None
            <==> && Parse(resource, quantity).Some? && Parse(resource, limit).Some?
                 && I128_MIN < Parse(resource, quantity).value <= Parse(resource, limit).value
  {
    ParseInRange(quantity, Units(resource));
    ParseInRange(limit, Units(resource));
  }

  /** The gate blames the limit exactly when the quantity is readable and usable and the limit is not. */
  lemma LimitBlamedExactlyWhen(resource: Resource, quantity: string, limit: string)
    ensures QuantityViolation(resource, quantity, limit) == Some(InvalidLimit)
            <==> && Parse(resource, quantity).Some? && I128_MIN < Parse(resource, quantity).value
                 && !LimitIsUsable(resource, limit)
  {
    ParseInRange(quantity, Units(resource));
  }

  /** The limit can be read and is not the smallest i128. */
  predicate LimitIsUsable(resource: Resource, limit: string) {
    Parse(resource, limit).Some? && Parse(resource, limit).value != I128_MIN
  }

  /**
   What a declared limit means for requests: a usable one admits some request, itself for one, and is
   never blamed; any other admits none and is blamed by some request that is itself in order.
   */
  lemma LimitAdmitsExactlyWhen(resource: Resource, limit: string)
    ensures (exists quantity :: QuantityViolation(resource, quantity, limit) == None)
            <==> LimitIsUsable(resource, limit)
    ensures (exists quantity :: QuantityViolation(resource, quantity, limit) == Some(InvalidLimit))
            <==> !LimitIsUsable(resource, limit)
  {
    forall quantity
      ensures QuantityViolation(resource, quantity, limit) == None ==> LimitIsUsable(resource, limit)
      ensures QuantityViolation(resource, quantity, limit) == Some(InvalidLimit) ==> !LimitIsUsable(resource, limit)
    {
      LimitGateAcceptsExactlyWhen(resource, quantity, limit);
      LimitBlamedExactlyWhen(resource, quantity, limit);
    }
    if LimitIsUsable(resource, limit) {
      ParseInRange(limit, Units(resource));
      LimitGateAcceptsExactlyWhen(resource, limit, limit);
    } else {
      FormatParseRoundTrip(resource, 1);
      LimitBlamedExactlyWhen(resource, Format(resource, 1).value, limit);
    }
  }

  lemma {:induction false} ParseInRange(quantity: string, units: seq<Unit>)
    ensures ParseScaled(quantity, units).Some? ==> I128_MIN <= ParseScaled(quantity, units).value <= I128_MAX
  {
    if units != [] {
      ParseInRange(quantity, units[1..]);
    }
  }

  lemma ValueIsNonNegative(a: Amount, resource: Resource)
    requires IsAmount(a, resource)
    ensures Value(a, resource) >= 0.0
  {
    ParseUnsigned(a, resource);
    ScaledMixedIsNonNegative(DigitsValue(a.whole), DigitsValue(a.frac), Pow10(|a.frac|), Scale(a, resource));
  }

  lemma ScaledMixedIsNonNegative(w: nat, f: nat, p: nat, scale: nat)
    requires p > 0
    ensures ScaledMixed(w, f, p, scale) >= 0.0
  {
    assert f as real / p as real >= 0.0;
  }

  // ---- Printing and the round trip ----

  function FormatCpu(nanocores: int): Option<string> {
    if nanocores < 0 then None
    else if nanocores % 1_000_000 == 0 then Some(Decimal(nanocores / 1_000_000) + "m")
    else Some(Decimal(nanocores) + "n")
  }

  const PRINTED_MEMORY_UNITS: seq<Unit> := [("Ei", EI), ("Pi", PI), ("Ti", TI), ("Gi", GI), ("Mi", MI), ("Ki", KI)]

  function FormatMemory(bytes: int): Option<string> {
    if bytes < 0 then None else Some(PrintWithLargestUnit(bytes, PRINTED_MEMORY_UNITS))
  }

  /** The first unit that divides the amount. */
  function PrintWithLargestUnit(bytes: nat, units: seq<Unit>): string
    requires forall i :: 0 <= i < |units| ==> units[i].1 > 0
  {
    if units == [] then Decimal(bytes)
    else if bytes >= units[0].1 && bytes % units[0].1 == 0 then Decimal(bytes / units[0].1) + units[0].0
    else PrintWithLargestUnit(bytes, units[1..])
  }

  function Format(resource: Resource, total: int): Option<string> {
    match resource
    case Cpu => FormatCpu(total)
    case Memory => FormatMemory(total)
  }

  lemma ParsePrintedMultiple(resource: Resource, count: nat, unit: nat)
    requires unit < |Units(resource)| && count * Units(resource)[unit].1 <= I128_MAX
    ensures Parse(resource, Decimal(count) + Units(resource)[unit].0) == Some(count * Units(resource)[unit].1)
  {
    var a := Amount(Decimal(count), [], unit);
    ParseUnsigned(a, resource);
    CountFits(count, Units(resource)[unit].1);
  }

  lemma CountFits(count: nat, scale: int)
    requires scale > 0
    ensures count <= count * scale
  {
  }

  lemma DivisionIsExact(n: nat, d: nat)
    requires d > 0 && n % d == 0
    ensures n / d * d == n
  {
  }

  lemma {:induction false} PrintedMemoryParses(bytes: nat, from: nat)
    requires bytes <= I128_MAX && from <= 6
    ensures Parse(Memory, PrintWithLargestUnit(bytes, PRINTED_MEMORY_UNITS[from..])) == Some(bytes)
    decreases 6 - from
  {
    var units := PRINTED_MEMORY_UNITS[from..];
    if from == 6 {
      assert MEMORY_UNITS[12] == ("", 1) && Decimal(bytes) + "" == Decimal(bytes);
      ParsePrintedMultiple(Memory, bytes, 12);
    } else if bytes >= units[0].1 && bytes % units[0].1 == 0 {
      assert MEMORY_UNITS[5 - from] == units[0];
      var count := bytes / units[0].1;
      DivisionIsExact(bytes, units[0].1);
      ParsePrintedMultiple(Memory, count, 5 - from);
    } else {
      assert units[1..] == PRINTED_MEMORY_UNITS[from + 1..];
      PrintedMemoryParses(bytes, from + 1);
    }
  }

  /** Parsing a printed total gives the total back. */
  lemma FormatParseRoundTrip(resource: Resource, total: int)
    requires 0 <= total <= I128_MAX
    ensures Format(resource, total).Some? && Parse(resource, Format(resource, total).value) == Some(total)
  {
    match resource
    case Cpu =>
      assert CPU_UNITS[0] == ("n", 1) && CPU_UNITS[2] == ("m", 1_000_000);
      if total % 1_000_000 == 0 {
        ParsePrintedMultiple(Cpu, total / 1_000_000, 2);
      } else {
        ParsePrintedMultiple(Cpu, total, 0);
      }
    case Memory =>
      PrintedMemoryParses(total, 0);
  }
}

/** Which texts are quantities: signs and blanks that do not matter, and that nothing but numbers parses. */
module QuantityForms {
  import opened Options
  import opened Text
  import opened Quantity

  lemma ParsePartsByWhole(whole: string, whole': string, frac: string, scale: int)
    requires ParseI128(whole) == ParseI128(whole')
    ensures ParseParts(whole, frac, scale) == ParseParts(whole', frac, scale)
  {
  }

  /** A leading plus changes nothing. */
  lemma PlusIsIgnored(a: Amount, resource: Resource)
    requires IsAmount(a, resource)
    ensures Parse(resource, "+" + Render(a, resource)) == Parse(resource, Render(a, resource))
  {
    ParseSigned('+', a, resource);
    ParseUnsigned(a, resource);
    ParsePartsUnsigned(a.whole, a.frac, Scale(a, resource));
    PlusOfDigits(a.whole);
    ParsePartsByWhole("+" + a.whole, a.whole, a.frac, Scale(a, resource));
  }

  lemma PlusOfDigits(digits: string)
    requires digits != [] && AllDigits(digits)
    ensures ParseI128("+" + digits) == ParseI128(digits)
  {
    assert ("+" + digits)[1..] == digits && IsDigit(digits[0]);
  }

  lemma PaddedNumberParses(pre: string, number: string, post: string, scale: int)
    requires IsBlank(pre) && IsBlank(post) && Trimmed(number)
    ensures ParseDecimalScaled(pre + number + post, scale) == ParseDecimalScaled(number, scale)
  {
    TrimPadded(pre, number, post);
    TrimShape(number);
  }

  lemma LetterFreeEnd(number: string, post: string)
    requires number != [] && !IsLetter(number[|number| - 1]) && IsBlank(post)
    ensures !IsLetter((number + post)[|number + post| - 1])
  {
    assert post != [] ==> IsWhitespace(post[|post| - 1]);
  }

  /** Blanks around the number, before its suffix, change nothing. */
  lemma PaddingIsIgnored(pre: string, a: Amount, post: string, resource: Resource)
    requires IsBlank(pre) && IsBlank(post) && IsAmount(a, resource)
    ensures Parse(resource, pre + NumberText(a) + post + Units(resource)[a.unit].0)
         == Parse(resource, Render(a, resource))
  {
    var number := NumberText(a);
    UnitsAreWellFormed(resource);
    NumberTextEnds(a);
    LetterFreeEnd(pre + number, post);
    SuffixChosen(pre + number + post, a.unit, Units(resource));
    SuffixChosen(number, a.unit, Units(resource));
    PaddedNumberParses(pre, number, post, Scale(a, resource));
  }

  // ---- Nothing else parses ----

  /** An optional sign, then digits. */
  predicate IsInteger(s: string) {
    var digits := if s != [] && s[0] in {'+', '-'} then s[1..] else s;
    digits != [] && AllDigits(digits)
  }

  /** An integer, or one with a dot behind it, or two with a dot between them. */
  predicate IsDecimal(s: string) {
    || IsInteger(s)
    || exists i :: 0 <= i < |s| && s[i] == '.' && IsInteger(s[..i]) && (i + 1 == |s| || IsInteger(s[i + 1..]))
  }

  lemma {:induction false} SplitAtDotShape(s: string)
    ensures var (whole, frac) := SplitAtDot(s);
            (s == whole && frac == []) || s == whole + "." + frac
  {
    if s != [] && s[0] != '.' {
      SplitAtDotShape(s[1..]);
      assert s == [s[0]] + s[1..];
    } else if s != [] {
      assert s == [] + "." + s[1..];
    }
  }

  lemma OnlyDecimalsParse(number: string, scale: int)
    requires ParseDecimalScaled(number, scale).Some?
    ensures IsDecimal(Trim(number))
  {
    var (whole, frac) := SplitAtDot(Trim(number));
    SplitAtDotShape(Trim(number));
    OnlyIntegerPartsParse(whole, frac, scale);
    PartsMakeADecimal(Trim(number), whole, frac);
  }

  lemma OnlyIntegersParse(s: string)
    requires ParseI128(s).Some?
    ensures IsInteger(s)
  {
  }

  lemma OnlyIntegerPartsParse(whole: string, frac: string, scale: int)
    requires ParseParts(whole, frac, scale).Some?
    ensures IsInteger(whole) && (frac == [] || IsInteger(frac))
  {
    OnlyIntegersParse(whole);
    if frac != [] {
      OnlyIntegersParse(frac);
    }
  }

  lemma PartsMakeADecimal(s: string, whole: string, frac: string)
    requires IsInteger(whole) && (frac == [] || IsInteger(frac))
    requires (s == whole && frac == []) || s == whole + "." + frac
    ensures IsDecimal(s)
  {
    if s == whole + "." + frac {
      var i := |whole|;
      assert s[i] == '.' && s[..i] == whole && s[i + 1..] == frac;
    }
  }

  lemma StrippedIsPrefix(s: string, suffix: string)
    requires StripSuffix(s, suffix).Some?
    ensures s == StripSuffix(s, suffix).value + suffix
  {
  }

  /** Whatever parses is a decimal number, padded at will, with one of the resource's suffixes. */
  lemma {:induction false} OnlyNumbersParse(quantity: string, units: seq<Unit>) returns (number: string, k: nat)
    requires ParseScaled(quantity, units).Some?
    ensures k < |units| && quantity == number + units[k].0 && IsDecimal(Trim(number))
  {
    var (suffix, scale) := units[0];
    var stripped := StripSuffix(quantity, suffix);
    if stripped.Some? && (suffix == [] || stripped.value != []) {
      number, k := stripped.value, 0;
      StrippedIsPrefix(quantity, suffix);
      OnlyDecimalsParse(number, scale);
    } else {
      number, k := OnlyNumbersParse(quantity, units[1..]);
      k := k + 1;
    }
  }
}

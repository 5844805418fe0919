/** How quantities are printed: the scales behind the suffixes, and which suffix a total gets. */
module QuantityPrinting {
  import opened Options
  import opened Text
  import opened Quantity

  function Power(base: nat, n: nat): nat {
    if n == 0 then 1 else base * Power(base, n - 1)
  }

  /** Thousandfold steps for CPU, from the nanocore up. */
  lemma CpuUnitsArePowers()
    ensures CPU_UNITS == [("n", 1), ("u", Power(1000, 1)), ("m", Power(1000, 2)), ("", Power(1000, 3))]
  {
    assert Power(1000, 3) == 1_000_000_000;
  }

  /** For memory, 1024-fold steps by the two-letter suffixes and thousandfold ones by the single letters. */
  lemma MemoryUnitsArePowers()
    ensures |MEMORY_UNITS| == 13 && MEMORY_UNITS[12] == ("", 1)
    ensures forall i :: 0 <= i < 6 ==>
              MEMORY_UNITS[i] == (["Ki", "Mi", "Gi", "Ti", "Pi", "Ei"][i], Power(1024, i + 1))
    ensures forall i :: 0 <= i < 6 ==> MEMORY_UNITS[i + 6] == (["k", "M", "G", "T", "P", "E"][i], Power(1000, i + 1))
  {
    PowersOf1024();
    PowersOf1000();
  }

  lemma PowersOf1024()
    ensures Power(1024, 1) == KI && Power(1024, 2) == MI && Power(1024, 3) == GI
    ensures Power(1024, 4) == TI && Power(1024, 5) == PI && Power(1024, 6) == EI
  {
    assert Power(1024, 2) == MI;
    assert Power(1024, 4) == TI;
  }

  lemma PowersOf1000()
    ensures Power(1000, 1) == 1_000 && Power(1000, 2) == 1_000_000 && Power(1000, 3) == 1_000_000_000
    ensures Power(1000, 4) == 1_000_000_000_000 && Power(1000, 5) == 1_000_000_000_000_000
    ensures Power(1000, 6) == 1_000_000_000_000_000_000
  {
    assert Power(1000, 2) == 1_000_000;
    assert Power(1000, 4) == 1_000_000_000_000;
  }

  // ---- The suffix of a printed total ----

  /** No earlier printed unit divides the amount. */
  predicate NoneDivides(bytes: nat, from: nat)
    requires from <= 6
  {
    from > 0 && bytes > 0 ==> bytes % PRINTED_MEMORY_UNITS[from - 1].1 != 0
  }

  lemma LargerUnitWouldDivide(count: nat, scale: nat)
    requires scale > 0 && count % 1024 == 0
    ensures (count * scale) % (1024 * scale) == 0
  {
    var q := count / 1024;
    assert count * scale == q * (1024 * scale);
    MultipleLeavesNothing(q, 1024 * scale);
  }

  lemma MultipleLeavesNothing(q: nat, d: nat)
    requires d > 0
    ensures (q * d) % d == 0
  {
    var n := q * d;
    var k := q - n / d;
    assert k * d == n % d;
    assert k >= 1 ==> k * d >= d;
    assert k <= -1 ==> k * d + d <= 0;
  }

  /** The printed text is a count and a suffix, and no larger unit would leave a whole count. */
  predicate IsPrintedAs(text: string, bytes: nat, count: nat, j: nat) {
    && j <= 6 && text == Decimal(count) + ["", "Ki", "Mi", "Gi", "Ti", "Pi", "Ei"][j]
    && count * Power(1024, j) == bytes && (j == 6 || bytes == 0 || count % 1024 != 0)
  }

  lemma PrintedUnitsArePowers(from: nat)
    requires from < 6
    ensures PRINTED_MEMORY_UNITS[from] == (["", "Ki", "Mi", "Gi", "Ti", "Pi", "Ei"][6 - from], Power(1024, 6 - from))
  {
    PowersOf1024();
  }

  lemma ChosenUnitPrints(bytes: nat, from: nat, scale: nat, count: nat)
    requires from < 6 && NoneDivides(bytes, from) && scale == PRINTED_MEMORY_UNITS[from].1
    requires count * scale == bytes && bytes >= scale > 0
    ensures IsPrintedAs(Decimal(count) + PRINTED_MEMORY_UNITS[from].0, bytes, count, 6 - from)
  {
    PrintedUnitsArePowers(from);
    if from > 0 {
      PrintedUnitsArePowers(from - 1);
      if count % 1024 == 0 {
        LargerUnitWouldDivide(count, scale);
      }
    }
  }

  lemma {:induction false} PrintsLargestUnit(bytes: nat, from: nat) returns (count: nat, j: nat)
    requires from <= 6 && NoneDivides(bytes, from)
    ensures IsPrintedAs(PrintWithLargestUnit(bytes, PRINTED_MEMORY_UNITS[from..]), bytes, count, j)
    decreases 6 - from
  {
    var units := PRINTED_MEMORY_UNITS[from..];
    if from == 6 {
      count, j := bytes, 0;
      PlainPrints(bytes);
    } else if bytes >= units[0].1 && bytes % units[0].1 == 0 {
      count, j := bytes / units[0].1, 6 - from;
      DivisionIsExact(bytes, units[0].1);
      ChosenUnitPrints(bytes, from, units[0].1, count);
    } else {
      assert units[1..] == PRINTED_MEMORY_UNITS[from + 1..];
      if bytes < units[0].1 {
        SmallLeavesItself(bytes, units[0].1);
      }
      count, j := PrintsLargestUnit(bytes, from + 1);
    }
  }

  lemma SmallLeavesItself(n: nat, d: nat)
    requires d > 0 && n < d
    ensures n % d == n
  {
  }

  lemma PlainPrints(bytes: nat)
    requires NoneDivides(bytes, 6)
    ensures IsPrintedAs(Decimal(bytes), bytes, bytes, 0)
  {
    assert Decimal(bytes) + "" == Decimal(bytes);
    assert PRINTED_MEMORY_UNITS[5].1 == 1024;
  }

  /** Memory is printed in the largest 1024-fold unit that leaves a whole count. */
  lemma MemoryIsPrintedInLargestUnit(bytes: nat) returns (count: nat, j: nat)
    ensures FormatMemory(bytes).Some? && IsPrintedAs(FormatMemory(bytes).value, bytes, count, j)
  {
    assert PRINTED_MEMORY_UNITS[0..] == PRINTED_MEMORY_UNITS;
    count, j := PrintsLargestUnit(bytes, 0);
  }

  /** CPU is printed in whole millicores if it can be, and in nanocores otherwise. */
  lemma CpuIsPrintedInMillicores(count: nat, rest: nat)
    requires rest < 1_000_000
    ensures FormatCpu(1_000_000 * count + rest)
         == Some(if rest == 0 then Decimal(count) + "m" else Decimal(1_000_000 * count + rest) + "n")
  {
    var total := 1_000_000 * count + rest;
    assert total % 1_000_000 == rest && total / 1_000_000 == count;
  }
}

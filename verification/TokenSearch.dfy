/** The skipping whole-token search used to recognise PostgreSQL services by name. */
module TokenSearch {
  import opened Options
  import opened Text

  predicate IsUpper(c: char) {
    'A' <= c <= 'Z'
  }

  function ToAsciiLower(s: string): (r: string)
    ensures |r| == |s|
    ensures forall i :: 0 <= i < |s| && IsUpper(s[i]) ==> r[i] as int - 'a' as int == s[i] as int - 'A' as int
    ensures forall i :: 0 <= i < |s| && !IsUpper(s[i]) ==> r[i] == s[i]
    ensures forall i :: 0 <= i < |s| ==> !IsUpper(r[i])
  {
    if s == [] then [] else [AsciiLower(s[0])] + ToAsciiLower(s[1..])
  }

  predicate IsAlphanumeric(c: char) {
    '0' <= c <= '9' || 'a' <= c <= 'z' || 'A' <= c <= 'Z'
  }

  /** A decimal digit, or a letter in either case. */
  lemma AlphanumericExactlyWhen(c: char)
    ensures IsAlphanumeric(c) <==> IsDigit(c) || 'a' <= AsciiLower(c) <= 'z'
  {
  }

  predicate OccursAt(text: string, needle: string, i: nat) {
    i + |needle| <= |text| && text[i..i + |needle|] == needle
  }

  /** An occurrence with no alphanumeric touching it on either side. */
  predicate IsTokenAt(text: string, needle: string, i: nat) {
    && OccursAt(text, needle, i)
    && (i > 0 ==> !IsAlphanumeric(text[i - 1]))
    && (i + |needle| < |text| ==> !IsAlphanumeric(text[i + |needle|]))
  }

  /** Cut around the needle, neither the text before ends nor the text behind begins with a digit or letter. */
  lemma StandsAloneExactlyWhen(pre: string, needle: string, post: string)
    ensures IsTokenAt(pre + needle + post, needle, |pre|)
            <==> && (pre != [] ==> var c := pre[|pre| - 1]; !IsDigit(c) && !('a' <= AsciiLower(c) <= 'z'))
                 && (post != [] ==> var c := post[0]; !IsDigit(c) && !('a' <= AsciiLower(c) <= 'z'))
  {
    var text := pre + needle + post;
    assert text[|pre|..|pre| + |needle|] == needle;
    if pre != [] {
      AlphanumericExactlyWhen(pre[|pre| - 1]);
    }
    if post != [] {
      AlphanumericExactlyWhen(post[0]);
    }
  }

  predicate HasToken(text: string, needle: string) {
    exists i :: 0 <= i <= |text| && IsTokenAt(text, needle, i)
  }

  /** `find` from a position: the first occurrence, if any. */
  function Find(text: string, needle: string, start: nat): (index: Option<nat>)
    ensures index.Some? ==> start <= index.value && OccursAt(text, needle, index.value)
    decreases |text| - start
  {
    if start + |needle| > |text| then None
    else if text[start..start + |needle|] == needle then Some(start)
    else Find(text, needle, start + 1)
  }

  lemma {:induction false} FindIsFirst(text: string, needle: string, start: nat, i: nat)
    requires start <= i && OccursAt(text, needle, i)
    ensures Find(text, needle, start).Some? && Find(text, needle, start).value <= i
    decreases |text| - start
  {
    if text[start..start + |needle|] != needle {
      FindIsFirst(text, needle, start + 1, i);
    }
  }

  /** The search as a function: look at the first occurrence, and past it if it is not a token. */
  function SkippingSearch(text: string, needle: string, start: nat): bool
    requires needle != []
    decreases |text| - start
  {
    match Find(text, needle, start)
    case None => false
    case Some(i) => IsTokenAt(text, needle, i) || SkippingSearch(text, needle, i + |needle|)
  }

  /** One look of the loop: the answer, if the next occurrence settles it, and otherwise where to look on. */
  method Look(text: string, needle: string, start: nat) returns (answer: Option<bool>, next: nat)
    requires needle != [] && start <= |text|
    ensures answer.Some? ==> answer.value == SkippingSearch(text, needle, start)
    ensures answer.None? ==>
              start < next <= |text| && SkippingSearch(text, needle, next) == SkippingSearch(text, needle, start)
  {
    SearchStep(text, needle, start);
    var index := Find(text, needle, start);
    if index.None? {
      return Some(false), start;
    }
    var i := index.value;
    var beforeOk := i == 0 || !IsAlphanumeric(text[i - 1]);
    var afterOk := i + |needle| == |text| || !IsAlphanumeric(text[i + |needle|]);
    answer, next := if beforeOk && afterOk then Some(true) else None, i + |needle|;
  }

  method SearchFromStart(text: string, needle: string) returns (found: bool)
    requires needle != []
    ensures found == SkippingSearch(text, needle, 0)
  {
    ghost var goal := SkippingSearch(text, needle, 0);
    var start := 0;
    while true
      invariant 0 <= start <= |text|
      invariant SkippingSearch(text, needle, start) == goal
      decreases |text| - start
    {
      var answer, next := Look(text, needle, start);
      if answer.Some? {
        return answer.value;
      }
      start := next;
    }
  }

  /** `contains_token`. The needle must not be empty, or the loop need not move. */
  method ContainsToken(value: string, needle: string) returns (found: bool)
    requires needle != []
    ensures found == SkippingSearch(ToAsciiLower(value), needle, 0)
  {
    found := SearchFromStart(ToAsciiLower(value), needle);
  }

  lemma SearchStep(text: string, needle: string, start: nat)
    requires needle != []
    ensures var index := Find(text, needle, start);
            SkippingSearch(text, needle, start)
            == (&& index.Some?
                && (|| IsTokenAt(text, needle, index.value)
                    || SkippingSearch(text, needle, index.value + |needle|)))
  {
  }

  /** The needle can overlap a copy of itself that starts `d` characters later. */
  predicate OverlapsItself(needle: string, d: nat) {
    0 < d < |needle| && needle[d..] == needle[..|needle| - d]
  }

  /** Wherever the needle can overlap itself, the later copy would follow an alphanumeric. */
  predicate OverlapsOnlyAfterAlphanumerics(needle: string) {
    forall d :: 0 < d < |needle| && OverlapsItself(needle, d) ==> IsAlphanumeric(needle[d - 1])
  }

  lemma OverlappingOccurrenceIsNoToken(text: string, needle: string, i: nat, j: nat)
    requires OverlapsOnlyAfterAlphanumerics(needle)
    requires OccursAt(text, needle, i) && i < j < i + |needle|
    ensures !IsTokenAt(text, needle, j)
  {
    var d := j - i;
    if OccursAt(text, needle, j) {
      assert needle[d..] == text[j..i + |needle|] == needle[..|needle| - d];
      assert OverlapsItself(needle, d);
      assert text[j - 1] == text[i..i + |needle|][d - 1];
    }
  }

  lemma {:induction false} SearchFindsAnyToken(text: string, needle: string, start: nat, j: nat)
    requires needle != [] && OverlapsOnlyAfterAlphanumerics(needle)
    requires start <= j && IsTokenAt(text, needle, j)
    ensures SkippingSearch(text, needle, start)
    decreases |text| - start
  {
    FindIsFirst(text, needle, start, j);
    var i := Find(text, needle, start).value;
    if !IsTokenAt(text, needle, i) {
      if j < i + |needle| {
        OverlappingOccurrenceIsNoToken(text, needle, i, j);
      }
      SearchFindsAnyToken(text, needle, i + |needle|, j);
    }
  }

  lemma {:induction false} SearchFindsOnlyTokens(text: string, needle: string, start: nat)
    requires needle != [] && SkippingSearch(text, needle, start)
    ensures HasToken(text, needle)
    decreases |text| - start
  {
    var i := Find(text, needle, start).value;
    if !IsTokenAt(text, needle, i) {
      SearchFindsOnlyTokens(text, needle, i + |needle|);
    }
  }

  predicate IsExactFor(needle: string, value: string)
    requires needle != []
  {
    SkippingSearch(ToAsciiLower(value), needle, 0) <==> HasToken(ToAsciiLower(value), needle)
  }

  /** A value whose token the search jumps over. */
  function MissedValue(needle: string, d: nat): string
    requires OverlapsItself(needle, d)
  {
    [if needle[0] == 'a' then 'b' else 'a'] + needle[..d] + needle
  }

  lemma MissedValueHoldsTwoCopies(needle: string, d: nat)
    requires OverlapsItself(needle, d)
    ensures var text := MissedValue(needle, d);
            && |text| == 1 + d + |needle| && text[d] == needle[d - 1]
            && !OccursAt(text, needle, 0) && OccursAt(text, needle, 1) && OccursAt(text, needle, 1 + d)
  {
    var text := MissedValue(needle, d);
    assert text[d] == needle[..d][d - 1];
    assert text[0..0 + |needle|][0] == text[0];
    assert text[1 + d..1 + d + |needle|] == needle;
    forall k | 0 <= k < |needle| ensures text[1 + k] == needle[k] {
      if k >= d {
        assert text[1 + k] == needle[k - d] == needle[..|needle| - d][k - d] == needle[d..][k - d];
      }
    }
    assert text[1..1 + |needle|] == needle;
  }

  lemma MissedValueIsMissed(needle: string, d: nat)
    requires OverlapsItself(needle, d) && !IsAlphanumeric(needle[d - 1])
    requires forall k :: 0 <= k < |needle| ==> !IsUpper(needle[k])
    ensures !IsExactFor(needle, MissedValue(needle, d))
  {
    var text := MissedValue(needle, d);
    MissedValueHoldsTwoCopies(needle, d);
    MissedValueIsLower(needle, d);
    assert IsTokenAt(text, needle, 1 + d);
    assert HasToken(text, needle);
    FindIsFirst(text, needle, 0, 1);
    assert Find(text, needle, 0) == Some(1);
    assert !IsTokenAt(text, needle, 1);
    SearchStep(text, needle, 0);
    SearchStep(text, needle, 1 + |needle|);
  }

  /** "a-a" overlaps itself after the hyphen, and the search jumps over the token in "ba-a-a". */
  lemma HyphenatedNeedleIsMissed()
    ensures !OverlapsOnlyAfterAlphanumerics("a-a")
    ensures HasToken(ToAsciiLower("ba-a-a"), "a-a") && !SkippingSearch(ToAsciiLower("ba-a-a"), "a-a", 0)
  {
    var needle := "a-a";
    assert needle[2..] == "a" == needle[..1];
    assert OverlapsItself(needle, 2);
    assert MissedValue(needle, 2) == "ba-a-a";
    MissedValueIsMissed(needle, 2);
    var text := ToAsciiLower("ba-a-a");
    if SkippingSearch(text, needle, 0) {
      SearchFindsOnlyTokens(text, needle, 0);
    }
  }

  lemma MissedValueIsLower(needle: string, d: nat)
    requires OverlapsItself(needle, d) && forall k :: 0 <= k < |needle| ==> !IsUpper(needle[k])
    ensures ToAsciiLower(MissedValue(needle, d)) == MissedValue(needle, d)
  {
    var text := MissedValue(needle, d);
    assert forall i :: 0 <= i < |text| ==> !IsUpper(text[i]);
  }

  /**
   The skipping search is exact on every value precisely for the needles that can never match (they
   hold an upper-case letter) or that overlap themselves only after an alphanumeric.
   */
  lemma SkippingSearchIsExactExactlyWhen(needle: string)
    requires needle != []
    ensures (forall value: string :: IsExactFor(needle, value))
            <==> (exists k :: 0 <= k < |needle| && IsUpper(needle[k])) || OverlapsOnlyAfterAlphanumerics(needle)
  {
    forall value: string
      ensures (exists k :: 0 <= k < |needle| && IsUpper(needle[k])) || OverlapsOnlyAfterAlphanumerics(needle)
              ==> IsExactFor(needle, value)
    {
      var text := ToAsciiLower(value);
      if k :| 0 <= k < |needle| && IsUpper(needle[k]) {
        UpperCaseNeverOccurs(text, needle, k);
      } else if OverlapsOnlyAfterAlphanumerics(needle) {
        if SkippingSearch(text, needle, 0) {
          SearchFindsOnlyTokens(text, needle, 0);
        }
        if i :| 0 <= i <= |text| && IsTokenAt(text, needle, i) {
          SearchFindsAnyToken(text, needle, 0, i);
        }
      }
    }
    if !OverlapsOnlyAfterAlphanumerics(needle) && forall k :: 0 <= k < |needle| ==> !IsUpper(needle[k]) {
      var d :| 0 < d < |needle| && OverlapsItself(needle, d) && !IsAlphanumeric(needle[d - 1]);
      MissedValueIsMissed(needle, d);
    }
  }

  lemma UpperCaseNeverOccurs(text: string, needle: string, k: nat)
    requires k < |needle| && IsUpper(needle[k])
    requires forall i :: 0 <= i < |text| ==> !IsUpper(text[i])
    ensures forall i: nat :: !OccursAt(text, needle, i)
  {
    forall i: nat ensures !OccursAt(text, needle, i) {
      if i + |needle| <= |text| {
        assert text[i..i + |needle|][k] == text[i + k];
      }
    }
  }

  const POSTGRESQL_NEEDLES: seq<string> := ["postgresql", "postgres", "pgsql"]

  /** So the needles in use are searched exactly. */
  lemma PostgresqlNeedlesAreExact(i: nat, value: string)
    requires i < |POSTGRESQL_NEEDLES|
    ensures POSTGRESQL_NEEDLES[i] != [] && IsExactFor(POSTGRESQL_NEEDLES[i], value)
  {
    var needle := POSTGRESQL_NEEDLES[i];
    assert forall k :: 0 <= k < |needle| ==> IsAlphanumeric(needle[k]);
    SkippingSearchIsExactExactlyWhen(needle);
  }

  /** `matches_clear_postgresql_name`: some needle stands alone in the value, whatever the case of its letters. */
  method MatchesClearPostgresqlName(value: string) returns (found: bool)
    ensures found <==> || HasToken(ToAsciiLower(value), "postgresql") || HasToken(ToAsciiLower(value), "postgres")
                       || HasToken(ToAsciiLower(value), "pgsql")
  {
    found := false;
    for i := 0 to |POSTGRESQL_NEEDLES|
      invariant found <==> exists k :: 0 <= k < i && HasToken(ToAsciiLower(value), POSTGRESQL_NEEDLES[k])
    {
      PostgresqlNeedlesAreExact(i, value);
      var has := ContainsToken(value, POSTGRESQL_NEEDLES[i]);
      found := found || has;
    }
    var text := ToAsciiLower(value);
    assert HasToken(text, POSTGRESQL_NEEDLES[0]) <==> HasToken(text, "postgresql");
    assert HasToken(text, POSTGRESQL_NEEDLES[1]) <==> HasToken(text, "postgres");
    assert HasToken(text, POSTGRESQL_NEEDLES[2]) <==> HasToken(text, "pgsql");
  }
}

/** Optional values: the source's `Option`. */
module Options {
  datatype Option<+T> = None | Some(value: T)
}

/** Facts about sets that several modules need. */
module Collections {
  function Elements<T>(s: seq<T>): set<T> {
    set x | x in s
  }

  lemma SubsetCardinality<T>(a: set<T>, b: set<T>)
    requires a <= b
    ensures |a| <= |b|
    ensures a != b ==> |a| < |b|
  {
    assert b == a + (b - a);
  }
}

/**
 Strings as the agent handles them: trimming, comma and line splitting, decimal digits.
 A string is a sequence of Unicode scalar values.
 */
module Text {
  import opened Options

  /** The Unicode White_Space property, which `str::trim` strips. */
  predicate IsWhitespace(c: char) {
    || '\t' <= c <= '\r'
    || c == ' '
    || c == '\U{0085}'
    || c == '\U{00A0}'
    || c == '\U{1680}'
    || '\U{2000}' <= c <= '\U{200A}'
    || c == '\U{2028}'
    || c == '\U{2029}'
    || c == '\U{202F}'
    || c == '\U{205F}'
    || c == '\U{3000}'
  }

  /** Among the ASCII characters, the five from tab to carriage return, and the space. */
  lemma AsciiWhitespaceExactlyWhen(c: char)
    requires c as int < 128
    ensures IsWhitespace(c) <==> c == ' ' || 9 <= c as int <= 13
  {
  }

  function TrimStart(s: string): string {
    if s != [] && IsWhitespace(s[0]) then TrimStart(s[1..]) else s
  }

  function TrimEnd(s: string): string {
    if s != [] && IsWhitespace(s[|s| - 1]) then TrimEnd(s[..|s| - 1]) else s
  }

  function Trim(s: string): string {
    TrimEnd(TrimStart(s))
  }

  /** No whitespace at either end. */
  predicate Trimmed(s: string) {
    s != [] ==> !IsWhitespace(s[0]) && !IsWhitespace(s[|s| - 1])
  }

  lemma TrimEndShape(s: string)
    ensures TrimEnd(s) <= s
    ensures TrimEnd(s) != [] ==> !IsWhitespace(TrimEnd(s)[|TrimEnd(s)| - 1])
  {
  }

  lemma TrimStartShape(s: string)
    ensures |TrimStart(s)| <= |s| && TrimStart(s) == s[|s| - |TrimStart(s)|..]
    ensures TrimStart(s) != [] ==> !IsWhitespace(TrimStart(s)[0])
  {
  }

  /** `trim` returns a trimmed slice of its argument, and changes nothing that is already trimmed. */
  lemma TrimShape(s: string)
    ensures Trimmed(Trim(s))
    ensures forall c :: c in Trim(s) ==> c in s
    ensures Trimmed(s) ==> Trim(s) == s
  {
    TrimStartShape(s);
    TrimEndShape(TrimStart(s));
  }

  predicate IsBlank(s: string) {
    forall i :: 0 <= i < |s| ==> IsWhitespace(s[i])
  }

  lemma {:induction false} TrimStartPadded(pre: string, s: string)
    requires IsBlank(pre) && (s != [] ==> !IsWhitespace(s[0]))
    ensures TrimStart(pre + s) == s
  {
    if pre == [] {
      assert pre + s == s;
    } else {
      TrimStartPadded(pre[1..], s);
      assert (pre + s)[1..] == pre[1..] + s;
    }
  }

  lemma {:induction false} TrimEndPadded(s: string, post: string)
    requires IsBlank(post) && (s != [] ==> !IsWhitespace(s[|s| - 1]))
    ensures TrimEnd(s + post) == s
  {
    if post == [] {
      assert s + post == s;
    } else {
      TrimEndPadded(s, post[..|post| - 1]);
      assert (s + post)[..|s + post| - 1] == s + post[..|post| - 1];
    }
  }

  /** `trim` takes whitespace padding off, all of it, and nothing else. */
  lemma TrimPadded(pre: string, s: string, post: string)
    requires IsBlank(pre) && IsBlank(post) && Trimmed(s)
    ensures Trim(pre + s + post) == s
  {
    if s == [] {
      assert pre + s + post == (pre + post) + [];
      TrimStartPadded(pre + post, []);
    } else {
      assert pre + s + post == pre + (s + post);
      TrimStartPadded(pre, s + post);
      TrimEndPadded(s, post);
    }
  }

  lemma {:induction false} TrimEndRest(s: string)
    ensures TrimEnd(s) <= s && IsBlank(s[|TrimEnd(s)|..])
  {
    if s != [] && IsWhitespace(s[|s| - 1]) {
      var init := s[..|s| - 1];
      TrimEndRest(init);
      assert s[|TrimEnd(s)|..] == init[|TrimEnd(s)|..] + [s[|s| - 1]];
    }
  }

  lemma {:induction false} TrimStartRest(s: string)
    ensures |TrimStart(s)| <= |s| && IsBlank(s[..|s| - |TrimStart(s)|])
    ensures s == s[..|s| - |TrimStart(s)|] + TrimStart(s)
  {
    if s != [] && IsWhitespace(s[0]) {
      var rest := s[1..];
      TrimStartRest(rest);
      assert s[..|s| - |TrimStart(s)|] == [s[0]] + rest[..|rest| - |TrimStart(s)|];
    }
  }

  /** Every string is its trimmed text between two blank paddings. */
  lemma TrimLeavesPadding(s: string) returns (pre: string, post: string)
    ensures IsBlank(pre) && IsBlank(post) && s == pre + Trim(s) + post
  {
    TrimStartRest(s);
    TrimEndRest(TrimStart(s));
    pre, post := s[..|s| - |TrimStart(s)|], TrimStart(s)[|Trim(s)|..];
  }

  /** `str::split` on one character: always at least one piece. */
  function Split(s: string, sep: char): (pieces: seq<string>)
    ensures pieces != []
  {
    if s == [] then [[]]
    else
      var rest := Split(s[1..], sep);
      if s[0] == sep then [[]] + rest else [[s[0]] + rest[0]] + rest[1..]
  }

  /** `join` with a one-character separator. */
  function Join(pieces: seq<string>, sep: char): string {
    if pieces == [] then []
    else if |pieces| == 1 then pieces[0]
    else pieces[0] + [sep] + Join(pieces[1..], sep)
  }

  lemma {:induction false} SplitPiece(piece: string, sep: char, rest: string)
    requires sep !in piece
    ensures Split(piece, sep) == [piece]
    ensures Split(piece + [sep] + rest, sep) == [piece] + Split(rest, sep)
  {
    if piece == [] {
      assert piece + [sep] + rest == [sep] + rest;
    } else {
      SplitPiece(piece[1..], sep, rest);
      assert (piece + [sep] + rest)[1..] == piece[1..] + [sep] + rest;
      assert [piece[0]] + piece[1..] == piece;
    }
  }

  lemma TailOfConcat<T>(a: seq<T>, b: seq<T>)
    requires a != []
    ensures (a + b)[0] == a[0] && (a + b)[1..] == a[1..] + b
  {
  }

  /** What one more character in front makes of the pieces. */
  function Grown(c: char, pieces: seq<string>, sep: char): seq<string>
    requires pieces != []
  {
    if c == sep then [[]] + pieces else [[c] + pieces[0]] + pieces[1..]
  }

  lemma GrownConcat(c: char, a: seq<string>, b: seq<string>, sep: char)
    requires a != []
    ensures Grown(c, a + b, sep) == Grown(c, a, sep) + b
  {
    TailOfConcat(a, b);
  }

  lemma SplitStep(c: char, rest: string, sep: char)
    ensures Split([c] + rest, sep) == Grown(c, Split(rest, sep), sep)
  {
    assert ([c] + rest)[1..] == rest;
  }

  /** Splitting two texts joined by the separator is splitting each. */
  lemma {:induction false} SplitConcat(a: string, sep: char, b: string)
    ensures Split(a + [sep] + b, sep) == Split(a, sep) + Split(b, sep)
  {
    if a == [] {
      assert [sep] + b == a + [sep] + b;
      SplitStep(sep, b, sep);
    } else {
      var tail := a[1..];
      calc {
        Split(a + [sep] + b, sep);
        { assert a + [sep] + b == [a[0]] + (tail + [sep] + b); SplitStep(a[0], tail + [sep] + b, sep); }
        Grown(a[0], Split(tail + [sep] + b, sep), sep);
        { SplitConcat(tail, sep, b); }
        Grown(a[0], Split(tail, sep) + Split(b, sep), sep);
        { GrownConcat(a[0], Split(tail, sep), Split(b, sep), sep); }
        Grown(a[0], Split(tail, sep), sep) + Split(b, sep);
        { assert [a[0]] + tail == a; SplitStep(a[0], tail, sep); }
        Split(a, sep) + Split(b, sep);
      }
    }
  }

  /** Splitting undoes joining when no piece contains the separator. */
  lemma {:induction false} SplitJoin(pieces: seq<string>, sep: char)
    requires pieces != []
    requires forall p :: p in pieces ==> sep !in p
    ensures Split(Join(pieces, sep), sep) == pieces
  {
    if |pieces| == 1 {
      SplitPiece(pieces[0], sep, []);
    } else {
      SplitJoin(pieces[1..], sep);
      SplitPiece(pieces[0], sep, Join(pieces[1..], sep));
    }
  }

  lemma {:induction false} SplitPiecesAvoidSeparator(s: string, sep: char)
    ensures forall p :: p in Split(s, sep) ==> sep !in p
  {
    if s != [] {
      SplitPiecesAvoidSeparator(s[1..], sep);
      var rest := Split(s[1..], sep);
      forall p | p in Split(s, sep) ensures sep !in p {
        if s[0] != sep && p != Split(s, sep)[0] {
          assert p in rest[1..];
        }
      }
    }
  }

  predicate IsDigit(c: char) {
    '0' <= c <= '9'
  }

  function DigitOf(c: char): (d: nat)
    requires IsDigit(c)
    ensures d < 10
  {
    c as int - '0' as int
  }

  predicate AllDigits(s: string) {
    forall i :: 0 <= i < |s| ==> IsDigit(s[i])
  }

  function Pow10(n: nat): (r: nat)
    ensures r > 0
  {
    if n == 0 then 1 else 10 * Pow10(n - 1)
  }

  /** The number a digit string denotes; the empty string denotes zero. */
  function DigitsValue(s: string): nat
    requires AllDigits(s)
  {
    if s == [] then 0
    else 10 * DigitsValue(s[..|s| - 1]) + DigitOf(s[|s| - 1])
  }

  lemma {:induction false} DigitsValueConcat(a: string, b: string)
    requires AllDigits(a) && AllDigits(b)
    ensures AllDigits(a + b)
    ensures DigitsValue(a + b) == DigitsValue(a) * Pow10(|b|) + DigitsValue(b)
  {
    if b == [] {
      assert a + b == a;
    } else {
      var init := b[..|b| - 1];
      DigitsValueConcat(a, init);
      assert (a + b)[..|a + b| - 1] == a + init;
      ShiftByTen(DigitsValue(a), Pow10(|init|), DigitsValue(init));
    }
  }

  lemma ShiftByTen(a: int, p: int, b: int)
    ensures 10 * (a * p + b) == a * (10 * p) + 10 * b
  {
  }

  lemma {:induction false} DigitsValueBound(s: string)
    requires AllDigits(s)
    ensures DigitsValue(s) < Pow10(|s|)
  {
    if s != [] {
      DigitsValueBound(s[..|s| - 1]);
    }
  }

  /** Decimal printing of a natural number, as `to_string` does it. */
  function Decimal(n: nat): (s: string)
    ensures s != [] && AllDigits(s) && DigitsValue(s) == n
  {
    var last := ['0' + (n % 10) as char];
    if n < 10 then last
    else
      var front := Decimal(n / 10);
      assert (front + last)[..|front + last| - 1] == front;
      front + last
  }

  function AsciiLower(c: char): (r: char)
    ensures !('A' <= r <= 'Z')
    ensures 'A' <= c <= 'Z' ==> 'a' <= r <= 'z' && r as int - 'a' as int == c as int - 'A' as int
  {
    if 'A' <= c <= 'Z' then (c as int + 32) as char else c
  }

  /** `strip_suffix`. */
  function StripSuffix(s: string, suffix: string): Option<string> {
    if |suffix| <= |s| && s[|s| - |suffix|..] == suffix then Some(s[..|s| - |suffix|]) else None
  }
}

/**
 * The few Python string operations the pipeline relies on: `str.split` with an
 * explicit one-character separator, `sep.join`, `str.replace` of one character,
 * and the decimal subset of `float()` applied to a table field.
 */
module PyStr {
  import opened Wrappers

  /** Number of occurrences of `c` in `s`. */
  function Occurrences(s: string, c: char): (n: nat)
    ensures n <= |s|
  {
    if s == [] then 0 else (if s[0] == c then 1 else 0) + Occurrences(s[1..], c)
  }

  /** `s.split(sep)`: the maximal pieces between occurrences of `sep`, empty pieces included. */
  function Split(s: string, sep: char): (parts: seq<string>)
    ensures |parts| == Occurrences(s, sep) + 1
  {
    if s == [] then [[]]
    else
      var rest := Split(s[1..], sep);
      if s[0] == sep then [[]] + rest
      else [[s[0]] + rest[0]] + rest[1..]
  }

  /** `sep.join(parts)`. */
  function Join(parts: seq<string>, sep: char): string
  {
    if parts == [] then []
    else if |parts| == 1 then parts[0]
    else parts[0] + [sep] + Join(parts[1..], sep)
  }

  /** `s.replace(a, b)` for single characters. */
  function Replace(s: string, a: char, b: char): string
  {
    seq(|s|, i requires 0 <= i < |s| => if s[i] == a then b else s[i])
  }

  lemma ReplaceConcat(x: string, y: string, a: char, b: char)
    ensures Replace(x + y, a, b) == Replace(x, a, b) + Replace(y, a, b)
  {
    assert forall i :: 0 <= i < |x + y| ==> Replace(x + y, a, b)[i] == (Replace(x, a, b) + Replace(y, a, b))[i];
  }

  lemma ReplaceAbsent(x: string, a: char, b: char)
    requires a !in x
    ensures Replace(x, a, b) == x
  {
  }

  /** Replacing `a` by `b` brings in no character other than `b`. */
  lemma ReplaceAvoids(s: string, a: char, b: char, c: char)
    requires c !in s && c != b
    ensures c !in Replace(s, a, b)
  {
    var r := Replace(s, a, b);
    forall i | 0 <= i < |r| ensures r[i] != c {
      assert r[i] == s[i] || r[i] == b;
    }
  }

  /** Joining the pieces of a split restores the string. */
  lemma {:induction false} SplitThenJoin(s: string, sep: char)
    ensures Join(Split(s, sep), sep) == s
  {
    if s != [] {
      var rest := Split(s[1..], sep);
      SplitThenJoin(s[1..], sep);
      if s[0] != sep && |rest| > 1 {
        assert Join(rest, sep) == rest[0] + [sep] + Join(rest[1..], sep);
      }
    }
  }

  /** A piece free of the separator stays glued to the first piece of what follows it. */
  lemma {:induction false} SplitAfterPlainPrefix(p: string, t: string, sep: char)
    requires sep !in p
    ensures Split(p + t, sep) == [p + Split(t, sep)[0]] + Split(t, sep)[1..]
  {
    if p != [] {
      var parts := Split(t, sep);
      SplitAfterPlainPrefix(p[1..], t, sep);
      assert (p + t)[1..] == p[1..] + t;
      assert (p + t)[0] == p[0] != sep;
      var rest := Split(p[1..] + t, sep);
      assert rest[0] == p[1..] + parts[0] && rest[1..] == parts[1..];
      assert [p[0]] + (p[1..] + parts[0]) == p + parts[0];
    } else {
      var parts := Split(t, sep);
      assert p + t == t;
      assert p + parts[0] == parts[0];
      assert [parts[0]] + parts[1..] == parts;
    }
  }

  /** A separator-free piece followed by the separator splits off as one piece. */
  lemma SplitAtSeparator(p: string, t: string, sep: char)
    requires sep !in p
    ensures Split(p + [sep] + t, sep) == [p] + Split(t, sep)
  {
    SplitAfterPlainPrefix(p, [sep] + t, sep);
    assert p + [sep] + t == p + ([sep] + t);
    assert ([sep] + t)[1..] == t;
    assert p + [] == p;
  }

  /** Splitting a join of separator-free pieces gives the pieces back. */
  lemma {:induction false} JoinThenSplit(parts: seq<string>, sep: char)
    requires |parts| >= 1
    requires forall i :: 0 <= i < |parts| ==> sep !in parts[i]
    ensures Split(Join(parts, sep), sep) == parts
  {
    if |parts| == 1 {
      SplitAfterPlainPrefix(parts[0], [], sep);
      assert parts[0] + [] == parts[0];
    } else {
      var tail := Join(parts[1..], sep);
      JoinThenSplit(parts[1..], sep);
      SplitAfterPlainPrefix(parts[0], [sep] + tail, sep);
      assert ([sep] + tail)[1..] == tail;
      assert Split([sep] + tail, sep) == [[]] + parts[1..];
      assert parts[0] + [] == parts[0];
      assert parts[0] + [sep] + tail == parts[0] + ([sep] + tail);
      assert [parts[0]] + parts[1..] == parts;
    }
  }

  lemma {:induction false} OccurrencesZeroIff(s: string, c: char)
    ensures Occurrences(s, c) == 0 <==> c !in s
  {
    if s != [] {
      OccurrencesZeroIff(s[1..], c);
      assert c in s <==> s[0] == c || c in s[1..];
    }
  }

  /** No piece of a split contains the separator. */
  lemma {:induction false} SplitPiecesFree(s: string, sep: char)
    ensures forall i :: 0 <= i < |Split(s, sep)| ==> sep !in Split(s, sep)[i]
  {
    if s != [] {
      SplitPiecesFree(s[1..], sep);
    }
  }

  /** A character absent from the string is absent from every piece of its split. */
  lemma {:induction false} SplitPiecesAvoid(s: string, sep: char, c: char)
    requires c !in s
    ensures forall i :: 0 <= i < |Split(s, sep)| ==> c !in Split(s, sep)[i]
  {
    if s != [] {
      SplitPiecesAvoid(s[1..], sep, c);
    }
  }

  // ---------------------------------------------------------------------------
  // float(): the decimal subset

  /** The ASCII characters Python strips around a number. */
  predicate IsSpace(c: char)
  {
    c == ' ' || c == '\t' || c == '\n' || c == '\r' || c as int == 11 || c as int == 12
  }

  function StripLeft(s: string): (r: string)
    ensures |r| <= |s| && r == s[|s| - |r|..]
    ensures r == [] || !IsSpace(r[0])
    ensures forall i :: 0 <= i < |s| - |r| ==> IsSpace(s[i])
  {
    if s != [] && IsSpace(s[0]) then StripLeft(s[1..]) else s
  }

  function StripRight(s: string): (r: string)
    ensures |r| <= |s| && r == s[..|r|]
    ensures r == [] || !IsSpace(r[|r| - 1])
    ensures forall i :: |r| <= i < |s| ==> IsSpace(s[i])
  {
    if s != [] && IsSpace(s[|s| - 1]) then StripRight(s[..|s| - 1]) else s
  }

  /** The whitespace `float()` ignores around a number, removed from both ends. */
  function Strip(s: string): string
  {
    StripRight(StripLeft(s))
  }

  predicate IsDigit(c: char)
  {
    '0' <= c <= '9'
  }

  predicate AllDigits(s: string)
  {
    forall i :: 0 <= i < |s| ==> IsDigit(s[i])
  }

  /** Value of a string of decimal digits, most significant first. */
  function DigitsValue(s: string): nat
    requires AllDigits(s)
  {
    if s == [] then 0 else 10 * DigitsValue(s[..|s| - 1]) + (s[|s| - 1] - '0') as nat
  }

  function Pow10(n: nat): (p: nat)
    ensures p >= 1
  {
    if n == 0 then 1 else 10 * Pow10(n - 1)
  }

  /**
   * The number `float()` reads from decimal text, kept exact: the digits read
   * as one natural number, and the count of digits after the point. Its value
   * is `digits / 10^scale`, negated when the text had a minus sign.
   */
  datatype Decimal = Decimal(negative: bool, digits: nat, scale: nat)

  function Value(d: Decimal): real
  {
    var magnitude := d.digits as real / Pow10(d.scale) as real;
    if d.negative then -magnitude else magnitude
  }

  /** The test `x > 0`, read off the digits without computing the value. */
  predicate Positive(d: Decimal)
  {
    !d.negative && d.digits > 0
  }

  /** An unsigned decimal: `digits`, `digits.`, `.digits` or `digits.digits`. */
  function ParseUnsigned(t: string): Option<Decimal>
  {
    var parts := Split(t, '.');
    if |parts| == 1 && t != [] && AllDigits(t) then
      Some(Decimal(false, DigitsValue(t), 0))
    else if |parts| == 2 && AllDigits(parts[0]) && AllDigits(parts[1]) && |parts[0]| + |parts[1]| > 0 then
      AllDigitsAppend(parts[0], parts[1]);
      Some(Decimal(false, DigitsValue(parts[0] + parts[1]), |parts[1]|))
    else
      None
  }

  /** `float(s)` for decimal text: surrounding whitespace, an optional sign, an unsigned decimal. */
  function ParseNumber(s: string): Option<Decimal>
  {
    var t := Strip(s);
    if t != [] && (t[0] == '+' || t[0] == '-') then
      match ParseUnsigned(t[1..])
      case None => None
      case Some(d) => Some(d.(negative := t[0] == '-'))
    else
      ParseUnsigned(t)
  }

  /** A decimal is positive exactly when its value is above zero. */
  lemma PositiveIffAboveZero(d: Decimal)
    ensures Positive(d) <==> Value(d) > 0.0
  {
    var p := Pow10(d.scale) as real;
    var magnitude := d.digits as real / p;
    assert magnitude * p == d.digits as real;
    assert d.digits > 0 ==> magnitude > 0.0;
    assert magnitude >= 0.0;
  }

  lemma AllDigitsAppend(a: string, b: string)
    requires AllDigits(a) && AllDigits(b)
    ensures AllDigits(a + b)
  {
    assert forall i :: |a| <= i < |a + b| ==> (a + b)[i] == b[i - |a|];
  }

  /** Appending a digit `d` to `y` while `x` moves one place up. */
  lemma ShiftDigit(x: int, p: int, y: int, d: int)
    ensures 10 * (x * p + y) + d == x * (10 * p) + (10 * y + d)
  {
  }

  /** Reading the digits after a point appends them to the digits before it. */
  lemma {:induction false} DigitsValueAppend(a: string, b: string)
    requires AllDigits(a) && AllDigits(b)
    ensures AllDigits(a + b)
    ensures DigitsValue(a + b) == DigitsValue(a) * Pow10(|b|) + DigitsValue(b)
  {
    AllDigitsAppend(a, b);
    if b != [] {
      var b' := b[..|b| - 1];
      assert (a + b)[..|a + b| - 1] == a + b';
      assert (a + b)[|a + b| - 1] == b[|b| - 1];
      AllDigitsAppend(a, b');
      DigitsValueAppend(a, b');
      var x, y, p, d := DigitsValue(a), DigitsValue(b'), Pow10(|b'|), (b[|b| - 1] - '0') as nat;
      assert DigitsValue(a + b) == 10 * (x * p + y) + d;
      assert DigitsValue(b) == 10 * y + d;
      assert Pow10(|b|) == 10 * p;
      ShiftDigit(x, p, y, d);
    } else {
      assert a + b == a;
    }
  }

  /** `w.f` with digits on either side reads as the digits of `w` and `f` together, scaled by `|f|`. */
  lemma ParsePoint(w: string, f: string)
    requires AllDigits(w) && AllDigits(f) && |w| + |f| > 0
    ensures AllDigits(w + f)
    ensures ParseUnsigned(w + "." + f) == Some(Decimal(false, DigitsValue(w + f), |f|))
  {
    DigitsHaveNoPoint(w);
    DigitsHaveNoPoint(f);
    SplitAtSeparator(w, f, '.');
    SplitWithoutSeparator(f, '.');
    assert w + "." + f == w + ['.'] + f;
    AllDigitsAppend(w, f);
  }

  lemma FractionValue(x: nat, y: nat, p: nat)
    requires p >= 1
    ensures (x * p + y) as real / p as real == x as real + y as real / p as real
  {
    var r := p as real;
    assert (x * p + y) as real == x as real * r + y as real;
  }

  lemma PointDecimalValue(w: string, f: string)
    requires AllDigits(w) && AllDigits(f)
    ensures AllDigits(w + f)
    ensures Value(Decimal(false, DigitsValue(w + f), |f|))
      == DigitsValue(w) as real + DigitsValue(f) as real / Pow10(|f|) as real
  {
    DigitsValueAppend(w, f);
    FractionValue(DigitsValue(w), DigitsValue(f), Pow10(|f|));
  }

  /** `float("w.f")`: the whole part `w` plus the fraction `f / 10^|f|`. */
  lemma PointValue(w: string, f: string)
    requires AllDigits(w) && AllDigits(f) && |w| + |f| > 0
    ensures ParseNumber(w + "." + f).Some?
    ensures Value(ParseNumber(w + "." + f).value)
      == DigitsValue(w) as real + DigitsValue(f) as real / Pow10(|f|) as real
  {
    PointIsPlainText(w, f);
    ParseUnsignedText(w + "." + f);
    ParsePoint(w, f);
    PointDecimalValue(w, f);
  }

  /** `w.f` has no whitespace and does not start with a sign. */
  lemma PointIsPlainText(w: string, f: string)
    requires AllDigits(w) && AllDigits(f)
    ensures var t := w + "." + f;
      t[0] != '+' && t[0] != '-' && forall i :: 0 <= i < |t| ==> !IsSpace(t[i])
  {
    var t := w + "." + f;
    forall i | 0 <= i < |t| ensures !IsSpace(t[i]) && t[i] != '+' && t[i] != '-' {
      if i < |w| {
        assert t[i] == w[i] && IsDigit(w[i]);
      } else if i > |w| {
        assert t[i] == f[i - |w| - 1] && IsDigit(f[i - |w| - 1]);
      }
    }
  }

  /** `str(n)` for a natural number. */
  function NatToString(n: nat): (s: string)
    ensures s != [] && AllDigits(s)
  {
    if n < 10 then [('0' as int + n) as char]
    else NatToString(n / 10) + [('0' as int + n % 10) as char]
  }

  lemma {:induction false} NatToStringValue(n: nat)
    ensures DigitsValue(NatToString(n)) == n
  {
    var s := NatToString(n);
    if n >= 10 {
      NatToStringValue(n / 10);
      assert s[..|s| - 1] == NatToString(n / 10);
    }
  }

  lemma NoSpaceStripsToItself(s: string)
    requires forall i :: 0 <= i < |s| ==> !IsSpace(s[i])
    ensures Strip(s) == s
  {
  }

  /** Text without the separator splits into itself alone. */
  lemma SplitWithoutSeparator(t: string, sep: char)
    requires sep !in t
    ensures Split(t, sep) == [t]
  {
    JoinThenSplit([t], sep);
    assert Join([t], sep) == t;
  }

  lemma DigitsHaveNoPoint(t: string)
    requires AllDigits(t)
    ensures '.' !in t
  {
    assert forall i :: 0 <= i < |t| ==> IsDigit(t[i]);
  }

  /** Digits with no point read as a whole number. */
  lemma ParseWhole(t: string)
    requires t != [] && AllDigits(t)
    ensures ParseUnsigned(t) == Some(Decimal(false, DigitsValue(t), 0))
  {
    DigitsHaveNoPoint(t);
    SplitWithoutSeparator(t, '.');
  }

  /** Text with no whitespace and no leading sign is read unsigned. */
  lemma ParseUnsignedText(t: string)
    requires t != [] && t[0] != '+' && t[0] != '-'
    requires forall i :: 0 <= i < |t| ==> !IsSpace(t[i])
    ensures ParseNumber(t) == ParseUnsigned(t)
  {
    NoSpaceStripsToItself(t);
  }

  /** A plain run of digits reads as its digits, with no sign and no scale. */
  lemma ParseDigits(t: string)
    requires t != [] && AllDigits(t)
    ensures ParseNumber(t) == Some(Decimal(false, DigitsValue(t), 0))
  {
    assert forall i :: 0 <= i < |t| ==> IsDigit(t[i]);
    ParseUnsignedText(t);
    ParseWhole(t);
  }

  /** The text of a natural number reads back as that number. */
  lemma ParseNatRoundTrip(n: nat)
    ensures ParseNumber(NatToString(n)) == Some(Decimal(false, n, 0))
    ensures Value(ParseNumber(NatToString(n)).value) == n as real
  {
    ParseDigits(NatToString(n));
    NatToStringValue(n);
    assert Pow10(0) == 1;
  }
}

/**
 * The character-level operations behind the SQL string functions the pipeline
 * relies on: decimal rendering and parsing, padding, substrings, and splitting
 * and joining on a separator.
 */
module Text {
  import opened Outcomes

  predicate IsDigit(c: char) { '0' <= c <= '9' }

  predicate AllDigits(s: string) { forall i | 0 <= i < |s| :: IsDigit(s[i]) }

  function DigitChar(d: nat): (c: char)
    requires d < 10
    ensures IsDigit(c)
  {
    ('0' as int + d) as char
  }

  function DigitValue(c: char): (d: nat)
    requires IsDigit(c)
    ensures d < 10 && DigitChar(d) == c
  {
    c as int - '0' as int
  }

  lemma DigitsExclude(s: string, c: char)
    requires AllDigits(s) && !IsDigit(c)
    ensures c !in s
  {
  }

  function Repeat(c: char, n: nat): string
  {
    seq(n, _ => c)
  }

  // ---------------------------------------------------------------------------
  // Decimal numerals

  /** The canonical decimal text of `n`: digits only, and no leading zero. */
  function NatToDecimal(n: nat): (s: string)
    ensures |s| >= 1 && AllDigits(s)
    ensures s[0] == '0' ==> n == 0 && |s| == 1
  {
    if n < 10 then [DigitChar(n)] else NatToDecimal(n / 10) + [DigitChar(n % 10)]
  }

  /** The number a string of decimal digits denotes; leading zeros are allowed. */
  function DecimalValue(s: string): nat
    requires AllDigits(s)
  {
    if s == [] then 0 else 10 * DecimalValue(s[..|s| - 1]) + DigitValue(s[|s| - 1])
  }

  /** Reading back the rendered numeral gives the number. */
  lemma {:induction false} DecimalRoundTrip(n: nat)
    ensures DecimalValue(NatToDecimal(n)) == n
  {
    if n >= 10 {
      var s := NatToDecimal(n);
      assert s[..|s| - 1] == NatToDecimal(n / 10);
      DecimalRoundTrip(n / 10);
    }
  }

  /** A numeral without a leading zero is the canonical text of its value. */
  lemma {:induction false} DecimalCanonical(s: string)
    requires |s| >= 1 && AllDigits(s)
    requires s[0] == '0' ==> |s| == 1
    ensures s == NatToDecimal(DecimalValue(s))
  {
    var d := s[|s| - 1];
    if |s| == 1 {
      assert s[..0] == [];
      assert s == [DigitChar(DigitValue(d))];
    } else {
      var front := s[..|s| - 1];
      assert front[0] == s[0];
      DecimalCanonical(front);
      var m := DecimalValue(front);
      assert NatToDecimal(0)[0] == '0' && front[0] != '0';
      assert m != 0;
      var n := DecimalValue(s);
      assert n == 10 * m + DigitValue(d);
      assert n / 10 == m && n % 10 == DigitValue(d);
      assert s == front + [d];
    }
  }

  lemma {:induction false} DecimalInjective(a: nat, b: nat)
    requires NatToDecimal(a) == NatToDecimal(b)
    ensures a == b
  {
    DecimalRoundTrip(a);
    DecimalRoundTrip(b);
  }

  lemma {:induction false} ZerosValue(z: string)
    requires forall i | 0 <= i < |z| :: z[i] == '0'
    ensures AllDigits(z) && DecimalValue(z) == 0
  {
    if z != [] {
      ZerosValue(z[..|z| - 1]);
    }
  }

  /** Leading zeros do not change the value of a numeral. */
  lemma {:induction false} LeadingZerosIgnored(z: string, s: string)
    requires forall i | 0 <= i < |z| :: z[i] == '0'
    requires AllDigits(s)
    ensures AllDigits(z + s) && DecimalValue(z + s) == DecimalValue(s)
  {
    if s == [] {
      assert z + s == z;
      ZerosValue(z);
    } else {
      var s' := s[..|s| - 1];
      assert (z + s)[..|z + s| - 1] == z + s';
      LeadingZerosIgnored(z, s');
    }
  }

  /** Two trailing digits contribute their own value; the rest is scaled by a hundred. */
  lemma DecimalAppendTwo(a: string, b: string)
    requires AllDigits(a) && AllDigits(b) && |b| == 2
    ensures AllDigits(a + b)
    ensures DecimalValue(a + b) == 100 * DecimalValue(a) + DecimalValue(b)
  {
    var s := a + b;
    var a1 := a + [b[0]];
    assert s[..|s| - 1] == a1;
    assert a1[..|a1| - 1] == a;
    assert DecimalValue(a1) == 10 * DecimalValue(a) + DigitValue(b[0]);
    assert DecimalValue(b) == 10 * DecimalValue(b[..1]) + DigitValue(b[1]);
    assert b[..1][..0] == [];
    assert DecimalValue(b[..1]) == DigitValue(b[0]);
  }

  /** A numeral of at most two digits denotes less than a hundred. */
  lemma TwoDigitBound(s: string)
    requires AllDigits(s) && |s| <= 2
    ensures DecimalValue(s) < 100
  {
    if |s| == 2 {
      assert s[..1][..0] == [];
      assert DecimalValue(s[..1]) == DigitValue(s[0]);
    }
  }

  /** Left-pads with zeros up to `width` and never truncates (date and time fields). */
  function ZeroPad(s: string, width: nat): (r: string)
    ensures |r| == if |s| >= width then |s| else width
  {
    if |s| >= width then s else Repeat('0', width - |s|) + s
  }

  lemma ZeroPadValue(s: string, width: nat)
    requires AllDigits(s)
    ensures AllDigits(ZeroPad(s, width)) && DecimalValue(ZeroPad(s, width)) == DecimalValue(s)
  {
    if |s| < width {
      LeadingZerosIgnored(Repeat('0', width - |s|), s);
    }
  }

  // ---------------------------------------------------------------------------
  // Integers as text

  /** The text form of an integer: a minus sign for a negative one, then its decimal digits. */
  function IntToText(i: int): (s: string)
    ensures |s| >= 1 && ',' !in s && ':' !in s
  {
    var digits := NatToDecimal(if i < 0 then -i else i);
    DigitsExclude(digits, ',');
    DigitsExclude(digits, ':');
    if i < 0 then "-" + digits else digits
  }

  /**
   * The integer a text denotes in the form an integer cast accepts: an optional
   * sign followed by one or more decimal digits. A text with no digit in it
   * never parses.
   */
  function ParseInt(s: string): (r: Option<int>)
    ensures (forall i | 0 <= i < |s| :: !IsDigit(s[i])) ==> r.None?
  {
    if |s| >= 2 && s[0] == '-' && AllDigits(s[1..]) then Some(0 - DecimalValue(s[1..]) as int)
    else if |s| >= 2 && s[0] == '+' && AllDigits(s[1..]) then Some(DecimalValue(s[1..]))
    else if |s| >= 1 && AllDigits(s) then Some(DecimalValue(s))
    else None
  }

  /** Parsing the text form of any integer gives that integer back. */
  lemma ParseIntRoundTrip(i: int)
    ensures ParseInt(IntToText(i)) == Some(i)
  {
    var n: nat := if i < 0 then -i else i;
    DecimalRoundTrip(n);
    if i < 0 {
      assert ("-" + NatToDecimal(n))[1..] == NatToDecimal(n);
    }
  }

  lemma IntToTextInjective(a: int, b: int)
    requires IntToText(a) == IntToText(b)
    ensures a == b
  {
    ParseIntRoundTrip(a);
    ParseIntRoundTrip(b);
  }

  // ---------------------------------------------------------------------------
  // Padding and substrings

  /**
   * SQL `lpad(s, width, fill)`: pads on the left with `fill` up to `width`, and
   * keeps only the first `width` characters of a longer `s`.
   */
  function LPad(s: string, width: nat, fill: char): (r: string)
    ensures |r| == width
    ensures forall i | 0 <= i < width - |s| :: r[i] == fill
    ensures |s| <= width ==> r[width - |s|..] == s
    ensures |s| >= width ==> r == s[..width]
  {
    if |s| >= width then s[..width] else Repeat(fill, width - |s|) + s
  }

  function Clamp(x: int, n: nat): (c: nat)
    ensures c <= n
  {
    if x < 0 then 0 else if x > n then n else x
  }

  /**
   * ibis `substr(start, length)` as compiled for PostgreSQL: `start` counts from
   * 0, a negative `start` counts back from the end, and the window is clipped to
   * the string.
   */
  function Substr(s: string, start: int, length: nat): (r: string)
    ensures |r| <= length
    ensures 0 <= start && start + length <= |s| ==> r == s[start..start + length]
    ensures start < 0 && start + length >= 0 ==> r == s[Clamp(|s| + start, |s|)..]
  {
    var b := if start >= 0 then start else |s| + start;
    var lo := Clamp(b, |s|);
    var hi := Clamp(b + length, |s|);
    s[lo..hi]
  }

  // ---------------------------------------------------------------------------
  // Splitting and joining on a separator

  /** The pieces of `s` between occurrences of `sep`; none of them contains `sep`. */
  function SplitOn(s: string, sep: char): (parts: seq<string>)
    ensures |parts| >= 1
    ensures forall k | 0 <= k < |parts| :: sep !in parts[k]
  {
    if s == [] then [[]]
    else
      var rest := SplitOn(s[1..], sep);
      if s[0] == sep then [[]] + rest else [[s[0]] + rest[0]] + rest[1..]
  }

  /** Joins `parts` with `sep` between consecutive pieces (SQL `concat_ws`). */
  function JoinWith(parts: seq<string>, sep: string): string
  {
    if |parts| == 0 then ""
    else if |parts| == 1 then parts[0]
    else parts[0] + sep + JoinWith(parts[1..], sep)
  }

  /** A separator-free prefix becomes part of the first piece. */
  lemma {:induction false} SplitPrefix(a: string, t: string, sep: char)
    requires sep !in a
    ensures SplitOn(a + t, sep) == [a + SplitOn(t, sep)[0]] + SplitOn(t, sep)[1..]
  {
    var parts := SplitOn(t, sep);
    if a == [] {
      assert a + t == t;
      assert a + parts[0] == parts[0];
      assert parts == [parts[0]] + parts[1..];
    } else {
      assert (a + t)[1..] == a[1..] + t;
      SplitPrefix(a[1..], t, sep);
      assert [a[0]] + (a[1..] + SplitOn(t, sep)[0]) == a + SplitOn(t, sep)[0];
    }
  }

  /** Splitting a joined sequence of separator-free pieces recovers the pieces. */
  lemma {:induction false} SplitJoinRoundTrip(parts: seq<string>, sep: char)
    requires |parts| >= 1
    requires forall k | 0 <= k < |parts| :: sep !in parts[k]
    ensures SplitOn(JoinWith(parts, [sep]), sep) == parts
  {
    if |parts| == 1 {
      SplitPrefix(parts[0], [], sep);
      assert parts[0] + [] == parts[0];
    } else {
      var tail := JoinWith(parts[1..], [sep]);
      SplitJoinRoundTrip(parts[1..], sep);
      assert JoinWith(parts, [sep]) == parts[0] + ([sep] + tail);
      SplitPrefix(parts[0], [sep] + tail, sep);
      assert ([sep] + tail)[1..] == tail;
      assert SplitOn([sep] + tail, sep) == [[]] + SplitOn(tail, sep);
      assert parts[0] + [] == parts[0];
      assert parts == [parts[0]] + parts[1..];
    }
  }

  /** Joining is injective on non-empty sequences of separator-free pieces. */
  lemma JoinInjective(p: seq<string>, q: seq<string>, sep: char)
    requires |p| >= 1 && |q| >= 1
    requires forall k | 0 <= k < |p| :: sep !in p[k]
    requires forall k | 0 <= k < |q| :: sep !in q[k]
    requires JoinWith(p, [sep]) == JoinWith(q, [sep])
    ensures p == q
  {
    SplitJoinRoundTrip(p, sep);
    SplitJoinRoundTrip(q, sep);
  }
}

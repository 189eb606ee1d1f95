/**
 * Cell values of the flight and weather tables, and the casts the pipeline
 * applies to them, with PostgreSQL's text forms and try-cast behaviour: a
 * try-cast never fails, it yields null for a text it cannot read.
 */
module Values {
  import opened Outcomes
  import opened Text

  datatype CalDate = CalDate(year: nat, month: nat, day: nat)

  datatype ClockTime = ClockTime(hour: nat, minute: nat, second: nat)

  datatype Value =
    | Null
    | Bool(b: bool)
    | Int(i: int)
    | Real(r: real)
    | Str(s: string)
    | Date(date: CalDate)
    | Time(time: ClockTime)
    | Timestamp(date: CalDate, time: ClockTime)

  /** The column types the nodes check before building their expressions. */
  datatype Kind = BoolKind | IntKind | RealKind | StrKind | DateKind | TimeKind | TimestampKind

  /** A null fits a column of every kind. */
  predicate HasKind(v: Value, k: Kind)
  {
    match v
    case Null => true
    case Bool(_) => k == BoolKind
    case Int(_) => k == IntKind
    case Real(_) => k == RealKind
    case Str(_) => k == StrKind
    case Date(_) => k == DateKind
    case Time(_) => k == TimeKind
    case Timestamp(_, _) => k == TimestampKind
  }

  const INT64_MIN: int := -0x8000_0000_0000_0000
  const INT64_MAX: int := 0x7fff_ffff_ffff_ffff

  /** A 64-bit signed integer (PostgreSQL `bigint`). */
  type Int64 = x: int | -0x8000_0000_0000_0000 <= x <= 0x7fff_ffff_ffff_ffff

  predicate InInt64(x: int) { INT64_MIN <= x <= INT64_MAX }

  // ---------------------------------------------------------------------------
  // Text forms of dates and times

  function DateFields(d: CalDate): seq<string>
  {
    [ZeroPad(NatToDecimal(d.year), 4), ZeroPad(NatToDecimal(d.month), 2), ZeroPad(NatToDecimal(d.day), 2)]
  }

  /** ISO text of a date, "YYYY-MM-DD", as PostgreSQL prints it. */
  function DateText(d: CalDate): (s: string)
    ensures ',' !in s
  {
    FieldsExclude(DateFields(d), ',');
    JoinWith(DateFields(d), "-")
  }

  function ClockFields(t: ClockTime): seq<string>
  {
    [ZeroPad(NatToDecimal(t.hour), 2), ZeroPad(NatToDecimal(t.minute), 2), ZeroPad(NatToDecimal(t.second), 2)]
  }

  /** Text of a time of day, "HH:MM:SS". */
  function ClockText(t: ClockTime): string
  {
    JoinWith(ClockFields(t), ":")
  }

  lemma FieldsAreDigits(n: nat, width: nat)
    ensures AllDigits(ZeroPad(NatToDecimal(n), width))
    ensures DecimalValue(ZeroPad(NatToDecimal(n), width)) == n
  {
    ZeroPadValue(NatToDecimal(n), width);
    DecimalRoundTrip(n);
  }

  /** A padded field is digits only, denotes its number and holds no separator. */
  lemma PaddedField(n: nat, width: nat)
    ensures AllDigits(ZeroPad(NatToDecimal(n), width))
    ensures DecimalValue(ZeroPad(NatToDecimal(n), width)) == n
    ensures '-' !in ZeroPad(NatToDecimal(n), width) && ':' !in ZeroPad(NatToDecimal(n), width)
  {
    FieldsAreDigits(n, width);
    DigitsExclude(ZeroPad(NatToDecimal(n), width), '-');
    DigitsExclude(ZeroPad(NatToDecimal(n), width), ':');
  }

  /** Joining digit-only fields with `sep` never introduces a character other than digits and `sep`. */
  lemma {:induction false} FieldsExclude(fields: seq<string>, c: char)
    requires !IsDigit(c) && c != '-' && c != ':'
    requires forall k | 0 <= k < |fields| :: AllDigits(fields[k])
    ensures c !in JoinWith(fields, "-") && c !in JoinWith(fields, ":")
  {
    if |fields| >= 1 {
      DigitsExclude(fields[0], c);
    }
    if |fields| >= 2 {
      FieldsExclude(fields[1..], c);
    }
  }

  /** Distinct dates have distinct ISO texts. */
  lemma DateTextInjective(a: CalDate, b: CalDate)
    requires DateText(a) == DateText(b)
    ensures a == b
  {
    var p, q := DateFields(a), DateFields(b);
    PaddedField(a.year, 4);
    PaddedField(a.month, 2);
    PaddedField(a.day, 2);
    PaddedField(b.year, 4);
    PaddedField(b.month, 2);
    PaddedField(b.day, 2);
    assert forall k | 0 <= k < 3 :: '-' !in p[k] && '-' !in q[k];
    JoinInjective(p, q, '-');
    assert a.year == DecimalValue(p[0]) == DecimalValue(q[0]) == b.year;
    assert a.month == DecimalValue(p[1]) == DecimalValue(q[1]) == b.month;
    assert a.day == DecimalValue(p[2]) == DecimalValue(q[2]) == b.day;
  }

  // ---------------------------------------------------------------------------
  // Times of day

  /** PostgreSQL's `time` range: up to 23:59:59, plus the single value 24:00:00. */
  predicate ValidClock(t: ClockTime)
  {
    || (t.hour < 24 && t.minute < 60 && t.second < 60)
    || (t.hour == 24 && t.minute == 0 && t.second == 0)
  }

  predicate IsClockField(p: string) { 1 <= |p| <= 2 && AllDigits(p) }

  /**
   * Reads a time of day written as three colon-separated fields of one or two
   * digits; any other text, or a field out of range, gives no time.
   */
  function ParseTime(s: string): (r: Option<ClockTime>)
    ensures r.Some? ==> ValidClock(r.value)
  {
    var parts := SplitOn(s, ':');
    if |parts| == 3 && IsClockField(parts[0]) && IsClockField(parts[1]) && IsClockField(parts[2]) then
      var t := ClockTime(DecimalValue(parts[0]), DecimalValue(parts[1]), DecimalValue(parts[2]));
      if ValidClock(t) then Some(t) else None
    else None
  }

  lemma ShortDecimal(n: nat)
    requires n < 100
    ensures |NatToDecimal(n)| <= 2
  {
    if n >= 10 {
      assert NatToDecimal(n) == NatToDecimal(n / 10) + [DigitChar(n % 10)];
    }
  }

  /** A two-digit field of a number below a hundred is a clock field that denotes the number. */
  lemma ClockField(n: nat)
    requires n < 100
    ensures IsClockField(ZeroPad(NatToDecimal(n), 2))
    ensures DecimalValue(ZeroPad(NatToDecimal(n), 2)) == n
    ensures ':' !in ZeroPad(NatToDecimal(n), 2)
  {
    PaddedField(n, 2);
    ShortDecimal(n);
  }

  /** Every valid time of day reads back from its text. */
  lemma ClockTextRoundTrip(t: ClockTime)
    requires ValidClock(t)
    ensures ParseTime(ClockText(t)) == Some(t)
  {
    var p := ClockFields(t);
    ClockField(t.hour);
    ClockField(t.minute);
    ClockField(t.second);
    assert forall k | 0 <= k < 3 :: ':' !in p[k];
    SplitJoinRoundTrip(p, ':');
    assert SplitOn(ClockText(t), ':') == p;
  }

  // ---------------------------------------------------------------------------
  // Casts

  /** `try_cast(text, "time")`: the time the text denotes, or null. */
  function TryCastTime(s: string): (v: Value)
    ensures v.Null? || (v.Time? && ValidClock(v.time))
  {
    match ParseTime(s)
    case Some(t) => Time(t)
    case None => Null
  }

  /**
   * `try_cast(v, int)`: a 64-bit integer or null, never an error. Text is read
   * as an optional sign and digits; an integer outside the 64-bit range, or a
   * text that does not read, becomes null.
   */
  function TryCastInt(v: Value): (r: Value)
    ensures r.Null? || (r.Int? && InInt64(r.i))
    ensures v.Int? && InInt64(v.i) ==> r == v
    ensures v.Null? ==> r.Null?
    ensures v.Str? && (forall i | 0 <= i < |v.s| :: !IsDigit(v.s[i])) ==> r.Null?
  {
    match v
    case Str(s) =>
      (match ParseInt(s)
       case Some(n) => if InInt64(n) then Int(n) else Null
       case None => Null)
    case Int(n) => if InInt64(n) then Int(n) else Null
    case _ => Null
  }

  /** A cast to integer reads back the text form of every 64-bit integer. */
  lemma TryCastIntReadsText(i: int)
    requires InInt64(i)
    ensures TryCastInt(Str(IntToText(i))) == Int(i)
  {
    ParseIntRoundTrip(i);
  }

  /** `cast(v, str)` in PostgreSQL's text forms; null stays null. */
  function CastToText(v: Value): (r: Value)
    ensures r.Null? || r.Str?
    ensures r.Null? <==> v.Null? || v.Real?
  {
    match v
    case Null => Null
    case Bool(b) => Str(if b then "true" else "false")
    case Int(i) => Str(IntToText(i))
    case Real(_) => Null
    case Str(s) => Str(s)
    case Date(d) => Str(DateText(d))
    case Time(t) => Str(ClockText(t))
    case Timestamp(d, t) => Str(DateText(d) + " " + ClockText(t))
  }
}

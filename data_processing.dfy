/**
 * The data-processing nodes: `preprocess_flights`, which turns the raw
 * departure time into a time of day and reads the delay and air-time columns
 * as integers, and `create_model_input_table`, which labels each flight,
 * joins it with the weather of its origin and hour, keeps the ten model
 * columns and drops incomplete rows.
 */
module DataProcessing {
  import opened Outcomes
  import opened Text
  import opened Values
  import opened Tables

  const DEP_TIME: Name := "dep_time"
  const ARR_DELAY: Name := "arr_delay"
  const AIR_TIME: Name := "air_time"
  const TIME_HOUR: Name := "time_hour"
  const ORIGIN: Name := "origin"
  const DATE: Name := "date"

  // ---------------------------------------------------------------------------
  // preprocess_flights

  /** The hour field: the first two characters of the text left-padded with '0' to four. */
  function HourField(s: string): (h: string)
    ensures |h| == 2
    ensures h == LPad(s, 4, '0')[..2]
  {
    Substr(LPad(s, 4, '0'), 0, 2)
  }

  /** The minute field: the last two characters of the unpadded text. */
  function MinuteField(s: string): (m: string)
    ensures |m| == if |s| < 2 then |s| else 2
    ensures m == if |s| < 2 then s else s[|s| - 2..]
  {
    Substr(s, -2, 2)
  }

  /**
   * The text the departure time is rebuilt as before it is cast to a time:
   * unless the raw text itself holds a colon, its three fields are the hour
   * field, the minute field and "00".
   */
  function DepTimeText(s: string): (text: string)
    ensures ':' !in s ==> SplitOn(text, ':') == [HourField(s), MinuteField(s), "00"]
  {
    DepTimeFields(s);
    HourField(s) + ":" + MinuteField(s) + ":00"
  }

  /** Neither field of a colon-free text holds a colon. */
  lemma FieldsColonFree(s: string)
    requires ':' !in s
    ensures ':' !in HourField(s) && ':' !in MinuteField(s)
  {
    var p := LPad(s, 4, '0');
    forall i | 0 <= i < 4
      ensures p[i] != ':'
    {
      if |s| < 4 && i >= 4 - |s| {
        assert p[i] == p[4 - |s|..][i - (4 - |s|)];
      }
    }
  }

  lemma DepTimeFields(s: string)
    ensures ':' !in s ==> SplitOn(HourField(s) + ":" + MinuteField(s) + ":00", ':') == [HourField(s), MinuteField(s), "00"]
  {
    if ':' !in s {
      FieldsColonFree(s);
      SplitThreeFields(HourField(s), MinuteField(s));
    }
  }

  /** The converted departure time: a valid time of day, or null when the rebuilt text does not read as one. */
  function ConvertDepTime(v: Value): (r: Value)
    ensures r.Null? || (r.Time? && ValidClock(r.time) && r.time.second == 0)
    ensures v.Null? ==> r.Null?
  {
    match v
    case Str(s) =>
      var t := TryCastTime(DepTimeText(s));
      DepTimeSeconds(s);
      t
    case _ => Null
  }

  /** The seconds of a rebuilt departure time are always zero. */
  lemma DepTimeSeconds(s: string)
    ensures TryCastTime(DepTimeText(s)).Time? ==> TryCastTime(DepTimeText(s)).time.second == 0
  {
    var front := HourField(s) + ":" + MinuteField(s);
    assert DepTimeText(s) == front + ":00";
    ZeroSeconds(front);
  }

  /** Whatever precedes it, a text ending in ":00" reads as a time with zero seconds, if at all. */
  lemma ZeroSeconds(front: string)
    ensures TryCastTime(front + ":00").Time? ==> TryCastTime(front + ":00").time.second == 0
  {
    var text := front + ":00";
    if TryCastTime(text).Time? {
      var parts := SplitOn(text, ':');
      assert text == front + [':'] + "00";
      SplitSuffix(front, "00", ':');
      assert parts[2] == "00";
      assert DecimalValue("00"[..1]) == 0;
    }
  }

  /** A separator-free last piece stays the last piece. */
  lemma {:induction false} SplitSuffix(a: string, b: string, sep: char)
    requires sep !in b
    ensures SplitOn(a + [sep] + b, sep)[|SplitOn(a + [sep] + b, sep)| - 1] == b
    ensures |SplitOn(a + [sep] + b, sep)| == |SplitOn(a, sep)| + 1
  {
    if a == [] {
      assert a + [sep] + b == [sep] + b;
      assert ([sep] + b)[1..] == b;
      SplitPrefix(b, [], sep);
      assert b + [] == b;
    } else {
      assert (a + [sep] + b)[1..] == a[1..] + [sep] + b;
      SplitSuffix(a[1..], b, sep);
    }
  }

  /** The value of a numeral of one to four digits is its zero-padded form, split after the second digit. */
  lemma PaddedHundreds(s: string)
    requires 1 <= |s| <= 4 && AllDigits(s)
    ensures var p := LPad(s, 4, '0');
            && AllDigits(p)
            && DecimalValue(p[..2]) == DecimalValue(s) / 100
            && DecimalValue(p[2..]) == DecimalValue(s) % 100
  {
    var z := Repeat('0', 4 - |s|);
    assert LPad(s, 4, '0') == z + s;
    LeadingZerosIgnored(z, s);
    HundredsOf(z + s);
  }

  /** A four-digit numeral is a hundred times its first two digits plus its last two. */
  lemma HundredsOf(p: string)
    requires |p| == 4 && AllDigits(p)
    ensures DecimalValue(p[..2]) == DecimalValue(p) / 100
    ensures DecimalValue(p[2..]) == DecimalValue(p) % 100
  {
    var h, lo := p[..2], p[2..];
    assert p == h + lo;
    DecimalAppendTwo(h, lo);
    TwoDigitBound(lo);
    HundredsUnique(DecimalValue(p), DecimalValue(h), DecimalValue(lo));
  }

  /** The quotient and remainder by a hundred are the only such split. */
  lemma HundredsUnique(x: nat, q: nat, r: nat)
    requires x == 100 * q + r && r < 100
    ensures q == x / 100 && r == x % 100
  {
  }

  /** The minute field of a numeral of one to four digits is its zero-padded form after the second digit, up to leading zeros. */
  lemma MinuteFieldValue(s: string)
    requires 1 <= |s| <= 4 && AllDigits(s)
    ensures AllDigits(MinuteField(s)) && 1 <= |MinuteField(s)| <= 2
    ensures DecimalValue(MinuteField(s)) == DecimalValue(LPad(s, 4, '0')[2..])
  {
    var m := MinuteField(s);
    var lo := LPad(s, 4, '0')[2..];
    if |s| >= 2 {
      assert m == s[|s| - 2..];
      assert m == lo;
    } else {
      assert m == s;
      assert lo == ['0'] + s;
      LeadingZerosIgnored(['0'], s);
    }
  }

  /** The two fields of a departure time of one to four digits are its hundreds and its remainder. */
  lemma DepTimeDigitFields(s: string)
    requires 1 <= |s| <= 4 && AllDigits(s)
    ensures IsClockField(HourField(s)) && IsClockField(MinuteField(s))
    ensures DecimalValue(HourField(s)) == DecimalValue(s) / 100
    ensures DecimalValue(MinuteField(s)) == DecimalValue(s) % 100
  {
    PaddedHundreds(s);
    MinuteFieldValue(s);
    assert HourField(s) == LPad(s, 4, '0')[..2];
  }

  /** The text "H:M:00" splits at its colons into its three fields. */
  lemma SplitClockText(h: string, m: string)
    requires IsClockField(h) && IsClockField(m)
    ensures SplitOn(h + ":" + m + ":00", ':') == [h, m, "00"]
  {
    DigitsExclude(h, ':');
    DigitsExclude(m, ':');
    SplitThreeFields(h, m);
  }

  /** Two colon-free fields and "00", joined with colons, split back into those three fields. */
  lemma SplitThreeFields(h: string, m: string)
    requires ':' !in h && ':' !in m
    ensures SplitOn(h + ":" + m + ":00", ':') == [h, m, "00"]
  {
    var parts := [h, m, "00"];
    assert parts[1..] == [m, "00"] && parts[1..][1..] == ["00"];
    assert JoinWith(parts[1..], ":") == m + ":" + "00";
    assert h + ":" + m + ":00" == JoinWith(parts, ":");
    SplitJoinRoundTrip(parts, ':');
  }

  /** A text whose fields are two clock fields and "00" reads as that time when it is a valid one, otherwise as null. */
  lemma ReadClockFields(text: string, h: string, m: string)
    requires IsClockField(h) && IsClockField(m)
    requires SplitOn(text, ':') == [h, m, "00"]
    ensures var t := ClockTime(DecimalValue(h), DecimalValue(m), 0);
            TryCastTime(text) == if ValidClock(t) then Time(t) else Null
  {
    assert IsClockField("00");
    assert DecimalValue("00"[..1]) == 0;
    assert DecimalValue("00") == 0;
  }

  /**
   * A departure time written as one to four digits, such as "517" or "2400",
   * becomes hours = value / 100 and minutes = value % 100, provided that is a
   * valid time of day; otherwise it becomes null.
   */
  lemma DepTimeOfDigits(s: string)
    requires 1 <= |s| <= 4 && AllDigits(s)
    ensures var n := DecimalValue(s);
            var t := ClockTime(n / 100, n % 100, 0);
            ConvertDepTime(Str(s)) == if ValidClock(t) then Time(t) else Null
  {
    DepTimeDigitFields(s);
    SplitClockText(HourField(s), MinuteField(s));
    ReadClockFields(DepTimeText(s), HourField(s), MinuteField(s));
  }

  /**
   * The columns `preprocess_flights` needs: a text `dep_time`, and `arr_delay`
   * and `air_time` of any type.
   */
  predicate Preprocessable(flights: Table)
  {
    && DEP_TIME in flights.columns && ColumnOfKind(flights, DEP_TIME, StrKind)
    && ARR_DELAY in flights.columns
    && AIR_TIME in flights.columns
  }

  /**
   * `preprocess_flights`: `dep_time` becomes a time of day, `arr_delay` and
   * `air_time` become 64-bit integers; a value that does not convert becomes
   * null instead of failing.
   */
  function PreprocessFlights(flights: Table): (r: Result<Table, TableError>)
    requires WellFormed(flights)
    ensures r.Ok? <==> Preprocessable(flights)
    ensures r.Err? ==> r.error.MissingColumn? || r.error == TypeMismatch(DEP_TIME)
    ensures r.Ok? ==> WellFormed(r.value) && r.value.columns == flights.columns
    ensures r.Ok? ==> |r.value.rows| == |flights.rows|
    ensures r.Ok? ==> forall i | 0 <= i < |flights.rows| :: r.value.rows[i] == ConvertedRow(flights.rows[i])
  {
    match PreprocessError(flights)
    case Some(e) => Err(e)
    case None =>
      Ok(Converted(flights))
  }

  /** The first column `preprocess_flights` finds missing or of the wrong kind, if any. */
  function PreprocessError(flights: Table): (e: Option<TableError>)
    ensures e.None? <==> Preprocessable(flights)
    ensures e.Some? ==> e.value.MissingColumn? || e.value == TypeMismatch(DEP_TIME)
  {
    if DEP_TIME !in flights.columns then Some(MissingColumn(DEP_TIME))
    else if !ColumnOfKind(flights, DEP_TIME, StrKind) then Some(TypeMismatch(DEP_TIME))
    else if ARR_DELAY !in flights.columns then Some(MissingColumn(ARR_DELAY))
    else if AIR_TIME !in flights.columns then Some(MissingColumn(AIR_TIME))
    else None
  }

  /** One flight row with its three columns converted. */
  function ConvertedRow(f: Row): (g: Row)
    ensures g.Keys == f.Keys + {DEP_TIME, ARR_DELAY, AIR_TIME}
    ensures g[DEP_TIME] == ConvertDepTime(Get(f, DEP_TIME))
    ensures g[ARR_DELAY] == TryCastInt(Get(f, ARR_DELAY))
    ensures g[AIR_TIME] == TryCastInt(Get(f, AIR_TIME))
    ensures forall c | c in f && c !in {DEP_TIME, ARR_DELAY, AIR_TIME} :: g[c] == f[c]
  {
    var g1 := f[DEP_TIME := ConvertDepTime(Get(f, DEP_TIME))];
    var g2 := g1[ARR_DELAY := TryCastInt(Get(g1, ARR_DELAY))];
    g2[AIR_TIME := TryCastInt(Get(g2, AIR_TIME))]
  }

  /** The converted columns hold a time, a 64-bit integer and a 64-bit integer, or nulls. */
  lemma ConvertedKinds(f: Row)
    ensures var g := ConvertedRow(f);
            && HasKind(Get(g, DEP_TIME), TimeKind)
            && HasKind(Get(g, ARR_DELAY), IntKind) && HasKind(Get(g, AIR_TIME), IntKind)
            && (Get(g, ARR_DELAY).Int? ==> InInt64(Get(g, ARR_DELAY).i))
  {
  }

  /** The three mutations of `preprocess_flights`, applied in turn. */
  function Converted(flights: Table): (u: Table)
    requires WellFormed(flights)
    requires DEP_TIME in flights.columns && ARR_DELAY in flights.columns && AIR_TIME in flights.columns
    ensures WellFormed(u) && u.columns == flights.columns && |u.rows| == |flights.rows|
    ensures forall i | 0 <= i < |flights.rows| :: u.rows[i] == ConvertedRow(flights.rows[i])
  {
    var t1 := Mutate(flights, DEP_TIME, r => ConvertDepTime(Get(r, DEP_TIME)));
    var t2 := Mutate(t1, ARR_DELAY, r => TryCastInt(Get(r, ARR_DELAY)));
    Mutate(t2, AIR_TIME, r => TryCastInt(Get(r, AIR_TIME)))
  }

  /**
   * Each preprocessed row has the same columns as its input row, the three
   * converted values, and every other value unchanged.
   */
  lemma PreprocessedRow(flights: Table, i: nat)
    requires WellFormed(flights) && PreprocessFlights(flights).Ok? && i < |flights.rows|
    ensures var f, g := flights.rows[i], PreprocessFlights(flights).value.rows[i];
            && g.Keys == f.Keys
            && g[DEP_TIME] == ConvertDepTime(f[DEP_TIME])
            && g[ARR_DELAY] == TryCastInt(f[ARR_DELAY])
            && g[AIR_TIME] == TryCastInt(f[AIR_TIME])
            && forall c | c in f && c !in {DEP_TIME, ARR_DELAY, AIR_TIME} :: g[c] == f[c]
  {
    assert flights.rows[i] in flights.rows;
  }

  /** After preprocessing, `dep_time` holds times and `arr_delay` and `air_time` hold 64-bit integers or nulls. */
  lemma PreprocessedKinds(flights: Table)
    requires WellFormed(flights) && PreprocessFlights(flights).Ok?
    ensures var t := PreprocessFlights(flights).value;
            && ColumnOfKind(t, DEP_TIME, TimeKind)
            && ColumnOfKind(t, ARR_DELAY, IntKind)
            && ColumnOfKind(t, AIR_TIME, IntKind)
            && forall r | r in t.rows :: (Get(r, ARR_DELAY).Int? ==> InInt64(Get(r, ARR_DELAY).i))
  {
    var t := PreprocessFlights(flights).value;
    forall r | r in t.rows
      ensures HasKind(Get(r, DEP_TIME), TimeKind) && HasKind(Get(r, ARR_DELAY), IntKind)
      ensures HasKind(Get(r, AIR_TIME), IntKind)
      ensures Get(r, ARR_DELAY).Int? ==> InInt64(Get(r, ARR_DELAY).i)
    {
      var i :| 0 <= i < |t.rows| && t.rows[i] == r;
      ConvertedKinds(flights.rows[i]);
    }
  }

  // ---------------------------------------------------------------------------
  // create_model_input_table, shared by the integer-target node and its
  // boolean-target notebook variant

  const JOIN_KEYS: seq<Name> := [ORIGIN, TIME_HOUR]

  /** The columns of the model input table, in order. */
  const MODEL_INPUT_COLUMNS: seq<Name> :=
    ["dep_time", "flight", "origin", "dest", "air_time", "distance", "carrier", "date", "arr_delay", "time_hour"]

  /** `time_hour.date()`: the calendar date of a timestamp. */
  function DateOf(v: Value): (d: Value)
    ensures d.Null? <==> !v.Timestamp?
    ensures v.Timestamp? ==> d == Date(v.date)
  {
    match v
    case Timestamp(date, _) => Date(date)
    case _ => Null
  }

  /** A flight row after the target and the date are written into it. */
  function LabelRow(f: Row, target: Value -> Value): (g: Row)
    ensures g.Keys == f.Keys + {ARR_DELAY, DATE}
    ensures g[ARR_DELAY] == target(Get(f, ARR_DELAY)) && g[DATE] == DateOf(Get(f, TIME_HOUR))
    ensures forall c | c in f && c != ARR_DELAY && c != DATE :: g[c] == f[c]
  {
    f[ARR_DELAY := target(Get(f, ARR_DELAY))][DATE := DateOf(Get(f, TIME_HOUR))]
  }

  /** Two labellings of a flight differ only in `arr_delay`. */
  lemma Relabel(f: Row, target: Value -> Value, other: Value -> Value)
    ensures LabelRow(f, target) == LabelRow(f, other)[ARR_DELAY := target(Get(f, ARR_DELAY))]
  {
    assert ARR_DELAY != DATE;
    var l, l' := LabelRow(f, target), LabelRow(f, other)[ARR_DELAY := target(Get(f, ARR_DELAY))];
    assert l.Keys == l'.Keys;
  }

  function LabelledColumns(columns: seq<Name>): seq<Name>
  {
    if DATE in columns then columns else columns + [DATE]
  }

  /** The flights with the target in `arr_delay` and the date of `time_hour` in `date`. */
  function Labelled(flights: Table, target: Value -> Value): (u: Table)
    requires WellFormed(flights) && ARR_DELAY in flights.columns
    ensures WellFormed(u) && u.columns == LabelledColumns(flights.columns)
    ensures |u.rows| == |flights.rows|
    ensures forall i | 0 <= i < |flights.rows| :: u.rows[i] == LabelRow(flights.rows[i], target)
  {
    var t1 := Mutate(flights, ARR_DELAY, r => target(Get(r, ARR_DELAY)));
    Mutate(t1, DATE, r => DateOf(Get(r, TIME_HOUR)))
  }

  /** What the node needs of its two inputs for every expression in it to be well typed. */
  predicate Combinable(flights: Table, weather: Table)
  {
    var labelled := LabelledColumns(flights.columns);
    && ARR_DELAY in flights.columns && ColumnOfKind(flights, ARR_DELAY, IntKind)
    && TIME_HOUR in flights.columns && ColumnOfKind(flights, TIME_HOUR, TimestampKind)
    && JoinSchemaOk(labelled, weather.columns, JOIN_KEYS)
    && forall c | c in MODEL_INPUT_COLUMNS :: c in JoinColumns(labelled, weather.columns, JOIN_KEYS)
  }

  /** The output row a matching flight and weather row give, before nulls are dropped. */
  function ModelRow(f: Row, w: Row, target: Value -> Value, flightColumns: seq<Name>, weatherColumns: seq<Name>): Row
  {
    var src := RightColumns(weatherColumns, JOIN_KEYS);
    Restrict(Merge(LabelRow(f, target), w, src, RightNames(src, LabelledColumns(flightColumns))), MODEL_INPUT_COLUMNS)
  }

  lemma ModelColumnsDistinct()
    ensures Distinct(MODEL_INPUT_COLUMNS)
  {
  }

  /**
   * The model input table for a given labelling of `arr_delay`: label and
   * date the flights, join them with the weather on origin and hour, keep the
   * ten model columns and drop rows with a null.
   */
  function CombineWithWeather(flights: Table, weather: Table, target: Value -> Value): (r: Result<Table, TableError>)
    requires WellFormed(flights) && WellFormed(weather)
    ensures r.Ok? <==> Combinable(flights, weather)
    ensures r.Ok? ==> WellFormed(r.value) && r.value.columns == MODEL_INPUT_COLUMNS
    ensures r.Ok? ==> forall o | o in r.value.rows :: NoNulls(o)
  {
    if ARR_DELAY !in flights.columns then Err(MissingColumn(ARR_DELAY))
    else if !ColumnOfKind(flights, ARR_DELAY, IntKind) then Err(TypeMismatch(ARR_DELAY))
    else if TIME_HOUR !in flights.columns then Err(MissingColumn(TIME_HOUR))
    else if !ColumnOfKind(flights, TIME_HOUR, TimestampKind) then Err(TypeMismatch(TIME_HOUR))
    else
      match InnerJoin(Labelled(flights, target), weather, JOIN_KEYS)
      case Err(e) => Err(e)
      case Ok(joined) =>
        match FirstMissing(MODEL_INPUT_COLUMNS, joined.columns)
        case Some(c) => Err(MissingColumn(c))
        case None =>
          ModelColumnsDistinct();
          Ok(DropNa(Select(joined, MODEL_INPUT_COLUMNS)))
  }

  /** When the node succeeds, its table is the null-free selection of the ten columns from the join. */
  lemma CombineSteps(flights: Table, weather: Table, target: Value -> Value)
    requires WellFormed(flights) && WellFormed(weather)
    requires CombineWithWeather(flights, weather, target).Ok?
    ensures ARR_DELAY in flights.columns
    ensures InnerJoin(Labelled(flights, target), weather, JOIN_KEYS).Ok?
    ensures var joined := InnerJoin(Labelled(flights, target), weather, JOIN_KEYS).value;
            && Distinct(MODEL_INPUT_COLUMNS)
            && (forall c | c in MODEL_INPUT_COLUMNS :: c in joined.columns)
            && CombineWithWeather(flights, weather, target).value == DropNa(Select(joined, MODEL_INPUT_COLUMNS))
  {
    ModelColumnsDistinct();
  }

  /** A row of the null-free selection is the selection of one row of the table. */
  lemma SelectedFrom(t: Table, names: seq<Name>, o: Row) returns (k: nat)
    requires WellFormed(t) && Distinct(names)
    requires forall c | c in names :: c in t.columns
    requires o in DropNa(Select(t, names)).rows
    ensures k < |t.rows| && o == Restrict(t.rows[k], names) && NoNulls(o)
  {
    var selected := Select(t, names);
    k :| 0 <= k < |selected.rows| && selected.rows[k] == o;
  }

  /** The values an output row takes from its flight row, given the node's schema conditions. */
  lemma ModelRowValues(f: Row, w: Row, target: Value -> Value, flightColumns: seq<Name>, weatherColumns: seq<Name>)
    requires f.Keys == ColumnSet(flightColumns)
    requires ARR_DELAY in flightColumns
    requires Distinct(JoinColumns(LabelledColumns(flightColumns), weatherColumns, JOIN_KEYS))
    ensures var o := ModelRow(f, w, target, flightColumns, weatherColumns);
            && (ARR_DELAY in o ==> o[ARR_DELAY] == target(Get(f, ARR_DELAY)))
            && (DATE in o ==> o[DATE] == DateOf(Get(f, TIME_HOUR)))
            && forall c | c in o && c in flightColumns && c != ARR_DELAY && c != DATE :: o[c] == f[c]
  {
    var src := RightColumns(weatherColumns, JOIN_KEYS);
    var left := LabelledColumns(flightColumns);
    var dst := RightNames(src, left);
    var l := LabelRow(f, target);
    assert l.Keys == ColumnSet(left);
    forall c | c in left
      ensures c !in dst
    {
      DistinctParts(left, dst, c);
    }
  }

  /** A name in the first part of a duplicate-free sequence is not in the second. */
  lemma DistinctParts(a: seq<Name>, b: seq<Name>, c: Name)
    requires Distinct(a + b) && c in a
    ensures c !in b
  {
    var i :| 0 <= i < |a| && a[i] == c;
    forall j | 0 <= j < |b|
      ensures b[j] != c
    {
      assert (a + b)[i] == a[i] && (a + b)[|a| + j] == b[j];
    }
  }

  /**
   * Every row of the model input table comes from one flight and one weather
   * row that agree on `origin` and `time_hour`: it is their merged row,
   * restricted to the model columns, and it has no null.
   */
  lemma CombineOrigin(flights: Table, weather: Table, target: Value -> Value, o: Row)
    returns (i: nat, j: nat)
    requires WellFormed(flights) && WellFormed(weather)
    requires CombineWithWeather(flights, weather, target).Ok?
    requires o in CombineWithWeather(flights, weather, target).value.rows
    ensures i < |flights.rows| && j < |weather.rows|
    ensures Matches(flights.rows[i], weather.rows[j], JOIN_KEYS)
    ensures o == ModelRow(flights.rows[i], weather.rows[j], target, flights.columns, weather.columns)
    ensures NoNulls(o) && o.Keys == ColumnSet(MODEL_INPUT_COLUMNS)
  {
    CombineSteps(flights, weather, target);
    var labelled := Labelled(flights, target);
    var joined := InnerJoin(labelled, weather, JOIN_KEYS).value;
    var k := SelectedFrom(joined, MODEL_INPUT_COLUMNS, o);
    var src := RightColumns(weather.columns, JOIN_KEYS);
    var dst := RightNames(src, labelled.columns);
    assert joined.rows[k] in joined.rows;
    i, j := JoinRowsProvenance(labelled.rows, weather.rows, JOIN_KEYS, src, dst, joined.rows[k]);
    assert labelled.rows[i] == LabelRow(flights.rows[i], target);
    LabelKeepsKeys(flights.rows[i], weather.rows[j], target);
  }

  /**
   * The row of the model input table that a flight and a weather row give
   * carries the flight's label, its date and its other model columns
   * unchanged.
   */
  lemma CombineProvenance(flights: Table, weather: Table, target: Value -> Value, o: Row)
    returns (i: nat, j: nat)
    requires WellFormed(flights) && WellFormed(weather)
    requires CombineWithWeather(flights, weather, target).Ok?
    requires o in CombineWithWeather(flights, weather, target).value.rows
    ensures i < |flights.rows| && j < |weather.rows|
    ensures Matches(flights.rows[i], weather.rows[j], JOIN_KEYS)
    ensures o == ModelRow(flights.rows[i], weather.rows[j], target, flights.columns, weather.columns)
    ensures NoNulls(o) && o.Keys == ColumnSet(MODEL_INPUT_COLUMNS)
    ensures Get(o, ARR_DELAY) == target(Get(flights.rows[i], ARR_DELAY))
    ensures Get(o, DATE) == DateOf(Get(flights.rows[i], TIME_HOUR))
    ensures forall c | c in MODEL_INPUT_COLUMNS && c in flights.columns && c != ARR_DELAY && c != DATE ::
              Get(o, c) == Get(flights.rows[i], c)
  {
    i, j := CombineOrigin(flights, weather, target, o);
    CombineSteps(flights, weather, target);
    var f := flights.rows[i];
    assert f in flights.rows;
    assert ARR_DELAY in MODEL_INPUT_COLUMNS && DATE in MODEL_INPUT_COLUMNS;
    ModelRowValues(f, weather.rows[j], target, flights.columns, weather.columns);
  }

  /** Labelling a flight row leaves its join keys alone, so it matches the same weather rows. */
  lemma LabelKeepsKeys(f: Row, w: Row, target: Value -> Value)
    ensures Matches(LabelRow(f, target), w, JOIN_KEYS) <==> Matches(f, w, JOIN_KEYS)
  {
    var l := LabelRow(f, target);
    assert ORIGIN != ARR_DELAY && ORIGIN != DATE && TIME_HOUR != ARR_DELAY && TIME_HOUR != DATE;
    assert forall k | k in JOIN_KEYS :: k == ORIGIN || k == TIME_HOUR;
    assert (ORIGIN in l <==> ORIGIN in f) && (TIME_HOUR in l <==> TIME_HOUR in f);
    assert ORIGIN in f ==> l[ORIGIN] == f[ORIGIN];
    assert TIME_HOUR in f ==> l[TIME_HOUR] == f[TIME_HOUR];
  }

  /** Every matching flight and weather row whose output row has no null contributes it to the table. */
  lemma CombineComplete(flights: Table, weather: Table, target: Value -> Value, i: nat, j: nat)
    requires WellFormed(flights) && WellFormed(weather)
    requires CombineWithWeather(flights, weather, target).Ok?
    requires i < |flights.rows| && j < |weather.rows|
    requires Matches(flights.rows[i], weather.rows[j], JOIN_KEYS)
    requires NoNulls(ModelRow(flights.rows[i], weather.rows[j], target, flights.columns, weather.columns))
    ensures ModelRow(flights.rows[i], weather.rows[j], target, flights.columns, weather.columns)
              in CombineWithWeather(flights, weather, target).value.rows
  {
    CombineSteps(flights, weather, target);
    var labelled := Labelled(flights, target);
    var joined := InnerJoin(labelled, weather, JOIN_KEYS).value;
    var selected := Select(joined, MODEL_INPUT_COLUMNS);
    var src := RightColumns(weather.columns, JOIN_KEYS);
    var dst := RightNames(src, labelled.columns);
    var l := labelled.rows[i];
    assert l == LabelRow(flights.rows[i], target);
    LabelKeepsKeys(flights.rows[i], weather.rows[j], target);
    JoinRowsComplete(labelled.rows, weather.rows, JOIN_KEYS, src, dst, i, j);
    var m := Merge(l, weather.rows[j], src, dst);
    var k :| 0 <= k < |joined.rows| && joined.rows[k] == m;
    assert selected.rows[k] == Restrict(m, MODEL_INPUT_COLUMNS);
    assert selected.rows[k] in selected.rows;
  }

  // ---------------------------------------------------------------------------
  // The integer-target node

  /** `ifelse(arr_delay >= 30, 1, 0)`: a null comparison takes the else branch. */
  function DelayFlag(v: Value): (r: Value)
    ensures r == Int(0) || r == Int(1)
    ensures r == Int(1) <==> v.Int? && v.i >= 30
  {
    match v
    case Int(x) => Int(if x >= 30 then 1 else 0)
    case _ => Int(0)
  }

  /** `create_model_input_table`: the model input table with a 0/1 target. */
  function CreateModelInputTable(flights: Table, weather: Table): (r: Result<Table, TableError>)
    requires WellFormed(flights) && WellFormed(weather)
    ensures r.Ok? <==> Combinable(flights, weather)
    ensures r.Ok? ==> WellFormed(r.value) && r.value.columns == MODEL_INPUT_COLUMNS
    ensures r.Ok? ==> forall o | o in r.value.rows :: NoNulls(o)
  {
    CombineWithWeather(flights, weather, DelayFlag)
  }

  /**
   * Each row of the model input table is labelled 1 exactly when its flight
   * arrived at least 30 minutes late and 0 otherwise, carries the date of the
   * flight's `time_hour`, and comes from a flight and weather row with the
   * same origin and hour.
   */
  lemma ModelInputLabels(flights: Table, weather: Table, o: Row) returns (i: nat, j: nat)
    requires WellFormed(flights) && WellFormed(weather)
    requires CreateModelInputTable(flights, weather).Ok?
    requires o in CreateModelInputTable(flights, weather).value.rows
    ensures i < |flights.rows| && j < |weather.rows|
    ensures Matches(flights.rows[i], weather.rows[j], JOIN_KEYS)
    ensures Get(o, ARR_DELAY) == Int(0) || Get(o, ARR_DELAY) == Int(1)
    ensures Get(o, ARR_DELAY) == Int(1) <==>
              Get(flights.rows[i], ARR_DELAY).Int? && Get(flights.rows[i], ARR_DELAY).i >= 30
    ensures Get(flights.rows[i], TIME_HOUR).Timestamp?
    ensures Get(o, DATE) == Date(Get(flights.rows[i], TIME_HOUR).date)
    ensures Get(o, ORIGIN) == Get(flights.rows[i], ORIGIN) == Get(weather.rows[j], ORIGIN)
    ensures Get(o, TIME_HOUR) == Get(flights.rows[i], TIME_HOUR) == Get(weather.rows[j], TIME_HOUR)
  {
    i, j := CombineProvenance(flights, weather, DelayFlag, o);
    var f := flights.rows[i];
    assert f in flights.rows;
    assert ORIGIN in JOIN_KEYS && TIME_HOUR in JOIN_KEYS;
    assert ORIGIN in f && TIME_HOUR in f;
    assert ORIGIN in flights.columns && TIME_HOUR in flights.columns;
    assert ARR_DELAY in MODEL_INPUT_COLUMNS && DATE in MODEL_INPUT_COLUMNS;
    assert ORIGIN in MODEL_INPUT_COLUMNS && TIME_HOUR in MODEL_INPUT_COLUMNS;
    assert ORIGIN != ARR_DELAY && ORIGIN != DATE && TIME_HOUR != ARR_DELAY && TIME_HOUR != DATE;
    assert o[DATE] != Null;
  }

}

/**
 * `split_data`: a deterministic train/test split. Each row gets a natural key
 * "carrier,flight,date"; a salt drawn once from a generator seeded with 222 is
 * appended; the backend's 64-bit text hash of the result decides the side: a
 * row goes to training when |hash| % 4 < 3. The key and the side flag are
 * scratch columns that are dropped again, and `arr_delay` is split off as
 * the target.
 */
module Training {
  import opened Outcomes
  import opened Text
  import opened Values
  import opened Tables
  import HashDispatch

  const CARRIER: Name := "carrier"
  const FLIGHT: Name := "flight"
  const DATE: Name := "date"
  const ARR_DELAY: Name := "arr_delay"
  const UNIQUE_KEY: Name := "unique_key"
  const TRAIN: Name := "train"

  /** The columns the split adds for its own use. */
  const SCRATCH: set<Name> := {UNIQUE_KEY, TRAIN}

  /** The seed the generator is reset to before the salt is drawn. */
  const SEED: int := 222

  /** Rows are spread over this many hash buckets, ... */
  const BUCKETS: int := 4

  /** ... and the buckets below this one make up the training set. */
  const TRAIN_BUCKETS: int := 3

  /** The dialect name the hash is compiled for. */
  const DIALECT: string := "postgres"

  /** A number of at most 256 bits, as `getrandbits(256)` returns. */
  type Bits256 = n: nat | n < 0x1_0000_0000_0000_0000_0000_0000_0000_0000_0000_0000_0000_0000_0000_0000_0000_0000

  /**
   * The backend's `hashtextextended(text, seed)`. Its algorithm is not part of
   * this model; only its type is: a text and a seed give a 64-bit integer.
   */
  type HashText = (string, int) -> Int64

  /** The result of a split: the training and test features, and the training and test targets. */
  datatype Split = Split(xTrain: Table, xTest: Table, yTrain: seq<Value>, yTest: seq<Value>)

  // ---------------------------------------------------------------------------
  // The natural key and the salt

  /** The non-null texts among `vs`, in order; a join with a separator skips nulls. */
  function NonNullTexts(vs: seq<Value>): (ts: seq<string>)
    ensures |ts| <= |vs|
    ensures (forall k | 0 <= k < |vs| :: vs[k].Str?) ==> |ts| == |vs| && forall k | 0 <= k < |vs| :: ts[k] == vs[k].s
  {
    if vs == [] then [] else (if vs[0].Str? then [vs[0].s] else []) + NonNullTexts(vs[1..])
  }

  /** The texts of two runs of values are the texts of each, one after the other. */
  lemma {:induction false} NonNullTextsConcat(u: seq<Value>, v: seq<Value>)
    ensures NonNullTexts(u + v) == NonNullTexts(u) + NonNullTexts(v)
  {
    if u == [] {
      assert u + v == v;
    } else {
      var head := if u[0].Str? then [u[0].s] else [];
      assert (u + v)[0] == u[0] && (u + v)[1..] == u[1..] + v;
      NonNullTextsConcat(u[1..], v);
      assert NonNullTexts(u + v) == head + (NonNullTexts(u[1..]) + NonNullTexts(v));
    }
  }

  /** A null part contributes nothing: taking it out, wherever it stands, leaves the joined texts unchanged. */
  lemma NullPartSkipped(u: seq<Value>, v: seq<Value>)
    ensures NonNullTexts(u + [Null] + v) == NonNullTexts(u + v)
  {
    NonNullTextsConcat(u + [Null], v);
    NonNullTextsConcat(u, [Null]);
    NonNullTextsConcat(u, v);
    assert NonNullTexts([Null]) == [];
  }

  /** Parts that are all null join to nothing. */
  lemma {:induction false} AllNullParts(vs: seq<Value>)
    requires forall k | 0 <= k < |vs| :: vs[k] == Null
    ensures NonNullTexts(vs) == []
  {
    if vs != [] {
      AllNullParts(vs[1..]);
    }
  }

  function KeyParts(r: Row): seq<Value>
  {
    [Get(r, CARRIER), CastToText(Get(r, FLIGHT)), CastToText(Get(r, DATE))]
  }

  /**
   * The natural key of a row: carrier, flight and date as text, joined with ",".
   * Missing parts are skipped, so a row with none of the three has the empty key.
   */
  function NaturalKey(r: Row): (k: string)
    ensures Get(r, CARRIER).Null? && Get(r, FLIGHT).Null? && Get(r, DATE).Null? ==> k == ""
  {
    NullKeyParts(r);
    JoinWith(NonNullTexts(KeyParts(r)), ",")
  }

  lemma NullKeyParts(r: Row)
    ensures Get(r, CARRIER).Null? && Get(r, FLIGHT).Null? && Get(r, DATE).Null? ==> NonNullTexts(KeyParts(r)) == []
  {
    if Get(r, CARRIER).Null? && Get(r, FLIGHT).Null? && Get(r, DATE).Null? {
      AllNullParts(KeyParts(r));
    }
  }

  /** A complete key with a comma-free carrier splits back into carrier, flight and date. */
  lemma KeyPieces(r: Row)
    requires Get(r, CARRIER).Str? && Get(r, FLIGHT).Int? && Get(r, DATE).Date?
    requires ',' !in Get(r, CARRIER).s
    ensures SplitOn(NaturalKey(r), ',') == [Get(r, CARRIER).s, IntToText(Get(r, FLIGHT).i), DateText(Get(r, DATE).date)]
  {
    var ts := NonNullTexts(KeyParts(r));
    assert ts == [Get(r, CARRIER).s, IntToText(Get(r, FLIGHT).i), DateText(Get(r, DATE).date)];
    SplitJoinRoundTrip(ts, ',');
  }

  /** A row with a carrier, a flight number and a date has the key "carrier,flight,YYYY-MM-DD". */
  lemma KeyShape(r: Row)
    requires Get(r, CARRIER).Str? && Get(r, FLIGHT).Int? && Get(r, DATE).Date?
    ensures NaturalKey(r) == Get(r, CARRIER).s + "," + IntToText(Get(r, FLIGHT).i) + "," + DateText(Get(r, DATE).date)
  {
    var ts := NonNullTexts(KeyParts(r));
    assert ts == [Get(r, CARRIER).s, IntToText(Get(r, FLIGHT).i), DateText(Get(r, DATE).date)];
    assert ts[1..] == [ts[1], ts[2]] && ts[1..][1..] == [ts[2]];
    assert JoinWith(ts[1..], ",") == ts[1] + "," + ts[2];
    assert NaturalKey(r) == ts[0] + "," + (ts[1] + "," + ts[2]);
  }

  /**
   * Rows whose carriers contain no comma and that have a flight number and a
   * date get different keys unless they agree on carrier, flight and date.
   */
  lemma KeyInjective(a: Row, b: Row)
    requires Get(a, CARRIER).Str? && Get(a, FLIGHT).Int? && Get(a, DATE).Date?
    requires Get(b, CARRIER).Str? && Get(b, FLIGHT).Int? && Get(b, DATE).Date?
    requires ',' !in Get(a, CARRIER).s && ',' !in Get(b, CARRIER).s
    requires NaturalKey(a) == NaturalKey(b)
    ensures Get(a, CARRIER) == Get(b, CARRIER)
    ensures Get(a, FLIGHT) == Get(b, FLIGHT)
    ensures Get(a, DATE) == Get(b, DATE)
  {
    var p := NonNullTexts(KeyParts(a));
    var q := NonNullTexts(KeyParts(b));
    assert p == [Get(a, CARRIER).s, IntToText(Get(a, FLIGHT).i), DateText(Get(a, DATE).date)];
    assert q == [Get(b, CARRIER).s, IntToText(Get(b, FLIGHT).i), DateText(Get(b, DATE).date)];
    JoinInjective(p, q, ',');
    IntToTextInjective(Get(a, FLIGHT).i, Get(b, FLIGHT).i);
    DateTextInjective(Get(a, DATE).date, Get(b, DATE).date);
  }

  /**
   * The salt: the decimal text of the first 256 random bits drawn after the
   * generator is seeded with 222. `draw(s)` stands for that draw after seeding
   * with `s`.
   */
  function Salt(draw: int -> Bits256): (salt: string)
    ensures |salt| >= 1 && AllDigits(salt)
    ensures salt[0] == '0' ==> |salt| == 1
    ensures DecimalValue(salt) == draw(SEED)
  {
    DecimalRoundTrip(draw(SEED));
    NatToDecimal(draw(SEED))
  }

  /** The salt is the only numeral without a leading zero that denotes the draw. */
  lemma SaltUnique(draw: int -> Bits256, s: string)
    requires |s| >= 1 && AllDigits(s) && (s[0] == '0' ==> |s| == 1)
    requires DecimalValue(s) == draw(SEED)
    ensures s == Salt(draw)
  {
    DecimalCanonical(s);
  }

  // ---------------------------------------------------------------------------
  // Hash buckets

  /** The hash of a salted key, through the dispatch the package installs for text arguments. */
  function KeyHash(key: string, salt: string, hashText: HashText): (h: Int64)
    ensures h == hashText(key + salt, HashDispatch.HASH_SEED)
  {
    var call := HashDispatch.VisitHash(HashDispatch.DType(HashDispatch.String, true), key + salt, DIALECT);
    HashDispatch.StringHashCall(true, key + salt, DIALECT);
    hashText(call.value.arg, call.value.seed)
  }

  /** `abs` on a 64-bit integer: the smallest one has no 64-bit absolute value and is an error. */
  function Abs64(h: Int64): (r: Result<Int64, TableError>)
    ensures r.Ok? <==> h != INT64_MIN
    ensures r.Ok? ==> r.value >= 0 && (r.value == h || r.value == -h)
  {
    if h == INT64_MIN then Err(NumericOutOfRange)
    else if h < 0 then Ok(-h)
    else Ok(h)
  }

  /** `%` as the backend computes it: the remainder takes the sign of the dividend. */
  function PgMod(a: int, b: int): (m: int)
    requires b > 0
    ensures a >= 0 ==> 0 <= m < b
    ensures a < 0 ==> -b < m <= 0
  {
    if a >= 0 then a % b else -((-a) % b)
  }

  /** The bucket of a hash, |h| % 4. */
  function Bucket(h: Int64): (b: int)
    ensures 0 <= b < BUCKETS
  {
    var magnitude: int := if h < 0 then 0 - h else h;
    PgMod(magnitude, BUCKETS)
  }

  /** Whether a row with this hash goes to the training set. */
  predicate InTrain(h: Int64)
    ensures !InTrain(h) <==> Bucket(h) == BUCKETS - 1
  {
    Bucket(h) < TRAIN_BUCKETS
  }

  /** The side flag the split computes from the key column: true for training. */
  function TrainValue(key: Value, salt: string, hashText: HashText): (v: Value)
    ensures key.Str? && KeyHash(key.s, salt, hashText) != INT64_MIN ==> v == Bool(InTrain(KeyHash(key.s, salt, hashText)))
  {
    match key
    case Str(k) =>
      (match Abs64(KeyHash(k, salt, hashText))
       case Ok(a) => Bool(PgMod(a, BUCKETS) < TRAIN_BUCKETS)
       case Err(_) => Null)
    case _ => Null
  }

  /** `~flag`: negation, with null staying null. */
  function NotValue(v: Value): (r: Value)
    ensures r.Bool? <==> v.Bool?
    ensures v.Bool? ==> r.b != v.b
  {
    match v
    case Bool(b) => Bool(!b)
    case _ => Null
  }

  // ---------------------------------------------------------------------------
  // The intermediate tables

  function KeyColumn(r: Row): Value
  {
    Str(NaturalKey(r))
  }

  function TrainColumnOf(salt: string, hashText: HashText): Row -> Value
  {
    r => TrainValue(Get(r, UNIQUE_KEY), salt, hashText)
  }

  function TrainColumn(r: Row): Value
  {
    Get(r, TRAIN)
  }

  function TestColumn(r: Row): Value
  {
    NotValue(Get(r, TRAIN))
  }

  /**
   * The two filters never both keep a row; a row whose flag is set is kept by
   * exactly one of them, and a row with a null flag by neither.
   */
  lemma FlagSidesExclusive(r: Row)
    ensures !(Holds(SideFlag(true))(r) && Holds(SideFlag(false))(r))
    ensures Get(r, TRAIN).Bool? ==> Holds(SideFlag(true))(r) != Holds(SideFlag(false))(r)
    ensures Get(r, TRAIN).Null? ==> !Holds(SideFlag(true))(r) && !Holds(SideFlag(false))(r)
  {
    assert SideFlag(true)(r) == Get(r, TRAIN);
    assert SideFlag(false)(r) == NotValue(Get(r, TRAIN));
  }

  /** The filter condition of one side: the flag for training, its negation for test. */
  function SideFlag(toTrain: bool): Row -> Value
  {
    if toTrain then TrainColumn else TestColumn
  }

  /** The input with its key and its side flag. */
  function Marked(t: Table, salt: string, hashText: HashText): (u: Table)
    requires WellFormed(t)
    ensures WellFormed(u) && |u.rows| == |t.rows|
  {
    Mutate(Mutate(t, UNIQUE_KEY, KeyColumn), TRAIN, TrainColumnOf(salt, hashText))
  }

  /** The training (or test) rows with the scratch columns dropped again. */
  function SideData(t: Table, salt: string, hashText: HashText, toTrain: bool): (u: Table)
    requires WellFormed(t)
    ensures WellFormed(u)
  {
    Drop(Filter(Marked(t, salt, hashText), SideFlag(toTrain)), SCRATCH)
  }

  // ---------------------------------------------------------------------------
  // The specification of the split

  /** Whether a row goes to the training set: decided by its key and the salt alone. */
  predicate Assignment(r: Row, salt: string, hashText: HashText)
  {
    InTrain(KeyHash(NaturalKey(r), salt, hashText))
  }

  function Side(salt: string, hashText: HashText, toTrain: bool): Row -> bool
  {
    r => Assignment(r, salt, hashText) == toTrain
  }

  /** The input rows assigned to one side, in their input order. */
  function Assigned(rows: seq<Row>, salt: string, hashText: HashText, toTrain: bool): seq<Row>
  {
    Where(rows, Side(salt, hashText, toTrain))
  }

  /** A row's features: everything but the scratch columns and the target. */
  function Features(r: Row): Row
  {
    r - (SCRATCH + {ARR_DELAY})
  }

  function Target(r: Row): Value
  {
    Get(r, ARR_DELAY)
  }

  function StripScratch(r: Row): Row
  {
    r - SCRATCH
  }

  function FeatureColumns(columns: seq<Name>): seq<Name>
  {
    Without(columns, SCRATCH + {ARR_DELAY})
  }

  /** The columns the split reads. */
  predicate Splittable(t: Table)
  {
    && CARRIER in t.columns && ColumnOfKind(t, CARRIER, StrKind)
    && FLIGHT in t.columns && DATE in t.columns
    && ARR_DELAY in t.columns
  }

  /** No row's salted key hashes to the one value `abs` cannot take. */
  predicate NoOverflow(rows: seq<Row>, salt: string, hashText: HashText)
  {
    forall r | r in rows :: KeyHash(NaturalKey(r), salt, hashText) != INT64_MIN
  }

  /** A marked row is its input row with the key and the side flag written into it. */
  lemma MarkedRow(t: Table, salt: string, hashText: HashText, i: nat)
    requires WellFormed(t) && i < |t.rows|
    ensures var r := t.rows[i];
            var key := Str(NaturalKey(r));
            Marked(t, salt, hashText).rows[i] == r[UNIQUE_KEY := key][TRAIN := TrainValue(key, salt, hashText)]
  {
    var r := t.rows[i];
    var keyed := Mutate(t, UNIQUE_KEY, KeyColumn);
    assert keyed.rows[i] == r[UNIQUE_KEY := KeyColumn(r)];
    assert Get(keyed.rows[i], UNIQUE_KEY) == Str(NaturalKey(r));
  }

  /** Writing the scratch columns into a row and stripping them again gives the row without them. */
  lemma StripScratchUpdate(r: Row, key: Value, flag: Value)
    ensures StripScratch(r[UNIQUE_KEY := key][TRAIN := flag]) == StripScratch(r)
  {
    var u := r[UNIQUE_KEY := key][TRAIN := flag];
    assert (u - SCRATCH).Keys == (r - SCRATCH).Keys;
    forall c | c in r - SCRATCH
      ensures (u - SCRATCH)[c] == (r - SCRATCH)[c]
    {
      assert c != UNIQUE_KEY && c != TRAIN;
    }
  }

  /** The side a marked row is filtered to is the side its input row is assigned to. */
  lemma MarkedRowSide(t: Table, salt: string, hashText: HashText, toTrain: bool, i: nat)
    requires WellFormed(t) && NoOverflow(t.rows, salt, hashText) && i < |t.rows|
    ensures Holds(SideFlag(toTrain))(Marked(t, salt, hashText).rows[i]) == Side(salt, hashText, toTrain)(t.rows[i])
    ensures StripScratch(Marked(t, salt, hashText).rows[i]) == StripScratch(t.rows[i])
  {
    var r := t.rows[i];
    assert r in t.rows;
    MarkedRow(t, salt, hashText, i);
    var key := Str(NaturalKey(r));
    var flag := TrainValue(key, salt, hashText);
    var u := Marked(t, salt, hashText).rows[i];
    assert flag == Bool(Assignment(r, salt, hashText));
    assert Get(u, TRAIN) == flag;
    StripScratchUpdate(r, key, flag);
  }

  lemma MarkedRows(t: Table, salt: string, hashText: HashText, toTrain: bool)
    requires WellFormed(t) && NoOverflow(t.rows, salt, hashText)
    ensures var m := Marked(t, salt, hashText);
            && (forall i | 0 <= i < |t.rows| ::
                  Holds(SideFlag(toTrain))(m.rows[i]) == Side(salt, hashText, toTrain)(t.rows[i]))
            && (forall i | 0 <= i < |t.rows| :: StripScratch(m.rows[i]) == StripScratch(t.rows[i]))
  {
    forall i | 0 <= i < |t.rows|
      ensures Holds(SideFlag(toTrain))(Marked(t, salt, hashText).rows[i]) == Side(salt, hashText, toTrain)(t.rows[i])
      ensures StripScratch(Marked(t, salt, hashText).rows[i]) == StripScratch(t.rows[i])
    {
      MarkedRowSide(t, salt, hashText, toTrain, i);
    }
  }

  /** Dropping the scratch columns strips them from every row. */
  lemma DropScratch(u: Table)
    requires WellFormed(u)
    ensures Drop(u, SCRATCH).rows == MapRows(u.rows, StripScratch)
  {
    var d := Drop(u, SCRATCH);
    assert |d.rows| == |u.rows|;
    forall k | 0 <= k < |u.rows|
      ensures d.rows[k] == MapRows(u.rows, StripScratch)[k]
    {
    }
  }

  /** The rows of one side, before the target is split off, are the assigned input rows without scratch columns. */
  lemma SideDataRows(t: Table, salt: string, hashText: HashText, toTrain: bool)
    requires WellFormed(t) && NoOverflow(t.rows, salt, hashText)
    ensures SideData(t, salt, hashText, toTrain).rows == MapRows(Assigned(t.rows, salt, hashText, toTrain), StripScratch)
  {
    var m := Marked(t, salt, hashText);
    MarkedRows(t, salt, hashText, toTrain);
    WhereAligned(t.rows, m.rows, Holds(SideFlag(toTrain)), StripScratch, Side(salt, hashText, toTrain), StripScratch);
    var filtered := Filter(m, SideFlag(toTrain));
    assert filtered.rows == Where(m.rows, Holds(SideFlag(toTrain)));
    DropScratch(filtered);
  }

  lemma SideDataColumns(t: Table, salt: string, hashText: HashText, toTrain: bool)
    requires WellFormed(t)
    ensures SideData(t, salt, hashText, toTrain).columns == Without(t.columns, SCRATCH)
  {
    var keyed := Mutate(t, UNIQUE_KEY, KeyColumn);
    var m := Mutate(keyed, TRAIN, TrainColumnOf(salt, hashText));
    if UNIQUE_KEY !in t.columns {
      WithoutAppended(t.columns, UNIQUE_KEY, SCRATCH);
    }
    assert Without(keyed.columns, SCRATCH) == Without(t.columns, SCRATCH);
    if TRAIN !in keyed.columns {
      WithoutAppended(keyed.columns, TRAIN, SCRATCH);
    }
    assert Without(m.columns, SCRATCH) == Without(keyed.columns, SCRATCH);
    assert Filter(m, SideFlag(toTrain)).columns == m.columns;
  }

  // ---------------------------------------------------------------------------
  // split_data

  /**
   * `split_data`: the features and targets of the training and test rows.
   * `hashText` is the backend's text hash and `draw` the seeded random draw.
   */
  function SplitData(t: Table, hashText: HashText, draw: int -> Bits256): (r: Result<Split, TableError>)
    requires WellFormed(t)
    ensures r.Ok? <==> Splittable(t) && NoOverflow(t.rows, Salt(draw), hashText)
    ensures r.Err? ==> r.error == NumericOutOfRange || r.error.MissingColumn? || r.error == TypeMismatch(CARRIER)
    ensures r.Ok? ==> var s := r.value;
                      && WellFormed(s.xTrain) && WellFormed(s.xTest)
                      && s.xTrain.columns == FeatureColumns(t.columns)
                      && s.xTest.columns == FeatureColumns(t.columns)
    ensures r.Ok? ==> var s := r.value;
                      && s.xTrain.rows == MapRows(Assigned(t.rows, Salt(draw), hashText, true), Features)
                      && s.yTrain == MapRows(Assigned(t.rows, Salt(draw), hashText, true), Target)
                      && s.xTest.rows == MapRows(Assigned(t.rows, Salt(draw), hashText, false), Features)
                      && s.yTest == MapRows(Assigned(t.rows, Salt(draw), hashText, false), Target)
  {
    match SplitError(t, Salt(draw), hashText)
    case Some(e) => Err(e)
    case None => Ok(Divide(t, Salt(draw), hashText))
  }

  /**
   * The first failure `split_data` runs into, if any: the key reads `carrier`,
   * `flight` and `date` in that order before the join checks that the carrier
   * is text; dropping `arr_delay` is built before the query runs, and only
   * running it can overflow `abs`.
   */
  function SplitError(t: Table, salt: string, hashText: HashText): (e: Option<TableError>)
    ensures e.None? <==> Splittable(t) && NoOverflow(t.rows, salt, hashText)
    ensures e.Some? ==> e.value == NumericOutOfRange || e.value.MissingColumn? || e.value == TypeMismatch(CARRIER)
    ensures e.Some? && e.value.MissingColumn? ==> e.value.name !in t.columns
    ensures e == Some(TypeMismatch(CARRIER)) ==> CARRIER in t.columns && FLIGHT in t.columns && DATE in t.columns
    ensures e == Some(NumericOutOfRange) ==> Splittable(t)
  {
    if CARRIER !in t.columns then Some(MissingColumn(CARRIER))
    else if FLIGHT !in t.columns then Some(MissingColumn(FLIGHT))
    else if DATE !in t.columns then Some(MissingColumn(DATE))
    else if !ColumnOfKind(t, CARRIER, StrKind) then Some(TypeMismatch(CARRIER))
    // The sides keep every input column but the scratch ones (`SideDataColumns`),
    // so dropping `arr_delay` from them fails exactly when the input lacks it.
    else if ARR_DELAY !in t.columns then Some(MissingColumn(ARR_DELAY))
    else if !NoOverflow(t.rows, salt, hashText) then Some(NumericOutOfRange)
    else None
  }

  /** The four outputs, once the input has the columns the split reads and no hash overflows. */
  function Divide(t: Table, salt: string, hashText: HashText): (s: Split)
    requires WellFormed(t) && NoOverflow(t.rows, salt, hashText)
    ensures && WellFormed(s.xTrain) && WellFormed(s.xTest)
            && s.xTrain.columns == FeatureColumns(t.columns)
            && s.xTest.columns == FeatureColumns(t.columns)
    ensures && s.xTrain.rows == MapRows(Assigned(t.rows, salt, hashText, true), Features)
            && s.yTrain == MapRows(Assigned(t.rows, salt, hashText, true), Target)
            && s.xTest.rows == MapRows(Assigned(t.rows, salt, hashText, false), Features)
            && s.yTest == MapRows(Assigned(t.rows, salt, hashText, false), Target)
  {
    var trainData := SideData(t, salt, hashText, true);
    var testData := SideData(t, salt, hashText, false);
    SplitOutputs(t, salt, hashText, true);
    SplitOutputs(t, salt, hashText, false);
    Split(Drop(trainData, {ARR_DELAY}), Drop(testData, {ARR_DELAY}),
          Column(trainData, ARR_DELAY), Column(testData, ARR_DELAY))
  }

  /** Dropping the target from one side's rows gives the features; its column gives the targets. */
  lemma SplitOutputs(t: Table, salt: string, hashText: HashText, toTrain: bool)
    requires WellFormed(t) && NoOverflow(t.rows, salt, hashText)
    ensures var side := SideData(t, salt, hashText, toTrain);
            var rows := Assigned(t.rows, salt, hashText, toTrain);
            && Drop(side, {ARR_DELAY}).columns == FeatureColumns(t.columns)
            && Drop(side, {ARR_DELAY}).rows == MapRows(rows, Features)
            && Column(side, ARR_DELAY) == MapRows(rows, Target)
  {
    SideDataColumns(t, salt, hashText, toTrain);
    WithoutTwice(t.columns, SCRATCH, {ARR_DELAY});
    SideDataRows(t, salt, hashText, toTrain);
    FeatureRows(SideData(t, salt, hashText, toTrain), Assigned(t.rows, salt, hashText, toTrain));
  }

  /** Stripping the scratch columns, then the target, leaves the features; the target survives the first step. */
  lemma FeatureRow(r: Row)
    ensures StripScratch(r) - {ARR_DELAY} == Features(r)
    ensures Get(StripScratch(r), ARR_DELAY) == Target(r)
  {
    RemoveTwice(r, SCRATCH, {ARR_DELAY});
    assert ARR_DELAY !in SCRATCH;
  }

  lemma FeatureRows(side: Table, rows: seq<Row>)
    requires WellFormed(side) && side.rows == MapRows(rows, StripScratch)
    ensures Drop(side, {ARR_DELAY}).rows == MapRows(rows, Features)
    ensures Column(side, ARR_DELAY) == MapRows(rows, Target)
  {
    var x, y := Drop(side, {ARR_DELAY}).rows, Column(side, ARR_DELAY);
    forall k | 0 <= k < |rows|
      ensures x[k] == Features(rows[k]) && y[k] == Target(rows[k])
    {
      assert side.rows[k] == StripScratch(rows[k]);
      FeatureRow(rows[k]);
    }
  }


  // ---------------------------------------------------------------------------
  // Properties of the split

  /** The sign-of-dividend remainder is a remainder: it differs from the dividend by a multiple of the divisor. */
  lemma PgModDivision(a: int, b: int) returns (q: int)
    requires b > 0
    ensures a == b * q + PgMod(a, b)
  {
    if a >= 0 {
      q := a / b;
    } else {
      q := -((-a) / b);
      assert -a == b * ((-a) / b) + (-a) % b;
    }
  }

  /** Every input row goes to exactly one side: the two sides together are the input, row for row. */
  lemma SplitPartition(t: Table, hashText: HashText, draw: int -> Bits256)
    requires WellFormed(t) && SplitData(t, hashText, draw).Ok?
    ensures var salt := Salt(draw);
            multiset(Assigned(t.rows, salt, hashText, true)) + multiset(Assigned(t.rows, salt, hashText, false))
              == multiset(t.rows)
    ensures var s := SplitData(t, hashText, draw).value;
            && |s.xTrain.rows| + |s.xTest.rows| == |t.rows|
            && |s.yTrain| == |s.xTrain.rows| && |s.yTest| == |s.xTest.rows|
  {
    var salt := Salt(draw);
    WhereSplits(t.rows, Side(salt, hashText, true), Side(salt, hashText, false));
    var a, b := Assigned(t.rows, salt, hashText, true), Assigned(t.rows, salt, hashText, false);
    assert |multiset(a) + multiset(b)| == |multiset(t.rows)|;
  }

  /**
   * A row is on the training side exactly when its salted key hashes to a
   * training bucket, and on the test side exactly when it does not; no row is
   * on both.
   */
  lemma SplitExclusive(t: Table, hashText: HashText, draw: int -> Bits256, r: Row)
    ensures r in Assigned(t.rows, Salt(draw), hashText, true) <==> r in t.rows && Assignment(r, Salt(draw), hashText)
    ensures r in Assigned(t.rows, Salt(draw), hashText, false) <==> r in t.rows && !Assignment(r, Salt(draw), hashText)
    ensures !(r in Assigned(t.rows, Salt(draw), hashText, true) && r in Assigned(t.rows, Salt(draw), hashText, false))
  {
    var salt := Salt(draw);
    WhereKeeps(t.rows, Side(salt, hashText, true));
    WhereKeeps(t.rows, Side(salt, hashText, false));
  }

  /** The features and target of a row assigned to a side are among that side's. */
  lemma AssignedOutputs(rows: seq<Row>, salt: string, hashText: HashText, r: Row)
    requires r in rows
    ensures var side := Assigned(rows, salt, hashText, Assignment(r, salt, hashText));
            Features(r) in MapRows(side, Features) && Target(r) in MapRows(side, Target)
  {
    var side := Assigned(rows, salt, hashText, Assignment(r, salt, hashText));
    assert Side(salt, hashText, Assignment(r, salt, hashText))(r);
    WhereKeeps(rows, Side(salt, hashText, Assignment(r, salt, hashText)));
    var k :| 0 <= k < |side| && side[k] == r;
    assert MapRows(side, Features)[k] == Features(r);
    assert MapRows(side, Target)[k] == Target(r);
  }

  /**
   * Every input row's features and target land on the side its key assigns
   * it to, so the training and test features together cover the input.
   */
  lemma SplitCovers(t: Table, hashText: HashText, draw: int -> Bits256, r: Row)
    requires WellFormed(t) && SplitData(t, hashText, draw).Ok?
    requires r in t.rows
    ensures var s := SplitData(t, hashText, draw).value;
            if Assignment(r, Salt(draw), hashText) then Features(r) in s.xTrain.rows && Target(r) in s.yTrain
            else Features(r) in s.xTest.rows && Target(r) in s.yTest
  {
    AssignedOutputs(t.rows, Salt(draw), hashText, r);
  }

  /** Putting a row's target back into its features gives the row without the scratch columns. */
  lemma FeaturesAndTarget(r: Row)
    requires ARR_DELAY in r
    ensures Features(r)[ARR_DELAY := Target(r)] == StripScratch(r)
  {
    assert ARR_DELAY !in SCRATCH;
  }

  /**
   * The features and the target at the same position belong to the same
   * input row: putting the target back into the features gives that row
   * without the scratch columns.
   */
  lemma SplitAligned(t: Table, hashText: HashText, draw: int -> Bits256, toTrain: bool, k: nat)
    requires WellFormed(t) && SplitData(t, hashText, draw).Ok?
    requires k < |Assigned(t.rows, Salt(draw), hashText, toTrain)|
    ensures var s := SplitData(t, hashText, draw).value;
            var x := if toTrain then s.xTrain.rows else s.xTest.rows;
            var y := if toTrain then s.yTrain else s.yTest;
            var r := Assigned(t.rows, Salt(draw), hashText, toTrain)[k];
            && r in t.rows
            && k < |x| && k < |y|
            && x[k][ARR_DELAY := y[k]] == StripScratch(r)
  {
    var s := SplitData(t, hashText, draw).value;
    var rows := Assigned(t.rows, Salt(draw), hashText, toTrain);
    var x := if toTrain then s.xTrain.rows else s.xTest.rows;
    var y := if toTrain then s.yTrain else s.yTest;
    assert x == MapRows(rows, Features) && y == MapRows(rows, Target);
    var r := rows[k];
    assert r in rows;
    assert x[k] == Features(r) && y[k] == Target(r);
    FeaturesAndTarget(r);
  }

  /** Reordering the input rows only reorders each side's features and targets. */
  lemma SplitOrderIndependent(t: Table, u: Table, hashText: HashText, draw: int -> Bits256)
    requires WellFormed(t) && WellFormed(u)
    requires u.columns == t.columns && multiset(u.rows) == multiset(t.rows)
    ensures SplitData(u, hashText, draw).Ok? <==> SplitData(t, hashText, draw).Ok?
    ensures SplitData(t, hashText, draw).Ok? ==>
              var s, s' := SplitData(t, hashText, draw).value, SplitData(u, hashText, draw).value;
              && multiset(s'.xTrain.rows) == multiset(s.xTrain.rows)
              && multiset(s'.yTrain) == multiset(s.yTrain)
              && multiset(s'.xTest.rows) == multiset(s.xTest.rows)
              && multiset(s'.yTest) == multiset(s.yTest)
  {
    var salt := Salt(draw);
    forall r
      ensures r in u.rows <==> r in t.rows
    {
      assert r in u.rows <==> r in multiset(u.rows);
      assert r in t.rows <==> r in multiset(t.rows);
    }
    assert ColumnOfKind(u, CARRIER, StrKind) <==> ColumnOfKind(t, CARRIER, StrKind);
    assert NoOverflow(u.rows, salt, hashText) <==> NoOverflow(t.rows, salt, hashText);
    if SplitData(t, hashText, draw).Ok? {
      forall toTrain: bool
        ensures multiset(MapRows(Assigned(u.rows, salt, hashText, toTrain), Features))
                == multiset(MapRows(Assigned(t.rows, salt, hashText, toTrain), Features))
        ensures multiset(MapRows(Assigned(u.rows, salt, hashText, toTrain), Target))
                == multiset(MapRows(Assigned(t.rows, salt, hashText, toTrain), Target))
      {
        WherePermutation(u.rows, t.rows, Side(salt, hashText, toTrain));
        MapRowsPermutation(Assigned(u.rows, salt, hashText, toTrain), Assigned(t.rows, salt, hashText, toTrain), Features);
        MapRowsPermutation(Assigned(u.rows, salt, hashText, toTrain), Assigned(t.rows, salt, hashText, toTrain), Target);
      }
    }
  }

  /**
   * The side of a row depends only on its carrier, flight and date (and the
   * salt): rows that agree on those go to the same side, whatever else they hold.
   */
  lemma SameKeySameSide(a: Row, b: Row, salt: string, hashText: HashText)
    requires Get(a, CARRIER) == Get(b, CARRIER) && Get(a, FLIGHT) == Get(b, FLIGHT) && Get(a, DATE) == Get(b, DATE)
    ensures Assignment(a, salt, hashText) == Assignment(b, salt, hashText)
  {
    assert KeyParts(a) == KeyParts(b);
  }

  /**
   * The generator enters the split only through its first draw after seeding
   * with 222: generators that agree on that draw give the same split, so
   * repeated calls split the same table the same way.
   */
  lemma SplitDependsOnSeededDraw(t: Table, hashText: HashText, draw: int -> Bits256, draw': int -> Bits256)
    requires WellFormed(t)
    requires draw(SEED) == draw'(SEED)
    ensures Salt(draw) == Salt(draw')
    ensures SplitData(t, hashText, draw) == SplitData(t, hashText, draw')
  {
    assert Salt(draw) == NatToDecimal(draw(SEED)) == Salt(draw');
  }

  /** A row's features hold neither scratch column nor the target, and every other value of the row. */
  lemma FeaturesOf(r: Row)
    ensures UNIQUE_KEY !in Features(r) && TRAIN !in Features(r) && ARR_DELAY !in Features(r)
    ensures forall c | c in r && c !in SCRATCH && c != ARR_DELAY :: c in Features(r) && Features(r)[c] == r[c]
  {
  }

  /**
   * Neither feature table has a scratch column or the target, in its schema
   * or in any row, and every other value of the input row is kept as it was.
   */
  lemma FeaturesWithoutScratch(t: Table, hashText: HashText, draw: int -> Bits256, toTrain: bool, x: Row)
    requires WellFormed(t) && SplitData(t, hashText, draw).Ok?
    requires var s := SplitData(t, hashText, draw).value;
             x in (if toTrain then s.xTrain.rows else s.xTest.rows)
    ensures var s := SplitData(t, hashText, draw).value;
            && UNIQUE_KEY !in s.xTrain.columns && TRAIN !in s.xTrain.columns && ARR_DELAY !in s.xTrain.columns
            && UNIQUE_KEY !in s.xTest.columns && TRAIN !in s.xTest.columns && ARR_DELAY !in s.xTest.columns
    ensures UNIQUE_KEY !in x && TRAIN !in x && ARR_DELAY !in x
    ensures exists r | r in t.rows :: Assignment(r, Salt(draw), hashText) == toTrain
              && forall c | c in r && c !in SCRATCH && c != ARR_DELAY :: c in x && x[c] == r[c]
  {
    var s := SplitData(t, hashText, draw).value;
    FeatureColumnsClean(t.columns);
    var rows := Assigned(t.rows, Salt(draw), hashText, toTrain);
    var r := FeatureSource(rows, if toTrain then s.xTrain.rows else s.xTest.rows, x);
    FeaturesOf(r);
    assert r in t.rows && Assignment(r, Salt(draw), hashText) == toTrain;
  }

  /** The feature columns hold neither scratch column nor the target. */
  lemma FeatureColumnsClean(columns: seq<Name>)
    ensures UNIQUE_KEY !in FeatureColumns(columns) && TRAIN !in FeatureColumns(columns)
    ensures ARR_DELAY !in FeatureColumns(columns)
  {
  }

  /** A row of a feature table is the features of one of the rows it was made from. */
  lemma FeatureSource(rows: seq<Row>, xs: seq<Row>, x: Row) returns (r: Row)
    requires xs == MapRows(rows, Features) && x in xs
    ensures r in rows && x == Features(r)
  {
    var k :| 0 <= k < |xs| && xs[k] == x;
    r := rows[k];
  }

}

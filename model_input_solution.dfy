/**
 * The notebook solution of `create_model_input_table`: the same join,
 * projection and null removal as the pipeline node, but with the target left
 * as the boolean `arr_delay >= 30` instead of a 0/1 integer.
 */
module ModelInputSolution {
  import opened Outcomes
  import opened Values
  import opened Tables
  import DataProcessing

  /** `arr_delay >= 30` as a column expression: a comparison with null is null. */
  function DelayedAtLeast30(v: Value): (r: Value)
    ensures r.Null? <==> !v.Int?
    ensures v.Int? ==> r == Bool(v.i >= 30)
  {
    match v
    case Int(x) => Bool(x >= 30)
    case _ => Null
  }

  /** `create_model_input_table` with a boolean target. */
  function CreateModelInputTable(flights: Table, weather: Table): (r: Result<Table, TableError>)
    requires WellFormed(flights) && WellFormed(weather)
    ensures r.Ok? <==> DataProcessing.Combinable(flights, weather)
    ensures r.Ok? ==> WellFormed(r.value) && r.value.columns == DataProcessing.MODEL_INPUT_COLUMNS
    ensures r.Ok? ==> forall o | o in r.value.rows :: NoNulls(o)
  {
    DataProcessing.CombineWithWeather(flights, weather, DelayedAtLeast30)
  }

  /**
   * Each row of the table is labelled true exactly when its flight arrived at
   * least 30 minutes late, and false otherwise; flights with no arrival delay
   * contribute no row. The date is that of the flight's `time_hour`, and the
   * flight and weather rows agree on origin and hour.
   */
  lemma ModelInputLabels(flights: Table, weather: Table, o: Row) returns (i: nat, j: nat)
    requires WellFormed(flights) && WellFormed(weather)
    requires CreateModelInputTable(flights, weather).Ok?
    requires o in CreateModelInputTable(flights, weather).value.rows
    ensures i < |flights.rows| && j < |weather.rows|
    ensures Matches(flights.rows[i], weather.rows[j], DataProcessing.JOIN_KEYS)
    ensures Get(flights.rows[i], DataProcessing.ARR_DELAY).Int?
    ensures Get(o, DataProcessing.ARR_DELAY) == Bool(Get(flights.rows[i], DataProcessing.ARR_DELAY).i >= 30)
    ensures Get(flights.rows[i], DataProcessing.TIME_HOUR).Timestamp?
    ensures Get(o, DataProcessing.DATE) == Date(Get(flights.rows[i], DataProcessing.TIME_HOUR).date)
  {
    i, j := DataProcessing.CombineProvenance(flights, weather, DelayedAtLeast30, o);
    assert DataProcessing.ARR_DELAY in DataProcessing.MODEL_INPUT_COLUMNS;
    assert DataProcessing.DATE in DataProcessing.MODEL_INPUT_COLUMNS;
    assert o[DataProcessing.ARR_DELAY] != Null && o[DataProcessing.DATE] != Null;
  }

  /** The output rows of the two variants for one flight and weather pair differ only in the target. */
  lemma ModelRowsDifferInTarget(f: Row, w: Row, flightColumns: seq<Name>, weatherColumns: seq<Name>)
    requires f.Keys == ColumnSet(flightColumns)
    requires DataProcessing.ARR_DELAY in flightColumns
    requires Distinct(JoinColumns(DataProcessing.LabelledColumns(flightColumns), weatherColumns, DataProcessing.JOIN_KEYS))
    ensures DataProcessing.ModelRow(f, w, DataProcessing.DelayFlag, flightColumns, weatherColumns)
            == DataProcessing.ModelRow(f, w, DelayedAtLeast30, flightColumns, weatherColumns)
                 [DataProcessing.ARR_DELAY := DataProcessing.DelayFlag(Get(f, DataProcessing.ARR_DELAY))]
  {
    var arr := DataProcessing.ARR_DELAY;
    var left := DataProcessing.LabelledColumns(flightColumns);
    var src := RightColumns(weatherColumns, DataProcessing.JOIN_KEYS);
    var dst := RightNames(src, left);
    var v := DataProcessing.DelayFlag(Get(f, arr));
    var asBool := DataProcessing.LabelRow(f, DelayedAtLeast30);
    DataProcessing.Relabel(f, DataProcessing.DelayFlag, DelayedAtLeast30);
    assert arr in left;
    DataProcessing.DistinctParts(left, dst, arr);
    MergeUpdate(asBool, w, src, dst, arr, v);
    assert arr in DataProcessing.MODEL_INPUT_COLUMNS;
    RestrictUpdate(Merge(asBool, w, src, dst), DataProcessing.MODEL_INPUT_COLUMNS, arr, v);
  }

  /**
   * The two variants keep the same flights: every row of the boolean table,
   * with true read as 1 and false as 0, is a row of the pipeline's table.
   */
  lemma BooleanRowsInIntegerTable(flights: Table, weather: Table, o: Row)
    requires WellFormed(flights) && WellFormed(weather)
    requires CreateModelInputTable(flights, weather).Ok?
    requires o in CreateModelInputTable(flights, weather).value.rows
    ensures DataProcessing.CreateModelInputTable(flights, weather).Ok?
    ensures o[DataProcessing.ARR_DELAY := if Get(o, DataProcessing.ARR_DELAY) == Bool(true) then Int(1) else Int(0)]
              in DataProcessing.CreateModelInputTable(flights, weather).value.rows
  {
    var i, j := DataProcessing.CombineProvenance(flights, weather, DelayedAtLeast30, o);
    var f, w := flights.rows[i], weather.rows[j];
    assert f in flights.rows;
    DataProcessing.CombineSteps(flights, weather, DelayedAtLeast30);
    ModelRowsDifferInTarget(f, w, flights.columns, weather.columns);
    var arr := DataProcessing.ARR_DELAY;
    assert arr in DataProcessing.MODEL_INPUT_COLUMNS;
    var delay := Get(f, arr);
    assert o[arr] == DelayedAtLeast30(delay) && o[arr] != Null;
    var flag := if Get(o, arr) == Bool(true) then Int(1) else Int(0);
    assert DataProcessing.DelayFlag(delay) == flag;
    var o' := DataProcessing.ModelRow(f, w, DataProcessing.DelayFlag, flights.columns, weather.columns);
    assert o' == o[arr := flag];
    NoNullsUpdate(o, arr, flag);
    DataProcessing.CombineComplete(flights, weather, DataProcessing.DelayFlag, i, j);
  }

  /**
   * A flight with no arrival delay is treated differently by the two
   * variants: the pipeline labels it 0 and keeps it, while the notebook
   * variant's row for it has a null target and is dropped.
   */
  lemma NullDelayTreatment(flights: Table, weather: Table, i: nat, j: nat)
    requires WellFormed(flights) && WellFormed(weather)
    requires DataProcessing.Combinable(flights, weather)
    requires i < |flights.rows| && j < |weather.rows|
    requires Matches(flights.rows[i], weather.rows[j], DataProcessing.JOIN_KEYS)
    requires Get(flights.rows[i], DataProcessing.ARR_DELAY) == Null
    requires NoNulls(DataProcessing.ModelRow(flights.rows[i], weather.rows[j], DataProcessing.DelayFlag,
                                             flights.columns, weather.columns))
    ensures var o := DataProcessing.ModelRow(flights.rows[i], weather.rows[j], DataProcessing.DelayFlag,
                                             flights.columns, weather.columns);
            o in DataProcessing.CreateModelInputTable(flights, weather).value.rows && Get(o, DataProcessing.ARR_DELAY) == Int(0)
    ensures DataProcessing.ModelRow(flights.rows[i], weather.rows[j], DelayedAtLeast30, flights.columns, weather.columns)
              !in CreateModelInputTable(flights, weather).value.rows
  {
    var f, w := flights.rows[i], weather.rows[j];
    DataProcessing.CombineComplete(flights, weather, DataProcessing.DelayFlag, i, j);
    assert f in flights.rows;
    DataProcessing.CombineSteps(flights, weather, DelayedAtLeast30);
    ModelRowsDifferInTarget(f, w, flights.columns, weather.columns);
    var asBool := DataProcessing.ModelRow(f, w, DelayedAtLeast30, flights.columns, weather.columns);
    DataProcessing.ModelRowValues(f, w, DelayedAtLeast30, flights.columns, weather.columns);
    assert DataProcessing.ARR_DELAY in asBool;
    assert asBool[DataProcessing.ARR_DELAY] == Null;
  }
}

# Flight-delay pipeline: a Dafny model of its row logic

This project models the row-level logic of the flight-delay prediction demo: its data-processing nodes, its deterministic train/test split, and the PostgreSQL hash compilation that the package installs for ibis. The model is written as pure Dafny functions over tables, and the project proves what each step promises about its output.

- **Tables.** A table is a list of column names plus a sequence of rows. Each row maps a name to a value. The ibis operations the pipeline uses are evaluated eagerly, one row at a time:
  - `mutate`, a filter on a boolean column, and `drop`;
  - `select` and `dropna`;
  - `inner_join` on key columns (`tables.dfy`).
- **Values.** Values are SQL values: null, booleans, integers, reals, text, dates, times of day and timestamps. The text functions (`lpad`, `substr`, `concat_ws`) and the casts (`try_cast` to `time` and to `int64`, casts to text) follow PostgreSQL (`text.dfy`, `values.dfy`).
- **`preprocess_flights`** rebuilds `dep_time` as `HH:MM:00` from the first two characters of the zero-padded text and the last two of the raw text. It then casts that to a time, and casts `arr_delay` and `air_time` to 64-bit integers. A value that does not convert becomes null (`data_processing.dfy`).
- **`create_model_input_table`** does the following (`data_processing.dfy`):
  - labels `arr_delay` with 1 when it is at least 30 and 0 otherwise;
  - writes the date of `time_hour` into `date`;
  - joins each flight with the weather rows of its origin and hour;
  - keeps the ten model columns and drops rows with a null.

  The notebook solution of this node keeps the boolean `arr_delay >= 30` as the label instead (`model_input_solution.dfy`).
- **`visit_Hash`** maps the data type of a `Hash` argument to PostgreSQL's extended hash function for that type, called with seed 0. Any other type raises an error (`hash_dispatch.dfy`).
- **`split_data`** proceeds as follows (`training.dfy`):
  - keys each row by `carrier,flight,date`;
  - appends a salt: the decimal text of the first 256-bit draw after the generator is seeded with 222;
  - hashes the salted key with `hashtextextended`;
  - sends a row to the training set when `abs(hash) % 4 < 3`.

  It then drops the scratch columns and separates `arr_delay`, the target, from the features.

The model treats two things as parameters and does not implement them:
- the backend's text hash, `HashText`, a function from a text and a seed to a 64-bit integer;
- the seeded random draw, `draw`, a function from a seed to a number below 2^256.

At its edges the code behaves as follows, and so does the model:
- The seed is fixed at 222 and the split at 3 of 4 buckets. They are not parameters.
- An empty table splits into two empty sides rather than failing.
- A null carrier, flight or date is skipped when the key is joined (`concat_ws`) and does not raise an error.
- The only runtime failure is `abs` of the smallest 64-bit integer.

## Model

| member | source | states |
|---|---|---|
| Training.SplitData | demo/delay-prediction/src/delay_prediction/pipelines/training/nodes.py:15-49 | The split succeeds exactly when the input has a text `carrier` column, has `flight`, `date` and `arr_delay` columns, and no salted key hashes to the smallest 64-bit integer. On success, the training features are the training-assigned input rows without the scratch columns and the target, in input order. The training targets are those rows' `arr_delay`, and the same holds for the test side. |
| Training.SplitError | demo/delay-prediction/src/delay_prediction/pipelines/training/nodes.py:25-48 | There is no error exactly when the split's columns are present and no hash overflows `abs`. Otherwise the error is a missing column, a non-text carrier, or the numeric overflow. A reported missing column is absent from the input. The carrier's type is only blamed once `carrier`, `flight` and `date` all exist, and the overflow only once the input is otherwise usable. |
| Training.Divide | demo/delay-prediction/src/delay_prediction/pipelines/training/nodes.py:42-48 | Both feature tables are well formed, with the input's columns minus `unique_key`, `train` and `arr_delay`. Their rows and targets are the features and targets of the rows assigned to each side. |
| Training.KeyShape | demo/delay-prediction/src/delay_prediction/pipelines/training/nodes.py:25-29 | A row with a carrier, a flight number and a date has the key `carrier + "," + flight-as-text + "," + YYYY-MM-DD`. |
| Training.KeyInjective | demo/delay-prediction/src/delay_prediction/pipelines/training/nodes.py:25-29 | Two rows whose comma-free carriers, flights and dates are present get equal keys only if they agree on all three. |
| Training.NonNullTexts | demo/delay-prediction/src/delay_prediction/pipelines/training/nodes.py:26-27 | When every part is text, the joined pieces are exactly those texts, in order, and never more pieces than parts. |
| Training.NonNullTextsConcat | demo/delay-prediction/src/delay_prediction/pipelines/training/nodes.py:26-27 | The pieces of two runs of parts are the pieces of the first followed by those of the second. |
| Training.NullPartSkipped | demo/delay-prediction/src/delay_prediction/pipelines/training/nodes.py:26-27 | `concat_ws` skips nulls: taking a null part out, at any position, leaves the joined pieces unchanged. |
| Training.AllNullParts | demo/delay-prediction/src/delay_prediction/pipelines/training/nodes.py:26-27 | Parts that are all null give no pieces. |
| Training.NaturalKey | demo/delay-prediction/src/delay_prediction/pipelines/training/nodes.py:25-29 | A row whose carrier, flight and date are all null gets the empty key, because every part is skipped. |
| Training.KeyPieces | demo/delay-prediction/src/delay_prediction/pipelines/training/nodes.py:25-29 | The key of a row with a comma-free carrier, a flight and a date splits on commas back into the carrier, the flight's text and the date's text. |
| Training.Salt | demo/delay-prediction/src/delay_prediction/pipelines/training/nodes.py:33-36 | The salt is the canonical decimal text of the generator's draw after seeding with 222: non-empty digits, no leading zero unless the draw is 0, and denoting the draw. |
| Training.SaltUnique | demo/delay-prediction/src/delay_prediction/pipelines/training/nodes.py:36 | Any numeral without a leading zero that denotes the draw is the salt, so the salt's text is fixed by the draw. |
| Training.SplitDependsOnSeededDraw | demo/delay-prediction/src/delay_prediction/pipelines/training/nodes.py:33-36 | Two generators that agree on the draw after seeding with 222 give the same salt and the same split, so repeated calls agree. |
| Training.KeyHash | demo/delay-prediction/src/delay_prediction/pipelines/training/nodes.py:38 | The hash of a salted key is `hashtextextended(key + salt, 0)`, reached through the package's `Hash` dispatch for a string argument. |
| Training.Abs64 | demo/delay-prediction/src/delay_prediction/pipelines/training/nodes.py:38 | `abs` succeeds exactly when the hash is not the smallest 64-bit integer. Its result is non-negative and equals the hash or its negation. |
| Training.PgMod | demo/delay-prediction/src/delay_prediction/pipelines/training/nodes.py:38 | The remainder takes the sign of the dividend and is smaller in magnitude than the divisor. |
| Training.PgModDivision | demo/delay-prediction/src/delay_prediction/pipelines/training/nodes.py:38 | The remainder differs from the dividend by a multiple of the divisor. |
| Training.Bucket | demo/delay-prediction/src/delay_prediction/pipelines/training/nodes.py:38 | Every hash lands in a bucket 0 through 3. |
| Training.InTrain | demo/delay-prediction/src/delay_prediction/pipelines/training/nodes.py:38 | A hash goes to the test side exactly when its bucket is the last one, 3. |
| Training.TrainValue | demo/delay-prediction/src/delay_prediction/pipelines/training/nodes.py:38 | For a text key whose hash does not overflow, the `train` flag is true exactly when the hash's bucket is below 3. |
| Training.NotValue | demo/delay-prediction/src/delay_prediction/pipelines/training/nodes.py:43 | `~` keeps booleans boolean and nulls non-boolean, and flips every boolean. |
| Training.FlagSidesExclusive | demo/delay-prediction/src/delay_prediction/pipelines/training/nodes.py:42-43 | The training filter and the test filter never both keep a row. A row with a boolean flag is kept by exactly one of them, and a row with a null flag by neither. |
| Training.SameKeySameSide | demo/delay-prediction/src/delay_prediction/pipelines/training/nodes.py:38 | Rows that agree on carrier, flight and date go to the same side, whatever their other columns hold. |
| Training.Marked | demo/delay-prediction/src/delay_prediction/pipelines/training/nodes.py:25-39 | Adding the key and the flag keeps the table well formed and keeps its row count. |
| Training.MarkedRow | demo/delay-prediction/src/delay_prediction/pipelines/training/nodes.py:25-39 | Each marked row is its input row with the key and the flag computed from that key written into it. |
| Training.MarkedRowSide | demo/delay-prediction/src/delay_prediction/pipelines/training/nodes.py:38-43 | A marked row passes the training (or test) filter exactly when its input row is assigned to that side, and it equals its input row once the scratch columns are removed. |
| Training.MarkedRows | demo/delay-prediction/src/delay_prediction/pipelines/training/nodes.py:38-43 | The same, for every row of the table at once. |
| Training.SideData | demo/delay-prediction/src/delay_prediction/pipelines/training/nodes.py:42-43 | Each side, after filtering and dropping the scratch columns, is a well-formed table. |
| Training.SideDataRows | demo/delay-prediction/src/delay_prediction/pipelines/training/nodes.py:42-43 | The rows of each side are the input rows assigned to it, in input order, without the scratch columns. |
| Training.SideDataColumns | demo/delay-prediction/src/delay_prediction/pipelines/training/nodes.py:42-43 | Each side has the input's columns, in order, minus `unique_key` and `train`. |
| Training.DropScratch | demo/delay-prediction/src/delay_prediction/pipelines/training/nodes.py:42-43 | Dropping the scratch columns strips them from every row. |
| Training.SplitOutputs | demo/delay-prediction/src/delay_prediction/pipelines/training/nodes.py:45-48 | Dropping `arr_delay` from a side gives the assigned rows' features, and its `arr_delay` column gives their targets. |
| Training.FeatureRows | demo/delay-prediction/src/delay_prediction/pipelines/training/nodes.py:45-48 | For any table of scratch-free rows, the dropped table and the target column agree row for row with the features and targets of the original rows. |
| Training.SplitPartition | demo/delay-prediction/src/delay_prediction/pipelines/training/nodes.py:42-43 | The training rows and the test rows together are the input rows, with multiplicity. Their counts add up to the input's, and each target sequence is as long as its feature table. |
| Training.SplitExclusive | demo/delay-prediction/src/delay_prediction/pipelines/training/nodes.py:38-43 | A row is on the training side exactly when it is an input row whose hash bucket is below 3, and on the test side exactly when it is an input row whose bucket is not. No row is on both. |
| Training.SplitCovers | demo/delay-prediction/src/delay_prediction/pipelines/training/nodes.py:42-48 | Every input row's features and target appear on the side its key assigns it to. |
| Training.SplitAligned | demo/delay-prediction/src/delay_prediction/pipelines/training/nodes.py:45-48 | The k-th features and k-th target of a side come from the same input row: writing the target back into the features gives that row without the scratch columns. |
| Training.SplitOrderIndependent | demo/delay-prediction/src/delay_prediction/pipelines/training/nodes.py:38-48 | Reordering the input rows does not change whether the split succeeds, and each of its four outputs changes only by a reordering. |
| Training.FeaturesWithoutScratch | demo/delay-prediction/src/delay_prediction/pipelines/training/nodes.py:42-46 | Neither feature table has `unique_key`, `train` or `arr_delay`, in its schema or in any row. Every feature row keeps every other value of an input row assigned to its side. |
| HashDispatch.VisitHash | demo/delay-prediction/src/delay_prediction/__init__.py:11-32 | A call is produced exactly for the supported kinds, naming `hash<type>extended` for the kind's PostgreSQL type, with the argument unchanged and seed 0. Every other kind gives the unsupported-operation error naming the type and the dialect. |
| HashDispatch.SupportedKinds | demo/delay-prediction/src/delay_prediction/__init__.py:14-32 | The supported kinds are exactly int16, int32, int64, float32, float64, string and macaddr. |
| HashDispatch.IntegerHashNames | demo/delay-prediction/src/delay_prediction/__init__.py:14-19 | int16, int32 and int64 are hashed by `hashint2extended`, `hashint4extended` and `hashint8extended`. |
| HashDispatch.FloatHashNames | demo/delay-prediction/src/delay_prediction/__init__.py:20-23 | float32 and float64 are hashed by `hashfloat4extended` and `hashfloat8extended`. |
| HashDispatch.OtherHashNames | demo/delay-prediction/src/delay_prediction/__init__.py:24-27 | Strings are hashed by `hashtextextended` and MAC addresses by `hashmacaddr8extended`. |
| HashDispatch.DispatchIgnoresNullability | demo/delay-prediction/src/delay_prediction/__init__.py:12-27 | Nullable and non-nullable types of one kind compile to the same call. |
| HashDispatch.DispatchInjective | demo/delay-prediction/src/delay_prediction/__init__.py:14-27 | Different supported kinds are hashed by different functions. |
| HashDispatch.StringHashCall | demo/delay-prediction/src/delay_prediction/__init__.py:24-25 | A string argument compiles to `hashtextextended(arg, 0)`. |
| DataProcessing.HourField | demo/delay-prediction/src/delay_prediction/pipelines/data_processing/nodes.py:22 | The hour field is the first two characters of the text left-padded with '0' to four characters. |
| DataProcessing.MinuteField | demo/delay-prediction/src/delay_prediction/pipelines/data_processing/nodes.py:24 | The minute field is the last two characters of the raw text, or the whole text when it is shorter than two. |
| DataProcessing.DepTimeText | demo/delay-prediction/src/delay_prediction/pipelines/data_processing/nodes.py:21-25 | Unless the raw text holds a colon, the rebuilt text splits on colons into exactly the hour field, the minute field and "00". |
| DataProcessing.FieldsColonFree | demo/delay-prediction/src/delay_prediction/pipelines/data_processing/nodes.py:22-24 | The hour and minute fields of a colon-free text hold no colon. |
| DataProcessing.ConvertDepTime | demo/delay-prediction/src/delay_prediction/pipelines/data_processing/nodes.py:21-26 | The converted departure time is null or a valid time of day with zero seconds, and null stays null. |
| DataProcessing.DepTimeSeconds | demo/delay-prediction/src/delay_prediction/pipelines/data_processing/nodes.py:25-26 | Whenever the rebuilt text casts to a time, its seconds are zero. |
| DataProcessing.DepTimeDigitFields | demo/delay-prediction/src/delay_prediction/pipelines/data_processing/nodes.py:22-24 | For a departure time of one to four digits, the hour field denotes the value divided by 100 and the minute field the remainder. |
| DataProcessing.DepTimeOfDigits | demo/delay-prediction/src/delay_prediction/pipelines/data_processing/nodes.py:21-26 | A departure time `n` of one to four digits becomes the time `n / 100 : n % 100 : 00` when that is a valid time of day, and null otherwise. |
| DataProcessing.PreprocessFlights | demo/delay-prediction/src/delay_prediction/pipelines/data_processing/nodes.py:20-29 | The node succeeds exactly when `dep_time` is a text column and `arr_delay` and `air_time` exist. It keeps the columns and the row count, and converts each row in place. |
| DataProcessing.PreprocessError | demo/delay-prediction/src/delay_prediction/pipelines/data_processing/nodes.py:20-28 | There is no error exactly when the three columns are present and `dep_time` holds text. Otherwise the error is a missing column or a mistyped `dep_time`. |
| DataProcessing.ConvertedRow | demo/delay-prediction/src/delay_prediction/pipelines/data_processing/nodes.py:21-28 | A converted row holds the converted `dep_time`, the `try_cast` of `arr_delay` and `air_time`, and every other value unchanged. |
| DataProcessing.Converted | demo/delay-prediction/src/delay_prediction/pipelines/data_processing/nodes.py:20-29 | The three mutations keep the table well formed, keep its columns and row count, and convert each row. |
| DataProcessing.PreprocessedRow | demo/delay-prediction/src/delay_prediction/pipelines/data_processing/nodes.py:20-29 | Each preprocessed row has the same columns as its input row and the three converted values. Every other value is unchanged. |
| DataProcessing.ConvertedKinds | demo/delay-prediction/src/delay_prediction/pipelines/data_processing/nodes.py:26-28 | A converted row holds a time or null in `dep_time`, and 64-bit integers or nulls in `arr_delay` and `air_time`. |
| DataProcessing.PreprocessedKinds | demo/delay-prediction/src/delay_prediction/pipelines/data_processing/nodes.py:26-28 | After preprocessing, `dep_time` holds only times or nulls, and `arr_delay` and `air_time` hold only 64-bit integers or nulls. |
| DataProcessing.DelayFlag | demo/delay-prediction/src/delay_prediction/pipelines/data_processing/nodes.py:45 | The label is 0 or 1, and it is 1 exactly when the delay is an integer of at least 30. |
| DataProcessing.DateOf | demo/delay-prediction/src/delay_prediction/pipelines/data_processing/nodes.py:47 | The date is the calendar date of a timestamp, and null for anything else. |
| DataProcessing.LabelRow | demo/delay-prediction/src/delay_prediction/pipelines/data_processing/nodes.py:42-48 | A labelled row has the flight's columns plus `arr_delay` and `date`, holding the label of the delay and the date of `time_hour`, and every other value unchanged. |
| DataProcessing.Labelled | demo/delay-prediction/src/delay_prediction/pipelines/data_processing/nodes.py:42-48 | Labelling keeps the rows, adds `date` if absent, and writes the label and the date into each row. |
| DataProcessing.CombineWithWeather | demo/delay-prediction/src/delay_prediction/pipelines/data_processing/nodes.py:41-66 | The node succeeds exactly when the label and the date are computable and the join and the selection are well typed. Its table then has exactly the ten model columns, in order, and no row with a null. |
| DataProcessing.CreateModelInputTable | demo/delay-prediction/src/delay_prediction/pipelines/data_processing/nodes.py:32-66 | The same, with the 0/1 label. |
| DataProcessing.CombineOrigin | demo/delay-prediction/src/delay_prediction/pipelines/data_processing/nodes.py:50-65 | Every output row is the merged row of one flight and one weather row that agree on `origin` and `time_hour`, restricted to the ten columns, with no null. |
| DataProcessing.CombineProvenance | demo/delay-prediction/src/delay_prediction/pipelines/data_processing/nodes.py:42-63 | Such an output row carries its flight's label and the date of its `time_hour`, and every other model column of the flight unchanged. |
| DataProcessing.CombineComplete | demo/delay-prediction/src/delay_prediction/pipelines/data_processing/nodes.py:50-65 | Every matching flight and weather pair whose output row has no null contributes that row to the table. |
| DataProcessing.ModelRowValues | demo/delay-prediction/src/delay_prediction/pipelines/data_processing/nodes.py:42-63 | A merged and restricted row holds the label of the flight's delay, the date of its hour, and the flight's other values. |
| DataProcessing.LabelKeepsKeys | demo/delay-prediction/src/delay_prediction/pipelines/data_processing/nodes.py:42-50 | Labelling a flight does not change which weather rows it matches. |
| DataProcessing.Relabel | demo/delay-prediction/src/delay_prediction/pipelines/data_processing/nodes.py:42-48 | Two labellings of a flight row differ only in `arr_delay`. |
| DataProcessing.ModelInputLabels | demo/delay-prediction/src/delay_prediction/pipelines/data_processing/nodes.py:45-50 | Every output row is labelled 1 exactly when its flight arrived at least 30 minutes late, and 0 otherwise. It carries the flight's date, and its origin and hour equal both the flight's and the weather row's. |
| ModelInputSolution.DelayedAtLeast30 | solutions/nb03_ex02.py:4 | The label is null exactly when the delay is not an integer, and otherwise it is whether the delay is at least 30. |
| ModelInputSolution.CreateModelInputTable | solutions/nb03_ex02.py:1-21 | The variant succeeds under the same conditions as the pipeline node. Its table has exactly the ten model columns, in order, and no null. |
| ModelInputSolution.ModelInputLabels | solutions/nb03_ex02.py:4-7 | Every output row is labelled true exactly when its integer delay is at least 30. It carries the flight's date and comes from a flight and weather pair that agree on origin and hour. |
| ModelInputSolution.ModelRowsDifferInTarget | solutions/nb03_ex02.py:4 | For one flight and weather pair, the two variants' rows differ only in `arr_delay`. |
| ModelInputSolution.BooleanRowsInIntegerTable | solutions/nb03_ex02.py:1-21 | Every row of the boolean table, with true read as 1 and false as 0, is a row of the pipeline's table. |
| ModelInputSolution.NullDelayTreatment | solutions/nb03_ex02.py:4 | A flight with no delay is kept with label 0 by the pipeline node but dropped by the notebook variant. |
| Tables.Mutate | demo/delay-prediction/src/delay_prediction/pipelines/data_processing/nodes.py:20-29 | `mutate` replaces an existing column or appends a new one, keeps the table well formed, and writes the new value into every row. |
| Tables.Filter | demo/delay-prediction/src/delay_prediction/pipelines/training/nodes.py:42-43 | Filtering keeps the columns, and its rows are the input rows, in order, for which the condition is true. A null condition counts as not true. |
| Tables.WhereCount | demo/delay-prediction/src/delay_prediction/pipelines/training/nodes.py:42-43 | A filter keeps every copy of a row that passes the test and no copy of a row that fails it. |
| Tables.Drop | demo/delay-prediction/src/delay_prediction/pipelines/training/nodes.py:42-46 | `drop` removes the names from the columns, in order, and from every row. |
| Tables.Column | demo/delay-prediction/src/delay_prediction/pipelines/training/nodes.py:47-48 | A column is the value of that name in each row, in order. |
| Tables.Select | demo/delay-prediction/src/delay_prediction/pipelines/data_processing/nodes.py:52-63 | `select` gives exactly the named columns, in the given order, and restricts each row to them. |
| Tables.DropNa | demo/delay-prediction/src/delay_prediction/pipelines/data_processing/nodes.py:65 | `dropna` keeps the columns, keeps every copy of each row without a null and no copy of a row with one, and keeps the input order. |
| Tables.InnerJoin | demo/delay-prediction/src/delay_prediction/pipelines/data_processing/nodes.py:50 | The join succeeds exactly when both sides have the keys and the output names are distinct. Its rows are the merged matching pairs, left row by left row. |
| Tables.JoinRowsProvenance | demo/delay-prediction/src/delay_prediction/pipelines/data_processing/nodes.py:50 | Every joined row is the merge of a left row and a right row that match on the keys. |
| Tables.JoinRowsComplete | demo/delay-prediction/src/delay_prediction/pipelines/data_processing/nodes.py:50 | Every matching left and right pair contributes its merged row. |
| Tables.WhereSplits | demo/delay-prediction/src/delay_prediction/pipelines/training/nodes.py:42-43 | The rows a test keeps and the rows its negation keeps together make up the input, with multiplicity. |
| Tables.WherePermutation | demo/delay-prediction/src/delay_prediction/pipelines/training/nodes.py:42-43 | Filtering a reordered input gives a reordering of the filtered rows. |
| Tables.MapRowsPermutation | demo/delay-prediction/src/delay_prediction/pipelines/training/nodes.py:45-48 | Mapping a reordered sequence of rows gives a reordering of the mapped values. |
| Text.LPad | demo/delay-prediction/src/delay_prediction/pipelines/data_processing/nodes.py:22 | `lpad` gives exactly `width` characters: the fill, then the text, or the text cut to `width` when it is longer. |
| Text.Substr | demo/delay-prediction/src/delay_prediction/pipelines/data_processing/nodes.py:22-24 | `substr` gives at most `length` characters, the window itself when it lies inside the text. A negative start counts back from the end. |
| Text.IntToText | demo/delay-prediction/src/delay_prediction/pipelines/training/nodes.py:27 | The text of an integer is non-empty and holds no comma or colon. |
| Text.ParseIntRoundTrip | demo/delay-prediction/src/delay_prediction/pipelines/training/nodes.py:27 | Reading the text of any integer gives the integer back. |
| Text.DecimalRoundTrip | demo/delay-prediction/src/delay_prediction/pipelines/training/nodes.py:36 | Reading back `str` of a natural number gives the number. |
| Text.DecimalCanonical | demo/delay-prediction/src/delay_prediction/pipelines/training/nodes.py:36 | A numeral without a leading zero is the canonical text of its value. |
| Text.SplitJoinRoundTrip | demo/delay-prediction/src/delay_prediction/pipelines/training/nodes.py:26-27 | Splitting a separator-joined sequence of separator-free pieces gives the pieces back. |
| Values.DateTextInjective | demo/delay-prediction/src/delay_prediction/pipelines/training/nodes.py:27 | Distinct dates have distinct texts. |
| Values.CastToText | demo/delay-prediction/src/delay_prediction/pipelines/training/nodes.py:27 | A cast to text gives text or null, and null exactly for a null or a real. |
| Values.ParseTime | demo/delay-prediction/src/delay_prediction/pipelines/data_processing/nodes.py:26 | Any time read from text is a valid time of day. |
| Values.ClockTextRoundTrip | demo/delay-prediction/src/delay_prediction/pipelines/data_processing/nodes.py:26 | Every valid time of day reads back from its `HH:MM:SS` text. |
| Values.TryCastTime | demo/delay-prediction/src/delay_prediction/pipelines/data_processing/nodes.py:26 | `try_cast` to time gives a valid time or null, never an error. |
| Values.TryCastInt | demo/delay-prediction/src/delay_prediction/pipelines/data_processing/nodes.py:27-28 | `try_cast` to int64 gives a 64-bit integer or null. It keeps an in-range integer and null, and text without a digit gives null. |
| Values.TryCastIntReadsText | demo/delay-prediction/src/delay_prediction/pipelines/data_processing/nodes.py:27-28 | The text form of any 64-bit integer casts back to that integer. |

## Left out

- The algorithm of PostgreSQL's `hashtextextended` is left out. The hash is a parameter of the split; only its type (text and seed to a 64-bit integer) is modelled.
- Python's Mersenne Twister (`random.seed`, `getrandbits`) is left out. The draw after seeding is a parameter, and the model does not capture that the global generator is reseeded as a side effect.
- The statistical properties of the split are left out, for the same reason: that about three quarters of the rows go to training, and that different seeds give different splits.
- `train_model` and the model-evaluation node are left out. They are calls into ibis-ml and scikit-learn with floating-point fitting.
- The `pipeline.py` files are left out, as is the `pipe` wiring at the end of the notebook solution. They hold only declarative wiring.
- The class-attribute patch of the compiler and the import-time call that applies it are left out. They are framework side effects; only the dispatch function they install is modelled.
- The `nb01` notebook snippets are left out. They are floating-point unit conversions and aggregations.
- Lazy evaluation, query compilation and SQL's freedom to return rows in any order are left out. Operations are eager, and an inner join lists matches left row by left row. The order-free statements are `Training.SplitPartition`, `Training.SplitOrderIndependent` and `Tables.WherePermutation`; the ordered equalities describe one admissible order.
- Column types are checked by the values present rather than by a declared schema. An all-null column therefore counts as having any kind.
- Values.TryCastInt: reads only an optional sign and decimal digits. PostgreSQL's tolerance of surrounding whitespace, digit-group underscores and non-decimal prefixes is not modelled. A real input gives null, whereas PostgreSQL rounds a float to the nearest integer; the raw `arr_delay` and `air_time` the node reads are text or integers, so the rounding is not modelled.
- Values.TryCastTime: reads only `H:M:S` with one- or two-digit fields. Other PostgreSQL time spellings (fractional seconds, AM/PM, time zones, two-field times) are not modelled; the text the pipeline builds always has three fields.
- Values.CastToText: casting a real to text gives null in the model, because the pipeline casts only integers and dates. Its contract states only the result's shape; the texts of integers and dates are stated by `Training.KeyShape`.
- Timestamps carry no time zone, and dates before year 1 are not modelled.

/**
 * Eager, row-by-row semantics of the table expressions the nodes compose:
 * mutate, filter, drop, select, inner join and dropna. A table is an ordered
 * list of column names and a sequence of rows, each row a map from exactly
 * those names to values.
 */
module Tables {
  import opened Outcomes
  import opened Values

  type Name = string

  type Row = map<Name, Value>

  datatype Table = Table(columns: seq<Name>, rows: seq<Row>)

  /** The errors the expression builder raises for a table that does not fit the expression. */
  datatype TableError =
    | MissingColumn(name: Name)
    | TypeMismatch(name: Name)
    | DuplicateColumn(name: Name)
    | NumericOutOfRange

  function ColumnSet(names: seq<Name>): set<Name>
  {
    set c | c in names
  }

  predicate Distinct(names: seq<Name>)
  {
    forall i, j | 0 <= i < j < |names| :: names[i] != names[j]
  }

  /** Column names are distinct and every row has exactly the table's columns. */
  predicate WellFormed(t: Table)
  {
    && Distinct(t.columns)
    && forall r | r in t.rows :: r.Keys == ColumnSet(t.columns)
  }

  function Get(r: Row, c: Name): Value
  {
    if c in r then r[c] else Null
  }

  /** Every value in column `c` is null or of kind `k`. */
  predicate ColumnOfKind(t: Table, c: Name, k: Kind)
  {
    forall r | r in t.rows :: HasKind(Get(r, c), k)
  }

  /** The first of `names` that is not among `columns`, if any. */
  function FirstMissing(names: seq<Name>, columns: seq<Name>): (m: Option<Name>)
    ensures m.None? <==> forall c | c in names :: c in columns
    ensures m.Some? ==> m.value in names && m.value !in columns
  {
    if names == [] then None
    else if names[0] !in columns then Some(names[0])
    else FirstMissing(names[1..], columns)
  }

  /** A name that occurs twice in `names`, if any. */
  function FirstDuplicate(names: seq<Name>): (d: Option<Name>)
    ensures d.None? <==> Distinct(names)
  {
    if names == [] then None
    else if names[0] in names[1..] then Some(names[0])
    else FirstDuplicate(names[1..])
  }

  // ---------------------------------------------------------------------------
  // Rows

  function MapRows<T>(rows: seq<Row>, f: Row -> T): (out: seq<T>)
    ensures |out| == |rows|
    ensures forall i | 0 <= i < |rows| :: out[i] == f(rows[i])
  {
    if rows == [] then [] else [f(rows[0])] + MapRows(rows[1..], f)
  }

  /** The rows `keep` accepts, in their original order. */
  function Where(rows: seq<Row>, keep: Row -> bool): (kept: seq<Row>)
    ensures |kept| <= |rows|
    ensures forall r | r in kept :: r in rows && keep(r)
  {
    if rows == [] then []
    else (if keep(rows[0]) then [rows[0]] else []) + Where(rows[1..], keep)
  }

  /** A row occurs in the kept rows as often as in the input when accepted, otherwise never. */
  lemma {:induction false} WhereCount(rows: seq<Row>, keep: Row -> bool, x: Row)
    ensures multiset(Where(rows, keep))[x] == if keep(x) then multiset(rows)[x] else 0
  {
    if rows != [] {
      WhereCount(rows[1..], keep, x);
      var head := if keep(rows[0]) then [rows[0]] else [];
      assert Where(rows, keep) == head + Where(rows[1..], keep);
      assert multiset(Where(rows, keep)) == multiset(head) + multiset(Where(rows[1..], keep));
      HeadTail(rows);
    }
  }

  /** Every row is kept by exactly one of a test and its negation. */
  /** `WhereCount` for every row at once. */
  lemma WhereCounts(rows: seq<Row>, keep: Row -> bool)
    ensures forall x :: multiset(Where(rows, keep))[x] == if keep(x) then multiset(rows)[x] else 0
  {
    forall x
      ensures multiset(Where(rows, keep))[x] == if keep(x) then multiset(rows)[x] else 0
    {
      WhereCount(rows, keep, x);
    }
  }

  lemma WhereSplits(rows: seq<Row>, keep: Row -> bool, reject: Row -> bool)
    requires forall r | r in rows :: reject(r) == !keep(r)
    ensures multiset(Where(rows, keep)) + multiset(Where(rows, reject)) == multiset(rows)
  {
    forall x
      ensures (multiset(Where(rows, keep)) + multiset(Where(rows, reject)))[x] == multiset(rows)[x]
    {
      WhereCount(rows, keep, x);
      WhereCount(rows, reject, x);
    }
  }

  /** Filtering depends on the rows only as a multiset. */
  lemma WherePermutation(a: seq<Row>, b: seq<Row>, keep: Row -> bool)
    requires multiset(a) == multiset(b)
    ensures multiset(Where(a, keep)) == multiset(Where(b, keep))
  {
    forall x
      ensures multiset(Where(a, keep))[x] == multiset(Where(b, keep))[x]
    {
      WhereCount(a, keep, x);
      WhereCount(b, keep, x);
    }
  }

  /** Every row the test accepts is kept. */
  lemma {:induction false} WhereKeeps(rows: seq<Row>, keep: Row -> bool)
    ensures forall r | r in rows && keep(r) :: r in Where(rows, keep)
  {
    if rows != [] {
      WhereKeeps(rows[1..], keep);
      assert rows == [rows[0]] + rows[1..];
    }
  }

  /**
   * Filtering rows that were rewritten one for one, then rewriting the kept
   * rows again, equals filtering the original rows by a test and applying
   * one rewrite, when the two agree position by position.
   */
  lemma {:induction false} WhereAligned<T>(rows: seq<Row>, mapped: seq<Row>, keep: Row -> bool, g: Row -> T,
                                           test: Row -> bool, h: Row -> T)
    requires |mapped| == |rows|
    requires forall i | 0 <= i < |rows| :: keep(mapped[i]) == test(rows[i])
    requires forall i | 0 <= i < |rows| && test(rows[i]) :: g(mapped[i]) == h(rows[i])
    ensures MapRows(Where(mapped, keep), g) == MapRows(Where(rows, test), h)
  {
    if rows != [] {
      WhereAligned(rows[1..], mapped[1..], keep, g, test, h);
      var m, r := Where(mapped, keep), Where(rows, test);
      assert m == (if keep(mapped[0]) then [mapped[0]] else []) + Where(mapped[1..], keep);
      assert r == (if test(rows[0]) then [rows[0]] else []) + Where(rows[1..], test);
      MapRowsConcat(if keep(mapped[0]) then [mapped[0]] else [], Where(mapped[1..], keep), g);
      MapRowsConcat(if test(rows[0]) then [rows[0]] else [], Where(rows[1..], test), h);
    }
  }

  lemma MultisetSplice<T>(u: seq<T>, x: T, v: seq<T>)
    ensures multiset(u + [x] + v) == multiset(u + v) + multiset{x}
  {
  }

  lemma HeadTail<T>(s: seq<T>)
    requires s != []
    ensures s == [s[0]] + s[1..]
    ensures multiset(s) == multiset{s[0]} + multiset(s[1..])
  {
    assert s == [s[0]] + s[1..];
  }

  lemma MapRowsHead<T>(rows: seq<Row>, f: Row -> T)
    requires rows != []
    ensures multiset(MapRows(rows, f)) == multiset{f(rows[0])} + multiset(MapRows(rows[1..], f))
  {
    HeadTail(MapRows(rows, f));
  }

  lemma SpliceAt<T>(s: seq<T>, k: nat)
    requires k < |s|
    ensures s == s[..k] + [s[k]] + s[k + 1..]
  {
  }

  /** Taking one element out of a sequence takes one occurrence out of its multiset. */
  lemma RemoveAt<T>(s: seq<T>, k: nat)
    requires k < |s|
    ensures multiset(s[..k] + s[k + 1..]) == multiset(s) - multiset{s[k]}
  {
    SpliceAt(s, k);
    MultisetSplice(s[..k], s[k], s[k + 1..]);
  }

  /** Taking one row out takes its image out of the mapped multiset. */
  lemma MapRowsRemove<T>(rows: seq<Row>, k: nat, f: Row -> T)
    requires k < |rows|
    ensures multiset(MapRows(rows, f)) == multiset(MapRows(rows[..k] + rows[k + 1..], f)) + multiset{f(rows[k])}
  {
    var u, x, v := rows[..k], rows[k], rows[k + 1..];
    SpliceAt(rows, k);
    MapRowsSplice(u, x, v, f);
    MapRowsConcat(u, v, f);
    MultisetSplice(MapRows(u, f), f(x), MapRows(v, f));
  }

  lemma {:induction false} MapRowsPermutation<T>(a: seq<Row>, b: seq<Row>, f: Row -> T)
    requires multiset(a) == multiset(b)
    ensures multiset(MapRows(a, f)) == multiset(MapRows(b, f))
    decreases |a|
  {
    if a != [] {
      assert a[0] in multiset(b);
      var k :| 0 <= k < |b| && b[k] == a[0];
      RemoveAt(b, k);
      HeadTail(a);
      MapRowsPermutation(a[1..], b[..k] + b[k + 1..], f);
      MapRowsRemove(b, k, f);
      MapRowsHead(a, f);
    }
  }

  lemma MapRowsConcat<T>(u: seq<Row>, v: seq<Row>, f: Row -> T)
    ensures MapRows(u + v, f) == MapRows(u, f) + MapRows(v, f)
  {
  }

  lemma MapRowsSplice<T>(u: seq<Row>, x: Row, v: seq<Row>, f: Row -> T)
    ensures MapRows(u + [x] + v, f) == MapRows(u, f) + [f(x)] + MapRows(v, f)
  {
  }

  // ---------------------------------------------------------------------------
  // Table operations

  /**
   * `t.mutate(name=f)`: a column of that name is replaced where it stands,
   * otherwise the new column is appended.
   */
  function Mutate(t: Table, name: Name, f: Row -> Value): (u: Table)
    requires WellFormed(t)
    ensures WellFormed(u) && |u.rows| == |t.rows|
    ensures u.columns == if name in t.columns then t.columns else t.columns + [name]
    ensures forall i | 0 <= i < |t.rows| :: u.rows[i] == t.rows[i][name := f(t.rows[i])]
  {
    var columns := if name in t.columns then t.columns else t.columns + [name];
    assert ColumnSet(columns) == ColumnSet(t.columns) + {name};
    Table(columns, MapRows(t.rows, r => r[name := f(r)]))
  }

  /** The test a boolean column expression makes of a row: true, not false and not null. */
  function Holds(p: Row -> Value): Row -> bool
  {
    r => p(r) == Bool(true)
  }

  /** `t[p]`: the rows where `p` is true; a null counts as not true. */
  function Filter(t: Table, p: Row -> Value): (u: Table)
    requires WellFormed(t)
    ensures WellFormed(u) && u.columns == t.columns
    ensures u.rows == Where(t.rows, Holds(p))
  {
    Table(t.columns, Where(t.rows, Holds(p)))
  }

  /** The names of `columns` outside `names`, in order. */
  function Without(columns: seq<Name>, names: set<Name>): (kept: seq<Name>)
    ensures forall c :: c in kept <==> c in columns && c !in names
    ensures Distinct(columns) ==> Distinct(kept)
  {
    if columns == [] then []
    else (if columns[0] in names then [] else [columns[0]]) + Without(columns[1..], names)
  }

  lemma {:induction false} WithoutConcat(a: seq<Name>, b: seq<Name>, names: set<Name>)
    ensures Without(a + b, names) == Without(a, names) + Without(b, names)
  {
    if a == [] {
      assert a + b == b;
    } else {
      assert (a + b)[1..] == a[1..] + b;
      WithoutConcat(a[1..], b, names);
    }
  }

  /** Dropping names in two steps drops them all at once. */
  lemma {:induction false} WithoutTwice(columns: seq<Name>, first: set<Name>, second: set<Name>)
    ensures Without(Without(columns, first), second) == Without(columns, first + second)
  {
    if columns != [] {
      WithoutTwice(columns[1..], first, second);
      var head := if columns[0] in first then [] else [columns[0]];
      WithoutConcat(head, Without(columns[1..], first), second);
    }
  }

  /** A name appended and then dropped leaves no trace. */
  lemma WithoutAppended(columns: seq<Name>, c: Name, names: set<Name>)
    requires c in names
    ensures Without(columns + [c], names) == Without(columns, names)
  {
    WithoutConcat(columns, [c], names);
    assert Without([c], names) == [] + Without([], names);
    assert Without(columns, names) + [] == Without(columns, names);
  }

  /** Removing two sets of names from a row one after the other removes both at once. */
  lemma RemoveTwice(r: Row, first: set<Name>, second: set<Name>)
    ensures (r - first) - second == r - (first + second)
  {
    assert ((r - first) - second).Keys == (r - (first + second)).Keys;
  }

  /** `t.drop(*names)`. */
  function Drop(t: Table, names: set<Name>): (u: Table)
    requires WellFormed(t)
    ensures WellFormed(u) && |u.rows| == |t.rows|
    ensures u.columns == Without(t.columns, names)
    ensures forall i | 0 <= i < |t.rows| :: u.rows[i] == t.rows[i] - names
  {
    var columns := Without(t.columns, names);
    assert ColumnSet(columns) == ColumnSet(t.columns) - names;
    Table(columns, MapRows(t.rows, (r: Row) => r - names))
  }

  /** `t.c`: the values of one column, row by row. */
  function Column(t: Table, c: Name): (vs: seq<Value>)
    ensures |vs| == |t.rows|
    ensures forall i | 0 <= i < |t.rows| :: vs[i] == Get(t.rows[i], c)
  {
    seq(|t.rows|, i requires 0 <= i < |t.rows| => Get(t.rows[i], c))
  }

  function Restrict(r: Row, names: seq<Name>): (p: Row)
    ensures p.Keys == r.Keys * ColumnSet(names)
    ensures forall c | c in p :: p[c] == r[c]
  {
    map c | c in names && c in r :: r[c]
  }

  /** Overwriting a kept column before restricting is overwriting it after. */
  lemma RestrictUpdate(r: Row, names: seq<Name>, c: Name, v: Value)
    requires c in names
    ensures Restrict(r[c := v], names) == Restrict(r, names)[c := v]
  {
    assert Restrict(r[c := v], names).Keys == Restrict(r, names)[c := v].Keys;
  }

  /** `t.select(*names)`: exactly these columns, in this order. */
  function Select(t: Table, names: seq<Name>): (u: Table)
    requires WellFormed(t) && Distinct(names)
    requires forall c | c in names :: c in t.columns
    ensures WellFormed(u) && u.columns == names && |u.rows| == |t.rows|
    ensures forall i | 0 <= i < |t.rows| :: u.rows[i] == Restrict(t.rows[i], names)
  {
    Table(names, MapRows(t.rows, r => Restrict(r, names)))
  }

  predicate NoNulls(r: Row)
  {
    forall c | c in r :: r[c] != Null
  }

  lemma NoNullsUpdate(r: Row, c: Name, v: Value)
    requires NoNulls(r) && v != Null
    ensures NoNulls(r[c := v])
  {
  }

  /** `t.dropna()`: the rows with no null in any column. */
  function DropNa(t: Table): (u: Table)
    requires WellFormed(t)
    ensures WellFormed(u) && u.columns == t.columns
    ensures forall r | r in u.rows :: r in t.rows && NoNulls(r)
    ensures forall r | r in t.rows && NoNulls(r) :: r in u.rows
    ensures forall r :: multiset(u.rows)[r] == if NoNulls(r) then multiset(t.rows)[r] else 0
    ensures u.rows == Where(t.rows, NoNulls)
  {
    WhereKeeps(t.rows, NoNulls);
    WhereCounts(t.rows, NoNulls);
    Table(t.columns, Where(t.rows, NoNulls))
  }

  // ---------------------------------------------------------------------------
  // Inner join on equally named key columns

  /** ibis renames a right-hand column that collides with a left-hand one by appending "_right". */
  function RightName(c: Name, left: seq<Name>): Name
  {
    if c in left then c + "_right" else c
  }

  function RightNames(src: seq<Name>, left: seq<Name>): (dst: seq<Name>)
    ensures |dst| == |src|
    ensures forall k | 0 <= k < |src| :: dst[k] == RightName(src[k], left)
  {
    seq(|src|, k requires 0 <= k < |src| => RightName(src[k], left))
  }

  /** Both rows carry every key and agree on it; SQL equality never holds for null. */
  predicate Matches(l: Row, r: Row, keys: seq<Name>)
  {
    forall k | k in keys :: k in l && k in r && l[k] != Null && l[k] == r[k]
  }

  /** The left row extended with the right row's non-key columns under their output names. */
  function Merge(l: Row, r: Row, src: seq<Name>, dst: seq<Name>): (m: Row)
    requires |src| == |dst|
    ensures m.Keys == l.Keys + ColumnSet(dst)
    ensures forall c | c in l && c !in dst :: m[c] == l[c]
    decreases |src|
  {
    if src == [] then l else Merge(l[dst[0] := Get(r, src[0])], r, src[1..], dst[1..])
  }

  /** Changing a left-hand column the merge does not write commutes with the merge. */
  lemma {:induction false} MergeUpdate(l: Row, r: Row, src: seq<Name>, dst: seq<Name>, c: Name, v: Value)
    requires |src| == |dst| && c !in dst
    ensures Merge(l[c := v], r, src, dst) == Merge(l, r, src, dst)[c := v]
    decreases |src|
  {
    if src != [] {
      assert l[c := v][dst[0] := Get(r, src[0])] == l[dst[0] := Get(r, src[0])][c := v];
      MergeUpdate(l[dst[0] := Get(r, src[0])], r, src[1..], dst[1..], c, v);
    }
  }

  function MatchesOf(l: Row, rs: seq<Row>, keys: seq<Name>, src: seq<Name>, dst: seq<Name>): seq<Row>
    requires |src| == |dst|
  {
    if rs == [] then []
    else (if Matches(l, rs[0], keys) then [Merge(l, rs[0], src, dst)] else [])
         + MatchesOf(l, rs[1..], keys, src, dst)
  }

  /** Every pair of a left row and a right row that match, left row by left row. */
  function JoinRows(ls: seq<Row>, rs: seq<Row>, keys: seq<Name>, src: seq<Name>, dst: seq<Name>): seq<Row>
    requires |src| == |dst|
  {
    if ls == [] then [] else MatchesOf(ls[0], rs, keys, src, dst) + JoinRows(ls[1..], rs, keys, src, dst)
  }

  lemma {:induction false} MatchesOfProvenance(l: Row, rs: seq<Row>, keys: seq<Name>, src: seq<Name>, dst: seq<Name>, o: Row)
    returns (j: nat)
    requires |src| == |dst|
    requires o in MatchesOf(l, rs, keys, src, dst)
    ensures j < |rs| && Matches(l, rs[j], keys) && o == Merge(l, rs[j], src, dst)
  {
    if Matches(l, rs[0], keys) && o == Merge(l, rs[0], src, dst) {
      j := 0;
    } else {
      var j' := MatchesOfProvenance(l, rs[1..], keys, src, dst, o);
      j := j' + 1;
    }
  }

  /** Every joined row is the merge of a matching pair. */
  lemma {:induction false} JoinRowsProvenance(ls: seq<Row>, rs: seq<Row>, keys: seq<Name>, src: seq<Name>, dst: seq<Name>, o: Row)
    returns (i: nat, j: nat)
    requires |src| == |dst|
    requires o in JoinRows(ls, rs, keys, src, dst)
    ensures i < |ls| && j < |rs| && Matches(ls[i], rs[j], keys) && o == Merge(ls[i], rs[j], src, dst)
  {
    if o in MatchesOf(ls[0], rs, keys, src, dst) {
      i := 0;
      j := MatchesOfProvenance(ls[0], rs, keys, src, dst, o);
    } else {
      var i', j' := JoinRowsProvenance(ls[1..], rs, keys, src, dst, o);
      i, j := i' + 1, j';
    }
  }

  /** Every matching pair contributes its merge to the join. */
  lemma {:induction false} JoinRowsComplete(ls: seq<Row>, rs: seq<Row>, keys: seq<Name>, src: seq<Name>, dst: seq<Name>, i: nat, j: nat)
    requires |src| == |dst|
    requires i < |ls| && j < |rs| && Matches(ls[i], rs[j], keys)
    ensures Merge(ls[i], rs[j], src, dst) in JoinRows(ls, rs, keys, src, dst)
  {
    if i == 0 {
      MatchesOfComplete(ls[0], rs, keys, src, dst, j);
    } else {
      JoinRowsComplete(ls[1..], rs, keys, src, dst, i - 1, j);
    }
  }

  lemma {:induction false} MatchesOfComplete(l: Row, rs: seq<Row>, keys: seq<Name>, src: seq<Name>, dst: seq<Name>, j: nat)
    requires |src| == |dst|
    requires j < |rs| && Matches(l, rs[j], keys)
    ensures Merge(l, rs[j], src, dst) in MatchesOf(l, rs, keys, src, dst)
  {
    if j > 0 {
      MatchesOfComplete(l, rs[1..], keys, src, dst, j - 1);
    }
  }

  /** The right-hand columns the join keeps: all but the keys. */
  function RightColumns(right: seq<Name>, keys: seq<Name>): seq<Name>
  {
    Without(right, ColumnSet(keys))
  }

  /** The output columns of a join of tables with columns `left` and `right`. */
  function JoinColumns(left: seq<Name>, right: seq<Name>, keys: seq<Name>): seq<Name>
  {
    left + RightNames(RightColumns(right, keys), left)
  }

  /** What the join needs of the two schemas: the keys on both sides and no clash of output names. */
  predicate JoinSchemaOk(left: seq<Name>, right: seq<Name>, keys: seq<Name>)
  {
    && (forall k | k in keys :: k in left && k in right)
    && Distinct(JoinColumns(left, right, keys))
  }

  /**
   * `l.inner_join(r, keys)`: the left columns, then the right non-key columns
   * (renamed on a clash); one row per matching pair.
   */
  function InnerJoin(l: Table, r: Table, keys: seq<Name>): (j: Result<Table, TableError>)
    requires WellFormed(l) && WellFormed(r)
    ensures j.Ok? <==> JoinSchemaOk(l.columns, r.columns, keys)
    ensures j.Ok? ==> WellFormed(j.value) && j.value.columns == JoinColumns(l.columns, r.columns, keys)
    ensures j.Ok? ==> j.value.rows == JoinRows(l.rows, r.rows, keys, RightColumns(r.columns, keys),
                                               RightNames(RightColumns(r.columns, keys), l.columns))
  {
    var src := RightColumns(r.columns, keys);
    var dst := RightNames(src, l.columns);
    match FirstMissing(keys, l.columns)
    case Some(k) => Err(MissingColumn(k))
    case None =>
      match FirstMissing(keys, r.columns)
      case Some(k) => Err(MissingColumn(k))
      case None =>
        match FirstDuplicate(l.columns + dst)
        case Some(c) => Err(DuplicateColumn(c))
        case None =>
          JoinRowsShape(l, r, keys, src, dst);
          Ok(Table(l.columns + dst, JoinRows(l.rows, r.rows, keys, src, dst)))
  }

  lemma JoinRowsShape(l: Table, r: Table, keys: seq<Name>, src: seq<Name>, dst: seq<Name>)
    requires WellFormed(l) && |src| == |dst|
    ensures forall o | o in JoinRows(l.rows, r.rows, keys, src, dst) :: o.Keys == ColumnSet(l.columns + dst)
  {
    forall o | o in JoinRows(l.rows, r.rows, keys, src, dst)
      ensures o.Keys == ColumnSet(l.columns + dst)
    {
      var i, j := JoinRowsProvenance(l.rows, r.rows, keys, src, dst, o);
      assert l.rows[i] in l.rows;
    }
  }
}

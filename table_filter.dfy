/**
 * The filter bar that every table page of the dashboard puts above its
 * table (season stats, trends, career stats, player info, injuries and
 * fantasy predictions all repeat the same code):
 *
 *  - the filter columns are the columns whose upper-cased name contains
 *    "PLAYER" or "TEAM", in column order;
 *  - each gets a select box whose choices are "All" followed by the
 *    sorted distinct non-missing values of that column;
 *  - the table shown keeps the rows equal to every chosen value that is
 *    truthy and not "All".
 */
module TableFilter {
  import opened Wrappers
  import opened Sequences

  /** A table cell: pandas' missing value (None/NaN), a string or an integer. */
  datatype Value = Null | Str(s: string) | Int(i: int)

  /** A row maps column names to cells; a name it lacks reads as missing. */
  type Row = map<string, Value>

  datatype Table = Table(columns: seq<string>, rows: seq<Row>)

  /** The sentinel first choice of every select box. */
  const All := Str("All")

  function Cell(row: Row, col: string): Value {
    if col in row then row[col] else Null
  }

  /** `v` is the cell of some row in column `col`. */
  ghost predicate InColumn(rows: seq<Row>, col: string, v: Value) {
    exists i :: 0 <= i < |rows| && Cell(rows[i], col) == v
  }

  // ---------------------------------------------------------------------
  // Filter columns
  // ---------------------------------------------------------------------

  function UpperChar(c: char): char {
    if 'a' <= c <= 'z' then (c as int - 32) as char else c
  }

  /** Upper-casing of the ASCII letters; every other character is kept. */
  function Upper(s: string): (u: string)
    ensures |u| == |s|
    ensures forall i :: 0 <= i < |s| ==> u[i] == UpperChar(s[i])
    ensures forall i :: 0 <= i < |u| ==> !('a' <= u[i] <= 'z')
  {
    seq(|s|, i requires 0 <= i < |s| => UpperChar(s[i]))
  }

  /** Upper-casing twice is upper-casing once. */
  lemma UpperIdempotent(s: string)
    ensures Upper(Upper(s)) == Upper(s)
  {
  }

  /** `w` stands in `s` starting at index `k`. */
  ghost predicate OccursAt(w: string, s: string, k: int) {
    0 <= k && k + |w| <= |s| && s[k..k + |w|] == w
  }

  /** Python's `w in s` on strings, as a left-to-right search. */
  function Contains(s: string, w: string): bool
    decreases |s|
  {
    if |w| > |s| then false
    else if s[..|w|] == w then true
    else Contains(s[1..], w)
  }

  lemma {:induction false} ContainsIffOccurs(s: string, w: string)
    ensures Contains(s, w) <==> exists k :: OccursAt(w, s, k)
    decreases |s|
  {
    if |w| > |s| {
    } else if s[..|w|] == w {
      assert OccursAt(w, s, 0);
    } else {
      ContainsIffOccurs(s[1..], w);
      if Contains(s[1..], w) {
        var k :| OccursAt(w, s[1..], k);
        assert s[1..][k..k + |w|] == s[k + 1..k + 1 + |w|];
        assert OccursAt(w, s, k + 1);
      }
      if k :| OccursAt(w, s, k) {
        assert k != 0;
        assert s[1..][k - 1..k - 1 + |w|] == s[k..k + |w|];
        assert OccursAt(w, s[1..], k - 1);
      }
    }
  }

  predicate IsFilterColumn(col: string) {
    Contains(Upper(col), "PLAYER") || Contains(Upper(col), "TEAM")
  }

  /** The list comprehension that picks the columns a page can filter on. */
  function FilterColumns(columns: seq<string>): seq<string> {
    Filter(columns, IsFilterColumn)
  }

  /**
   * The filter columns are the columns, in column order, whose upper-cased
   * name has "PLAYER" or "TEAM" somewhere in it.
   */
  lemma FilterColumnsSpec(columns: seq<string>)
    ensures IsSubsequence(FilterColumns(columns), columns)
    ensures forall c :: c in FilterColumns(columns) <==>
      c in columns && ((exists k :: OccursAt("PLAYER", Upper(c), k)) || (exists k :: OccursAt("TEAM", Upper(c), k)))
  {
    FilterIsSubsequence(columns, IsFilterColumn);
    forall c
      ensures IsFilterColumn(c) <==>
        (exists k :: OccursAt("PLAYER", Upper(c), k)) || (exists k :: OccursAt("TEAM", Upper(c), k))
    {
      ContainsIffOccurs(Upper(c), "PLAYER");
      ContainsIffOccurs(Upper(c), "TEAM");
    }
    var r := FilterColumns(columns);
    forall c | c in columns && IsFilterColumn(c) ensures c in r {
      var i :| 0 <= i < |columns| && columns[i] == c;
    }
  }

  // ---------------------------------------------------------------------
  // Choice lists: 'All' + sorted distinct non-missing values
  // ---------------------------------------------------------------------

  /** Python's `<` on strings: lexicographic by code point. */
  predicate StrBelow(x: string, y: string) {
    if x == [] then y != []
    else if y == [] then false
    else if x[0] != y[0] then x[0] < y[0]
    else StrBelow(x[1..], y[1..])
  }

  lemma {:induction false} StrBelowIrreflexive(x: string)
    ensures !StrBelow(x, x)
  {
    if x != [] {
      StrBelowIrreflexive(x[1..]);
    }
  }

  lemma {:induction false} StrBelowTransitive(x: string, y: string, z: string)
    requires StrBelow(x, y) && StrBelow(y, z)
    ensures StrBelow(x, z)
  {
    if x != [] && x[0] == y[0] && y[0] == z[0] {
      StrBelowTransitive(x[1..], y[1..], z[1..]);
    }
  }

  lemma {:induction false} StrBelowTotal(x: string, y: string)
    ensures x == y || StrBelow(x, y) || StrBelow(y, x)
  {
    if x != [] && y != [] && x[0] == y[0] {
      StrBelowTotal(x[1..], y[1..]);
      if x[1..] == y[1..] {
        assert x == [x[0]] + x[1..] && y == [y[0]] + y[1..];
      }
    }
  }

  function Kind(v: Value): int {
    match v
    case Null => 0
    case Int(_) => 1
    case Str(_) => 2
  }

  /**
   * The order `sorted` uses: numbers by value, strings lexicographically.
   * Python cannot compare a number with a string; the choice list of a
   * column holding both is refused before this order is used, so how the
   * kinds are ranked against each other is never observable.
   */
  predicate Below(a: Value, b: Value) {
    match (a, b)
    case (Int(x), Int(y)) => x < y
    case (Str(x), Str(y)) => StrBelow(x, y)
    case _ => Kind(a) < Kind(b)
  }

  lemma BelowIrreflexive(a: Value)
    ensures !Below(a, a)
  {
    if a.Str? {
      StrBelowIrreflexive(a.s);
    }
  }

  lemma BelowTransitive(a: Value, b: Value, c: Value)
    requires Below(a, b) && Below(b, c)
    ensures Below(a, c)
  {
    if a.Str? && b.Str? && c.Str? {
      StrBelowTransitive(a.s, b.s, c.s);
    }
  }

  lemma BelowTotal(a: Value, b: Value)
    ensures a == b || Below(a, b) || Below(b, a)
  {
    if a.Str? && b.Str? {
      StrBelowTotal(a.s, b.s);
    }
  }

  ghost predicate StrictlySorted(s: seq<Value>) {
    forall i, j :: 0 <= i < j < |s| ==> Below(s[i], s[j])
  }

  /** Adds `x` to a strictly increasing list unless it is already there. */
  function Insert(x: Value, s: seq<Value>): seq<Value> {
    if s == [] then [x]
    else if x == s[0] then s
    else if Below(x, s[0]) then [x] + s
    else [s[0]] + Insert(x, s[1..])
  }

  lemma {:induction false} InsertSpec(x: Value, s: seq<Value>)
    requires StrictlySorted(s)
    ensures StrictlySorted(Insert(x, s))
    ensures forall v :: v in Insert(x, s) <==> v == x || v in s
  {
    if s == [] || x == s[0] {
    } else if Below(x, s[0]) {
      var r := [x] + s;
      forall i, j | 0 <= i < j < |r| ensures Below(r[i], r[j]) {
        if i == 0 && j > 1 {
          BelowTransitive(x, s[0], s[j - 1]);
        }
      }
    } else {
      BelowTotal(x, s[0]);
      InsertSpec(x, s[1..]);
      var rest := Insert(x, s[1..]);
      var r := [s[0]] + rest;
      forall k | 0 <= k < |rest| ensures Below(s[0], rest[k]) {
        assert rest[k] in rest;
        if rest[k] != x {
          var m :| 0 <= m < |s[1..]| && s[1..][m] == rest[k];
          assert s[m + 1] == rest[k];
        }
      }
      forall i, j | 0 <= i < j < |r| ensures Below(r[i], r[j]) {
        if i == 0 {
          assert r[j] == rest[j - 1];
        } else {
          assert r[i] == rest[i - 1] && r[j] == rest[j - 1];
        }
      }
      assert s == [s[0]] + s[1..];
    }
  }

  /** The distinct values of `vals`, each once, in increasing order. */
  function SortedDistinct(vals: seq<Value>): seq<Value> {
    if vals == [] then [] else Insert(vals[0], SortedDistinct(vals[1..]))
  }

  lemma {:induction false} SortedDistinctSpec(vals: seq<Value>)
    ensures StrictlySorted(SortedDistinct(vals))
    ensures forall v :: v in SortedDistinct(vals) <==> v in vals
  {
    if vals != [] {
      SortedDistinctSpec(vals[1..]);
      InsertSpec(vals[0], SortedDistinct(vals[1..]));
      assert vals == [vals[0]] + vals[1..];
    }
  }

  lemma SameElementsBothEmpty(a: seq<Value>, b: seq<Value>)
    requires forall v :: v in a <==> v in b
    ensures a == [] <==> b == []
  {
    if a != [] {
      assert a[0] in b;
    }
    if b != [] {
      assert b[0] in a;
    }
  }

  /** A strictly increasing list is determined by its elements, so `sorted` has one answer. */
  lemma {:induction false} SortedUnique(a: seq<Value>, b: seq<Value>)
    requires StrictlySorted(a) && StrictlySorted(b)
    requires forall v :: v in a <==> v in b
    ensures a == b
  {
    SameElementsBothEmpty(a, b);
    if a != [] {
      assert a[0] in b;
      if a[0] != b[0] {
        var k :| 0 <= k < |b| && b[k] == a[0];
        assert b[0] in b;
        var m :| 0 <= m < |a| && a[m] == b[0];
        assert Below(b[0], a[0]) && Below(a[0], b[0]);
        BelowTransitive(a[0], b[0], a[0]);
        BelowIrreflexive(a[0]);
      }
      forall v ensures v in a[1..] <==> v in b[1..] {
        if v in a[1..] {
          var i :| 0 <= i < |a[1..]| && a[1..][i] == v;
          assert Below(a[0], a[i + 1]);
          BelowIrreflexive(v);
          assert v in b && v != b[0];
        }
        if v in b[1..] {
          var i :| 0 <= i < |b[1..]| && b[1..][i] == v;
          assert Below(b[0], b[i + 1]);
          BelowIrreflexive(v);
          assert v in a && v != a[0];
        }
      }
      SortedUnique(a[1..], b[1..]);
      assert a == [a[0]] + a[1..] && b == [b[0]] + b[1..];
    }
  }

  /** The cells of column `col`, one per row, in row order. */
  function Column(rows: seq<Row>, col: string): (vals: seq<Value>)
    ensures |vals| == |rows|
  {
    seq(|rows|, i requires 0 <= i < |rows| => Cell(rows[i], col))
  }

  predicate NonNull(v: Value) {
    !v.Null?
  }

  /** The non-missing cells of column `col`, in row order. */
  function ColumnValues(rows: seq<Row>, col: string): seq<Value> {
    Filter(Column(rows, col), NonNull)
  }

  lemma ColumnValuesSpec(rows: seq<Row>, col: string)
    ensures forall v :: v in ColumnValues(rows, col) <==> v != Null && InColumn(rows, col, v)
  {
    var c := Column(rows, col);
    forall v | v != Null && InColumn(rows, col, v) ensures v in ColumnValues(rows, col) {
      var i :| 0 <= i < |rows| && Cell(rows[i], col) == v;
      assert c[i] == v;
    }
    forall v | v in ColumnValues(rows, col) ensures InColumn(rows, col, v) {
      var i :| 0 <= i < |c| && c[i] == v;
    }
  }

  /** The values hold both a number and a string, which `sorted` cannot order. */
  predicate MixedKinds(vals: seq<Value>) {
    (exists i :: 0 <= i < |vals| && vals[i].Int?) && (exists i :: 0 <= i < |vals| && vals[i].Str?)
  }

  /**
   * The select box choices: "All", then the column's distinct non-missing
   * values in increasing order. None when sorting raises a type error,
   * which the page's exception handler turns into an error
   * message instead of the table.
   */
  function Options(t: Table, col: string): Option<seq<Value>> {
    var vals := ColumnValues(t.rows, col);
    if MixedKinds(vals) then None else Some([All] + SortedDistinct(vals))
  }

  /** The choice list fails exactly on a column holding both a number and a string. */
  lemma OptionsFailure(t: Table, col: string)
    ensures Options(t, col).None? <==>
      (exists i :: 0 <= i < |t.rows| && Cell(t.rows[i], col).Int?) &&
      (exists i :: 0 <= i < |t.rows| && Cell(t.rows[i], col).Str?)
  {
    var vals := ColumnValues(t.rows, col);
    ColumnValuesSpec(t.rows, col);
    if (exists i :: 0 <= i < |t.rows| && Cell(t.rows[i], col).Int?) &&
       (exists i :: 0 <= i < |t.rows| && Cell(t.rows[i], col).Str?) {
      var i :| 0 <= i < |t.rows| && Cell(t.rows[i], col).Int?;
      var j :| 0 <= j < |t.rows| && Cell(t.rows[j], col).Str?;
      assert InColumn(t.rows, col, Cell(t.rows[i], col));
      assert InColumn(t.rows, col, Cell(t.rows[j], col));
      var a :| 0 <= a < |vals| && vals[a] == Cell(t.rows[i], col);
      var b :| 0 <= b < |vals| && vals[b] == Cell(t.rows[j], col);
      assert MixedKinds(vals);
    }
    if MixedKinds(vals) {
      var a :| 0 <= a < |vals| && vals[a].Int?;
      var b :| 0 <= b < |vals| && vals[b].Str?;
      assert vals[a] in vals && vals[b] in vals;
    }
  }

  /**
   * A choice list is "All" followed by exactly the column's non-missing
   * values, strictly increasing.
   */
  lemma OptionsSpec(t: Table, col: string)
    requires Options(t, col).Some?
    ensures var o := Options(t, col).value;
      |o| >= 1 && o[0] == All && StrictlySorted(o[1..]) &&
      forall v :: v in o[1..] <==> v != Null && InColumn(t.rows, col, v)
  {
    var vals := ColumnValues(t.rows, col);
    ColumnValuesSpec(t.rows, col);
    SortedDistinctSpec(vals);
    var o := Options(t, col).value;
    assert o[1..] == SortedDistinct(vals);
  }

  /**
   * Any strictly increasing list of exactly the column's non-missing values
   * is the tail of the choice list: the choices do not depend on the order
   * of the rows.
   */
  lemma OptionsCanonical(t: Table, col: string, s: seq<Value>)
    requires Options(t, col).Some?
    requires StrictlySorted(s)
    requires forall v :: v in s <==> v != Null && InColumn(t.rows, col, v)
    ensures Options(t, col) == Some([All] + s)
  {
    OptionsSpec(t, col);
    SortedUnique(Options(t, col).value[1..], s);
    var o := Options(t, col).value;
    assert o == [o[0]] + o[1..];
  }

  /** The choice list repeats no entry unless the column itself holds the string "All". */
  lemma OptionsDistinct(t: Table, col: string)
    requires Options(t, col).Some?
    ensures var o := Options(t, col).value;
      (forall i, j :: 0 <= i < j < |o| ==> o[i] != o[j]) <==> !InColumn(t.rows, col, All)
  {
    OptionsSpec(t, col);
    var o := Options(t, col).value;
    var tail := o[1..];
    if InColumn(t.rows, col, All) {
      assert All in tail;
      var k :| 0 <= k < |tail| && tail[k] == All;
      assert o[0] == o[k + 1];
    } else {
      forall i, j | 0 <= i < j < |o| ensures o[i] != o[j] {
        if i == 0 {
          assert o[j] == tail[j - 1];
          assert o[j] in tail;
        } else {
          assert Below(tail[i - 1], tail[j - 1]);
          BelowIrreflexive(o[i]);
        }
      }
    }
  }

  // ---------------------------------------------------------------------
  // Building the filters (one select box per filter column)
  // ---------------------------------------------------------------------

  /**
   * The select box widget: the value the user picked for this column when it is
   * one of the choices, otherwise the first choice.
   */
  function Selectbox(options: seq<Value>, col: string, picks: map<string, Value>): (v: Value)
    requires options != []
    ensures v in options
    ensures col in picks && picks[col] in options ==> v == picks[col]
    ensures !(col in picks && picks[col] in options) ==> v == options[0]
  {
    if col in picks && picks[col] in options then picks[col] else options[0]
  }

  /** The `filters` dictionary once every select box is drawn. */
  function Selections(t: Table, cols: seq<string>, picks: map<string, Value>): map<string, Value> {
    map c | c in cols && Options(t, c).Some? :: Selectbox(Options(t, c).value, c, picks)
  }

  predicate AllOptionsDefined(t: Table, cols: seq<string>) {
    forall i :: 0 <= i < |cols| ==> Options(t, cols[i]).Some?
  }

  lemma SelectionsStep(t: Table, cols: seq<string>, i: int, picks: map<string, Value>)
    requires 0 <= i < |cols| && Options(t, cols[i]).Some?
    requires AllOptionsDefined(t, cols[..i])
    ensures AllOptionsDefined(t, cols[..i + 1])
    ensures Selections(t, cols[..i + 1], picks) ==
      Selections(t, cols[..i], picks)[cols[i] := Selectbox(Options(t, cols[i]).value, cols[i], picks)]
  {
    var prefix, longer := cols[..i], cols[..i + 1];
    assert longer == prefix + [cols[i]];
    var a := Selections(t, longer, picks);
    var b := Selections(t, prefix, picks)[cols[i] := Selectbox(Options(t, cols[i]).value, cols[i], picks)];
    assert a.Keys == b.Keys;
    forall c | c in a ensures a[c] == b[c] {
    }
  }

  /**
   * The loop that draws one select box per filter column and records the
   * picks; a column whose values cannot be sorted raises and ends the page
   * (None).
   */
  method CollectFilters(t: Table, cols: seq<string>, picks: map<string, Value>)
    returns (filters: Option<map<string, Value>>)
    ensures filters.None? <==> !AllOptionsDefined(t, cols)
    ensures filters.Some? ==> filters.value == Selections(t, cols, picks)
  {
    var m: map<string, Value> := map[];
    for i := 0 to |cols|
      invariant AllOptionsDefined(t, cols[..i])
      invariant m == Selections(t, cols[..i], picks)
    {
      var options := Options(t, cols[i]);
      if options.None? {
        return None;
      }
      m := m[cols[i] := Selectbox(options.value, cols[i], picks)];
      SelectionsStep(t, cols, i, picks);
    }
    assert cols[..|cols|] == cols;
    return Some(m);
  }

  /**
   * Every recorded pick is one of its column's choices, and a pick that
   * filters (truthy, not "All") is a value some row of the table holds.
   */
  lemma SelectionsSpec(t: Table, cols: seq<string>, picks: map<string, Value>)
    requires AllOptionsDefined(t, cols)
    ensures forall c :: c in Selections(t, cols, picks) <==> c in cols
    ensures forall c :: c in Selections(t, cols, picks) ==>
      Selections(t, cols, picks)[c] in Options(t, c).value &&
      (Active(Selections(t, cols, picks)[c]) ==> InColumn(t.rows, c, Selections(t, cols, picks)[c]))
  {
    var sel := Selections(t, cols, picks);
    forall c | c in cols ensures c in sel {
      var i :| 0 <= i < |cols| && cols[i] == c;
    }
    forall c | c in sel && Active(sel[c]) ensures InColumn(t.rows, c, sel[c]) {
      OptionsSpec(t, c);
      var o := Options(t, c).value;
      assert sel[c] in o;
      assert sel[c] != o[0];
      var k :| 0 <= k < |o| && o[k] == sel[c];
      assert o[1..][k - 1] == sel[c];
    }
  }

  // ---------------------------------------------------------------------
  // Applying the filters
  // ---------------------------------------------------------------------

  /** Python truthiness of a pick: None, "" and 0 are false. */
  predicate Truthy(v: Value) {
    match v
    case Null => false
    case Str(s) => s != ""
    case Int(i) => i != 0
  }

  /** A pick narrows the table when it is truthy and is not "All". */
  predicate Active(v: Value) {
    Truthy(v) && v != All
  }

  /** `row` equals every active pick among the columns `cols`. */
  predicate Satisfies(row: Row, cols: seq<string>, filters: map<string, Value>) {
    forall c :: c in cols && c in filters && Active(filters[c]) ==> Cell(row, c) == filters[c]
  }

  /** The rows that pass every active filter of `cols`, in table order. */
  function Keep(rows: seq<Row>, cols: seq<string>, filters: map<string, Value>): seq<Row> {
    Filter(rows, (r: Row) => Satisfies(r, cols, filters))
  }

  /** The rows whose cell in `col` equals `v`: one boolean-mask selection. */
  function SelectEqual(rows: seq<Row>, col: string, v: Value): seq<Row> {
    Filter(rows, (r: Row) => Cell(r, col) == v)
  }

  lemma KeepNothingFiltered(rows: seq<Row>, filters: map<string, Value>)
    ensures Keep(rows, [], filters) == rows
  {
    FilterKeepsAll(rows, (r: Row) => Satisfies(r, [], filters));
  }

  /** One more column of the loop: an active pick narrows by equality, any other leaves the rows. */
  lemma KeepStep(rows: seq<Row>, cols: seq<string>, i: int, filters: map<string, Value>)
    requires 0 <= i < |cols|
    ensures Keep(rows, cols[..i + 1], filters) ==
      if cols[i] in filters && Active(filters[cols[i]])
      then SelectEqual(Keep(rows, cols[..i], filters), cols[i], filters[cols[i]])
      else Keep(rows, cols[..i], filters)
  {
    var col := cols[i];
    assert cols[..i + 1] == cols[..i] + [col];
    var before := (r: Row) => Satisfies(r, cols[..i], filters);
    var after := (r: Row) => Satisfies(r, cols[..i + 1], filters);
    if col in filters && Active(filters[col]) {
      var eq := (r: Row) => Cell(r, col) == filters[col];
      FilterThenFilter(rows, before, eq, after);
    } else {
      FilterAgree(rows, after, before);
    }
  }

  /**
   * The loop over the recorded picks, in filter-column order, which
   * narrows the table one select box at a time.
   */
  method ApplyFilters(rows: seq<Row>, cols: seq<string>, filters: map<string, Value>)
    returns (shown: seq<Row>)
    ensures shown == Keep(rows, cols, filters)
  {
    shown := rows;
    KeepNothingFiltered(rows, filters);
    assert cols[..0] == [];
    for i := 0 to |cols|
      invariant shown == Keep(rows, cols[..i], filters)
    {
      var col := cols[i];
      if col in filters && Active(filters[col]) {
        shown := SelectEqual(shown, col, filters[col]);
      }
      KeepStep(rows, cols, i, filters);
    }
    assert cols[..|cols|] == cols;
  }

  /** What a table page shows for table `t` and the user's picks; None is the error message. */
  function PageView(t: Table, picks: map<string, Value>): Option<seq<Row>> {
    var cols := FilterColumns(t.columns);
    if !AllOptionsDefined(t, cols) then None
    else Some(Keep(t.rows, cols, Selections(t, cols, picks)))
  }

  /** A table page: filter columns, select boxes, then the narrowed table. */
  method FilterPage(t: Table, picks: map<string, Value>) returns (shown: Option<seq<Row>>)
    ensures shown == PageView(t, picks)
  {
    var cols := FilterColumns(t.columns);
    if cols == [] {
      KeepNothingFiltered(t.rows, Selections(t, cols, picks));
      return Some(t.rows);
    }
    var filters := CollectFilters(t, cols, picks);
    if filters.None? {
      return None;
    }
    var rows := ApplyFilters(t.rows, cols, filters.value);
    return Some(rows);
  }

  // ---------------------------------------------------------------------
  // Laws of the row filter
  // ---------------------------------------------------------------------

  /**
   * The kept rows are an order-preserving subsequence of the table; a row
   * of the table is kept exactly when it equals every active pick, and it
   * is kept as many times as it occurs in the table.
   */
  lemma KeepSpec(rows: seq<Row>, cols: seq<string>, filters: map<string, Value>)
    ensures IsSubsequence(Keep(rows, cols, filters), rows)
    ensures forall r :: r in Keep(rows, cols, filters) <==> r in rows && Satisfies(r, cols, filters)
    ensures forall r :: multiset(Keep(rows, cols, filters))[r] ==
                        if Satisfies(r, cols, filters) then multiset(rows)[r] else 0
  {
    var p := (r: Row) => Satisfies(r, cols, filters);
    FilterIsSubsequence(rows, p);
    forall r ensures multiset(Keep(rows, cols, filters))[r] == if p(r) then multiset(rows)[r] else 0 {
      FilterCount(rows, p, r);
    }
    var k := Keep(rows, cols, filters);
    forall r | r in rows && Satisfies(r, cols, filters) ensures r in k {
      var i :| 0 <= i < |rows| && rows[i] == r;
    }
    forall r | r in k ensures r in rows && Satisfies(r, cols, filters) {
      var i :| 0 <= i < |k| && k[i] == r;
    }
  }

  /** Filtering the filtered table again with the same picks changes nothing. */
  lemma KeepIdempotent(rows: seq<Row>, cols: seq<string>, filters: map<string, Value>)
    ensures Keep(Keep(rows, cols, filters), cols, filters) == Keep(rows, cols, filters)
  {
    FilterIdempotent(rows, (r: Row) => Satisfies(r, cols, filters));
  }

  /** Picks that are all "All", empty or otherwise falsy leave the table as it is. */
  lemma KeepNoActivePick(rows: seq<Row>, cols: seq<string>, filters: map<string, Value>)
    requires forall c :: c in cols && c in filters ==> !Active(filters[c])
    ensures Keep(rows, cols, filters) == rows
  {
    FilterKeepsAll(rows, (r: Row) => Satisfies(r, cols, filters));
  }

  /**
   * What a page shows: nothing but the error when some filter column mixes
   * numbers and strings; otherwise an order-preserving subsequence of the
   * table holding exactly the rows that equal every active pick, each as
   * many times as it occurs in the table.
   */
  lemma PageViewSpec(t: Table, picks: map<string, Value>)
    ensures var cols := FilterColumns(t.columns);
      PageView(t, picks).None? <==> exists i :: 0 <= i < |cols| && Options(t, cols[i]).None?
    ensures PageView(t, picks).Some? ==>
      var cols := FilterColumns(t.columns);
      var sel := Selections(t, cols, picks);
      var shown := PageView(t, picks).value;
      IsSubsequence(shown, t.rows) &&
      (forall r :: r in shown <==> r in t.rows && Satisfies(r, cols, sel)) &&
      (forall r :: multiset(shown)[r] == if Satisfies(r, cols, sel) then multiset(t.rows)[r] else 0) &&
      (forall c :: c in sel && Active(sel[c]) ==> IsFilterColumn(c) && InColumn(t.rows, c, sel[c]))
  {
    var cols := FilterColumns(t.columns);
    if AllOptionsDefined(t, cols) {
      var sel := Selections(t, cols, picks);
      KeepSpec(t.rows, cols, sel);
      SelectionsSpec(t, cols, picks);
      forall c | c in sel ensures IsFilterColumn(c) {
        var i :| 0 <= i < |cols| && cols[i] == c;
      }
    }
  }

  /** A table with no player or team column is shown unfiltered. */
  lemma PageViewWithoutFilterColumns(t: Table, picks: map<string, Value>)
    requires forall i :: 0 <= i < |t.columns| ==> !IsFilterColumn(t.columns[i])
    ensures PageView(t, picks) == Some(t.rows)
  {
    var cols := FilterColumns(t.columns);
    FilterKeepsNone(t.columns, IsFilterColumn);
    KeepNothingFiltered(t.rows, Selections(t, cols, picks));
  }

  /** With every select box left on "All" (or on a falsy value) the whole table is shown. */
  lemma PageViewNoActivePick(t: Table, picks: map<string, Value>)
    requires forall c :: c in picks ==> !Active(picks[c])
    requires PageView(t, picks).Some?
    ensures PageView(t, picks) == Some(t.rows)
  {
    var cols := FilterColumns(t.columns);
    var sel := Selections(t, cols, picks);
    forall c | c in cols && c in sel ensures !Active(sel[c]) {
      OptionsSpec(t, c);
    }
    KeepNoActivePick(t.rows, cols, sel);
  }
}

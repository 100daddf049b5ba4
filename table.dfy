/**
 * A table: a row index and a non-empty list of distinctly named columns, each showing the row
 * index's labels. Tables have no name of their own.
 */
module Tables {
  import opened Wrappers
  import opened LabelAlgebra
  import opened Names
  import Indices
  import Columns

  type Column<V> = Columns.Column<V>

  datatype Table<V> = Table(rowIndex: Indices.Index, columns: seq<Column<V>>)

  /** The names of the columns, in order. */
  function NamesOf<V>(cols: seq<Column<V>>): (r: seq<Option<string>>)
    ensures |r| == |cols| && forall j :: 0 <= j < |cols| ==> r[j] == cols[j].name
  {
    if cols == [] then [] else [cols[0].name] + NamesOf(cols[1..])
  }

  /** A column may sit in a table with this row index: valid, named, and showing the same labels. */
  ghost predicate Fits<V>(c: Column<V>, rowIndex: Indices.Index)
    requires Indices.Valid(rowIndex)
  {
    Columns.Valid(c) && c.name.Some? && Indices.Labels(c.index) == Indices.Labels(rowIndex)
  }

  /**
   * The representation invariant: a well-formed row index, at least one column, every column
   * fitting the row index, and no two columns with the same name.
   */
  ghost predicate Valid<V>(t: Table<V>) {
    Indices.Valid(t.rowIndex) && ValidName(t.rowIndex.name) && |t.columns| > 0 &&
    (forall j :: 0 <= j < |t.columns| ==> Fits(t.columns[j], t.rowIndex)) &&
    Distinct(NamesOf(t.columns))
  }

  // ---------------------------------------------------------------------------------------------
  // Naming the columns of a new table

  function UsedNames(s: seq<string>): set<string> {
    set x | x in s
  }

  /** The first suffix from `k` on whose automatic name is not in `used`. */
  function FirstFree(used: set<string>, k: nat): (r: nat)
    ensures k <= r && AutoName(r) !in used
    ensures forall m :: k <= m < r ==> AutoName(m) in used
    decreases |used|
  {
    if AutoName(k) !in used then k
    else
      var r := FirstFree(used - {AutoName(k)}, k + 1);
      AutoNameDistinct(r, k);
      r
  }

  /** The name the constructor gives the column at position `i`, as the names `used` so far stand. */
  function Choose(name: Option<string>, i: nat, used: set<string>): string {
    if name.Some? then name.value else AutoName(FirstFree(used, i))
  }

  /**
   * The names the constructor assigns to the first `i` columns, whose own names are `names`, or
   * the complaint that a name repeats one that an earlier column already took.
   */
  function Naming(names: seq<Option<string>>, i: nat): (r: Result<seq<string>>)
    requires i <= |names|
    ensures r.Success? ==> |r.value| == i
    ensures r.Failure? ==> r.error == DuplicateColumnName
  {
    if i == 0 then Success([])
    else
      var before := Naming(names, i - 1);
      if before.Failure? then before
      else
        var nm := Choose(names[i - 1], i - 1, UsedNames(before.value));
        if nm in before.value then Failure(DuplicateColumnName) else Success(before.value + [nm])
  }

  /**
   * `s` names the first `|s|` columns as the constructor would: without repeats, and each name
   * the one `Choose` gives at that position with the names before it taken.
   */
  ghost predicate WellNamed(names: seq<Option<string>>, s: seq<string>) {
    |s| <= |names| && Distinct(s) &&
    forall j :: 0 <= j < |s| ==> s[j] == Choose(names[j], j, UsedNames(s[..j]))
  }

  lemma WellNamedStep(names: seq<Option<string>>, prev: seq<string>, nm: string)
    requires WellNamed(names, prev) && |prev| < |names| && nm !in prev
    requires nm == Choose(names[|prev|], |prev|, UsedNames(prev))
    ensures WellNamed(names, prev + [nm])
  {
    var s := prev + [nm];
    assert s[..|prev|] == prev;
    forall j | 0 <= j < |prev| ensures s[..j] == prev[..j] {
    }
  }

  /**
   * What a successful naming gives: distinct names, each explicit name kept, and each unnamed
   * column at position `j` called `Column_k` for the first `k >= j` the earlier columns left free.
   */
  lemma {:induction false} NamingShape(names: seq<Option<string>>, i: nat)
    requires i <= |names| && Naming(names, i).Success?
    ensures WellNamed(names, Naming(names, i).value)
  {
    if i > 0 {
      NamingShape(names, i - 1);
      var prev := Naming(names, i - 1).value;
      var nm := Choose(names[i - 1], i - 1, UsedNames(prev));
      assert nm !in prev && Naming(names, i).value == prev + [nm];
      WellNamedStep(names, prev, nm);
    }
  }

  /** Once a prefix fails to be named, so does every longer one. */
  lemma {:induction false} NamingFails(names: seq<Option<string>>, i: nat, n: nat)
    requires i <= n <= |names| && Naming(names, i).Failure?
    ensures Naming(names, n).Failure?
    decreases n
  {
    if i < n {
      NamingFails(names, i, n - 1);
    }
  }

  /** Columns that all carry distinct names keep them. */
  lemma {:induction false} NamingExplicit(names: seq<Option<string>>, i: nat)
    requires i <= |names| && forall j :: 0 <= j < i ==> names[j].Some?
    requires forall a, b :: 0 <= a < b < i ==> names[a] != names[b]
    ensures Naming(names, i).Success?
    ensures forall j :: 0 <= j < i ==> Some(Naming(names, i).value[j]) == names[j]
  {
    if i > 0 {
      NamingExplicit(names, i - 1);
      var prev := Naming(names, i - 1).value;
      var nm := names[i - 1].value;
      forall j | 0 <= j < i - 1 ensures prev[j] != nm {
        assert names[j] != names[i - 1];
      }
      NamingStep(names, i - 1, prev, nm);
    }
  }

  /** Two columns with the same explicit name can never be named. */
  lemma NamingDuplicate(names: seq<Option<string>>, a: int, b: int)
    requires 0 <= a < b < |names| && names[a].Some? && names[a] == names[b]
    ensures Naming(names, |names|).Failure?
  {
    if Naming(names, |names|).Success? {
      NamingShape(names, |names|);
      assert false;
    }
  }

  /** One step of the naming, unfolded: the next name is chosen and found free. */
  lemma NamingNext(names: seq<Option<string>>, i: nat, nm: string)
    requires 0 < i <= |names| && Naming(names, i - 1).Success?
    requires nm == Choose(names[i - 1], i - 1, UsedNames(Naming(names, i - 1).value))
    requires nm !in Naming(names, i - 1).value
    ensures Naming(names, i) == Success(Naming(names, i - 1).value + [nm])
  {
  }

  /** One step of the naming, both ways it can go. */
  lemma NamingStep(names: seq<Option<string>>, i: nat, prev: seq<string>, nm: string)
    requires i < |names| && Naming(names, i) == Success(prev)
    requires nm == Choose(names[i], i, UsedNames(prev))
    ensures nm in prev ==> Naming(names, i + 1) == Failure(DuplicateColumnName)
    ensures nm !in prev ==> Naming(names, i + 1) == Success(prev + [nm])
    ensures UsedNames(prev + [nm]) == UsedNames(prev) + {nm}
  {
  }

  /** A successful naming never repeats a name. */
  lemma {:induction false} NamingDistinct(names: seq<Option<string>>, i: nat)
    requires i <= |names| && Naming(names, i).Success?
    ensures Distinct(Naming(names, i).value)
  {
    if i > 0 {
      NamingDistinct(names, i - 1);
    }
  }

  /** Nor does it give a blank name, as long as the columns' own names are not blank. */
  lemma {:induction false} NamingNonBlank(names: seq<Option<string>>, i: nat)
    requires i <= |names| && Naming(names, i).Success?
    requires forall j :: 0 <= j < i ==> ValidName(names[j])
    ensures forall j :: 0 <= j < i ==> !IsBlank(Naming(names, i).value[j])
  {
    if i > 0 {
      NamingNonBlank(names, i - 1);
    }
  }

  /** Two unnamed columns become `Column_0` and `Column_1`. */
  lemma NamingExampleUnnamed()
    ensures Naming([None, None], 2) == Success(["Column_0", "Column_1"])
  {
    var names: seq<Option<string>> := [None, None];
    assert Naming(names, 0) == Success([]) && UsedNames([]) == {};
    assert FirstFree({}, 0) == 0 && AutoName(0) == "Column_0";
    NamingNext(names, 1, "Column_0");
    assert Naming(names, 0).value + ["Column_0"] == ["Column_0"];
    assert UsedNames(["Column_0"]) == {"Column_0"} && AutoName(1) == "Column_1";
    assert FirstFree({"Column_0"}, 1) == 1;
    NamingNext(names, 2, "Column_1");
    assert Naming(names, 1).value + ["Column_1"] == ["Column_0", "Column_1"];
  }

  /** An unnamed column whose own suffix is taken moves on to the next one. */
  lemma NamingExampleBumped()
    ensures Naming([Some("Column_1"), None], 2) == Success(["Column_1", "Column_2"])
  {
    var names: seq<Option<string>> := [Some("Column_1"), None];
    assert Naming(names, 0) == Success([]);
    NamingNext(names, 1, "Column_1");
    assert Naming(names, 0).value + ["Column_1"] == ["Column_1"];
    assert UsedNames(["Column_1"]) == {"Column_1"} && AutoName(1) == "Column_1" && AutoName(2) == "Column_2";
    assert {"Column_1"} - {"Column_1"} == {} && FirstFree({}, 2) == 2;
    assert FirstFree({"Column_1"}, 1) == 2;
    NamingNext(names, 2, "Column_2");
    assert Naming(names, 1).value + ["Column_2"] == ["Column_1", "Column_2"];
  }

  /**
   * Only earlier names are avoided: an unnamed first column takes `Column_0`, and a later column
   * named `Column_0` is then a duplicate.
   */
  lemma NamingExampleClash()
    ensures Naming([None, Some("Column_0")], 2) == Failure(DuplicateColumnName)
  {
    var names: seq<Option<string>> := [None, Some("Column_0")];
    assert Naming(names, 0) == Success([]) && UsedNames([]) == {};
    assert FirstFree({}, 0) == 0 && AutoName(0) == "Column_0";
    NamingNext(names, 1, "Column_0");
  }

  /** The do-while loop of the constructor that searches for a free automatic name. */
  method FreeName(used: set<string>, i: nat) returns (name: string)
    ensures name == AutoName(FirstFree(used, i))
  {
    var suffix := i;
    name := AutoName(suffix);
    suffix := suffix + 1;
    while name in used
      invariant i < suffix <= FirstFree(used, i) + 1 && name == AutoName(suffix - 1)
      decreases FirstFree(used, i) + 1 - suffix
    {
      name := AutoName(suffix);
      suffix := suffix + 1;
    }
  }

  // ---------------------------------------------------------------------------------------------
  // The constructor

  /** Every column is valid and shows the labels of `index`. */
  ghost predicate Agree<V>(cols: seq<Column<V>>, index: Indices.Index)
    requires Indices.Valid(index)
  {
    forall j :: 0 <= j < |cols| ==> Columns.Valid(cols[j]) && Indices.Labels(cols[j].index) == Indices.Labels(index)
  }

  /** `out` holds the first `|s|` columns of `cols`, each renamed to its name in `s`. */
  ghost predicate Renamed<V>(out: seq<Column<V>>, cols: seq<Column<V>>, s: seq<string>) {
    |out| == |s| <= |cols| && forall j :: 0 <= j < |out| ==> out[j] == cols[j].(name := Some(s[j]))
  }

  /** The first loop of the constructor: every column's index `isEqual` to the table's. */
  method CheckIndices<V>(cols: seq<Column<V>>, index: Indices.Index) returns (ok: bool)
    requires Indices.Valid(index) && forall j :: 0 <= j < |cols| ==> Columns.Valid(cols[j])
    ensures ok <==> Agree(cols, index)
  {
    for j := 0 to |cols|
      invariant forall k :: 0 <= k < j ==> Indices.Labels(cols[k].index) == Indices.Labels(index)
    {
      var same := Indices.IsEqual(cols[j].index, index);
      if !same {
        return false;
      }
    }
    return true;
  }

  /**
   * The second loop of the constructor: each column keeps its name or receives a free automatic
   * one, and a name already taken by an earlier column is refused.
   */
  method NameColumns<V>(cols: seq<Column<V>>) returns (r: Result<seq<Column<V>>>)
    requires forall j :: 0 <= j < |cols| ==> Columns.Valid(cols[j])
    ensures r.Success? <==> Naming(NamesOf(cols), |cols|).Success?
    ensures r.Failure? ==> r.error == DuplicateColumnName
    ensures r.Success? ==> |r.value| == |cols| && Renamed(r.value, cols, Naming(NamesOf(cols), |cols|).value)
  {
    ghost var names := NamesOf(cols);
    var used: set<string> := {};
    ghost var chosen: seq<string> := [];
    var out: seq<Column<V>> := [];
    for i := 0 to |cols|
      invariant |chosen| == i && |out| == i
      invariant Naming(names, i) == Success(chosen) && used == UsedNames(chosen)
      invariant Renamed(out, cols, chosen)
    {
      var taken;
      taken, used, chosen, out := NameNext(cols, names, used, chosen, out);
      if taken {
        NamingFails(names, i + 1, |cols|);
        return Failure(DuplicateColumnName);
      }
    }
    return Success(out);
  }

  /** One round of the naming loop: the next column's name, or the finding that it is taken. */
  method NameNext<V>(cols: seq<Column<V>>, ghost names: seq<Option<string>>, used: set<string>,
                     ghost chosen: seq<string>, out: seq<Column<V>>)
    returns (taken: bool, used': set<string>, ghost chosen': seq<string>, out': seq<Column<V>>)
    requires forall j :: 0 <= j < |cols| ==> Columns.Valid(cols[j])
    requires names == NamesOf(cols) && |chosen| < |cols|
    requires Naming(names, |chosen|) == Success(chosen) && used == UsedNames(chosen)
    requires Renamed(out, cols, chosen)
    ensures taken ==> Naming(names, |chosen| + 1).Failure?
    ensures !taken ==> |chosen'| == |chosen| + 1 && Naming(names, |chosen'|) == Success(chosen') &&
                       used' == UsedNames(chosen') && Renamed(out', cols, chosen')
  {
    var i := |out|;
    var nm := ChooseName(cols[i].name, i, used);
    NamingStep(names, i, chosen, nm);
    if nm in used {
      return true, used, chosen, out;
    }
    var c := WithName(cols[i], nm);
    RenamedStep(out, cols, chosen, c, nm);
    return false, used + {nm}, chosen + [nm], out + [c];
  }

  lemma RenamedStep<V>(out: seq<Column<V>>, cols: seq<Column<V>>, s: seq<string>, c: Column<V>, nm: string)
    requires Renamed(out, cols, s) && |s| < |cols| && c == cols[|s|].(name := Some(nm))
    ensures Renamed(out + [c], cols, s + [nm])
  {
  }

  /** The column's own name, or else the first free automatic name from its position on. */
  method ChooseName(name: Option<string>, i: nat, used: set<string>) returns (nm: string)
    ensures nm == Choose(name, i, used)
    ensures ValidName(name) ==> !IsBlank(nm)
  {
    if name == None {
      nm := FreeName(used, i);
    } else {
      nm := name.value;
    }
  }

  /** The column renamed to `nm`, through `Column.rename` only when the name differs. */
  function WithName<V>(c: Column<V>, nm: string): (r: Column<V>)
    requires Columns.Valid(c) && !IsBlank(nm)
    ensures r == c.(name := Some(nm))
  {
    if Some(nm) != c.name then Columns.Rename(c, Some(nm)).value else c
  }

  /** Columns renamed to names that are not blank are valid and named, each on its old index. */
  lemma RenamedValid<V>(out: seq<Column<V>>, cols: seq<Column<V>>, s: seq<string>)
    requires forall j :: 0 <= j < |cols| ==> Columns.Valid(cols[j])
    requires Renamed(out, cols, s) && forall j :: 0 <= j < |s| ==> !IsBlank(s[j])
    ensures forall j :: 0 <= j < |out| ==> Columns.Valid(out[j]) && out[j].name.Some? && out[j].index == cols[j].index
  {
  }

  /** Columns renamed to distinct names are distinctly named. */
  lemma RenamedDistinct<V>(out: seq<Column<V>>, cols: seq<Column<V>>, s: seq<string>)
    requires Renamed(out, cols, s) && Distinct(s)
    ensures Distinct(NamesOf(out))
  {
    var ns := NamesOf(out);
    forall i, j | 0 <= i < j < |ns| ensures ns[i] != ns[j] {
      assert ns[i] == Some(s[i]) && ns[j] == Some(s[j]);
    }
  }

  /** Columns renamed to the names they already have are unchanged. */
  lemma RenamedSame<V>(out: seq<Column<V>>, cols: seq<Column<V>>, s: seq<string>)
    requires Renamed(out, cols, s) && |s| == |cols| && forall j :: 0 <= j < |s| ==> cols[j].name == Some(s[j])
    ensures out == cols
  {
  }

  /**
   * `new Table(index, columns)`: no columns, a column whose labels differ from the index's, and
   * a repeated name are refused; otherwise the columns, in order, named as `Naming` says.
   */
  method NewTable<V>(index: Indices.Index, cols: seq<Column<V>>) returns (r: Result<Table<V>>)
    requires Indices.Valid(index) && ValidName(index.name)
    requires forall j :: 0 <= j < |cols| ==> Columns.Valid(cols[j])
    ensures cols == [] ==> r == Failure(EmptyColumns)
    ensures cols != [] && !Agree(cols, index) ==> r == Failure(IndexMismatch)
    ensures cols != [] && Agree(cols, index) ==> (r.Success? <==> Naming(NamesOf(cols), |cols|).Success?)
    ensures cols != [] && Agree(cols, index) && r.Failure? ==> r.error == DuplicateColumnName
    ensures r.Failure? ==> r.error in {EmptyColumns, IndexMismatch, DuplicateColumnName}
    ensures r.Success? ==> Valid(r.value) && r.value.rowIndex == index && |r.value.columns| == |cols|
    ensures r.Success? ==> Renamed(r.value.columns, cols, Naming(NamesOf(cols), |cols|).value)
  {
    if |cols| == 0 {
      return Failure(EmptyColumns);
    }
    var ok := CheckIndices(cols, index);
    if !ok {
      return Failure(IndexMismatch);
    }
    var named := NameColumns(cols);
    if named.Failure? {
      return Failure(named.error);
    }
    ghost var s := Naming(NamesOf(cols), |cols|).value;
    NamingNonBlank(NamesOf(cols), |cols|);
    RenamedValid(named.value, cols, s);
    NamingDistinct(NamesOf(cols), |cols|);
    RenamedDistinct(named.value, cols, s);
    r := Success(Table(index, named.value));
  }

  /** Columns that already carry distinct names keep them through the constructor. */
  lemma ExplicitNaming<V>(cols: seq<Column<V>>)
    requires Distinct(NamesOf(cols)) && forall j :: 0 <= j < |cols| ==> cols[j].name.Some?
    ensures Naming(NamesOf(cols), |cols|).Success?
    ensures forall j :: 0 <= j < |cols| ==> cols[j].name == Some(Naming(NamesOf(cols), |cols|).value[j])
  {
    var names := NamesOf(cols);
    NamingExplicit(names, |cols|);
  }

  // ---------------------------------------------------------------------------------------------
  // Queries

  /** `size()`: the number of rows, which every column has. */
  function Size<V>(t: Table<V>): (r: int)
    requires Valid(t)
    ensures r == |Indices.Labels(t.rowIndex)| && r > 0
    ensures forall j :: 0 <= j < |t.columns| ==> Columns.Size(t.columns[j]) == r
  {
    Indices.ValidLabels(t.rowIndex);
    Indices.Size(t.rowIndex)
  }

  /** `columnCount()`: never zero. */
  function ColumnCount<V>(t: Table<V>): (r: int)
    requires Valid(t)
    ensures r == |t.columns| && r > 0
  {
    |t.columns|
  }

  /** `columnAt(pos)`: the column at that position, or the complaint that there is none. */
  function ColumnAt<V>(t: Table<V>, pos: int): (r: Result<Column<V>>)
    requires Valid(t)
    ensures r.Success? <==> 0 <= pos < |t.columns|
    ensures r.Failure? ==> r.error == OutOfRange
    ensures r.Success? ==> r.value == t.columns[pos] && Fits(r.value, t.rowIndex)
  {
    if pos < 0 || pos >= |t.columns| then Failure(OutOfRange) else Success(t.columns[pos])
  }

  /** The column with that name, if the table has one: there is at most one. */
  ghost function Lookup<V>(t: Table<V>, name: string): (r: Option<Column<V>>)
    requires Valid(t)
    ensures r.None? <==> Some(name) !in NamesOf(t.columns)
    ensures forall j :: 0 <= j < |t.columns| && t.columns[j].name == Some(name) ==> r == Some(t.columns[j])
    ensures r.Some? ==> r.value.name == Some(name) && Fits(r.value, t.rowIndex)
  {
    var p := IndexOf(NamesOf(t.columns), Some(name));
    forall j | 0 <= j < |t.columns| && t.columns[j].name == Some(name) ensures j == p {
      IndexOfDistinct(NamesOf(t.columns), j);
    }
    if p < 0 then None else Some(t.columns[p])
  }

  /** `columnByName(name)`: a scan for the column with that name; null (`None`) when there is none. */
  method ColumnByName<V>(t: Table<V>, name: string) returns (r: Option<Column<V>>)
    requires Valid(t)
    ensures r == Lookup(t, name)
  {
    for i := 0 to |t.columns|
      invariant forall k :: 0 <= k < i ==> t.columns[k].name != Some(name)
    {
      if t.columns[i].name == Some(name) {
        return Some(t.columns[i]);
      }
    }
    return None;
  }

  /**
   * `valueAt(row, column)`: the cell, or the complaint that a position is out of range. It is
   * the value of that column at that row.
   */
  function ValueAt<V>(t: Table<V>, row: int, col: int): (r: Result<Option<V>>)
    requires Valid(t)
    ensures r.Success? <==> 0 <= row < |Indices.Labels(t.rowIndex)| && 0 <= col < |t.columns|
    ensures r.Failure? ==> r.error == OutOfRange
    ensures r.Success? ==> r == Columns.ValueAt(t.columns[col], row) && r.value == t.columns[col].values[row]
  {
    if row < 0 || row >= Indices.Size(t.rowIndex) then Failure(OutOfRange)
    else if col < 0 || col >= |t.columns| then Failure(OutOfRange)
    else Columns.ValueAt(t.columns[col], row)
  }

  /**
   * `valueAt(rowLabel, columnName)`: the cell in the row with that label and the column with that
   * name. An absent label is refused first; an absent column makes the source dereference null,
   * which is modelled as a complaint of its own.
   */
  method ValueAtLabel<V>(t: Table<V>, rowLabel: Label, name: string) returns (r: Result<Option<V>>)
    requires Valid(t)
    ensures rowLabel !in Indices.Labels(t.rowIndex) ==> r == Failure(LabelNotFound)
    ensures rowLabel in Indices.Labels(t.rowIndex) && Some(name) !in NamesOf(t.columns) ==> r == Failure(ColumnNotFound)
    ensures forall j :: 0 <= j < |t.columns| && t.columns[j].name == Some(name) && rowLabel in Indices.Labels(t.rowIndex) ==>
              r == ValueAt(t, IndexOf(Indices.Labels(t.rowIndex), rowLabel), j)
  {
    var rowPos := Indices.PositionOf(t.rowIndex, rowLabel);
    if rowPos == -1 {
      return Failure(LabelNotFound);
    }
    var column := ColumnByName(t, name);
    if column.None? {
      return Failure(ColumnNotFound);
    }
    r := Columns.ValueAt(column.value, rowPos);
  }

  // ---------------------------------------------------------------------------------------------
  // Changing the index and renaming

  /**
   * `changeIndex(newIndex)`: the table itself when the labels agree; otherwise, if the new index
   * is as long, every column moved onto it with its name and values.
   */
  method ChangeIndex<V>(t: Table<V>, n: Indices.Index) returns (r: Result<Table<V>>)
    requires Valid(t) && Indices.Valid(n) && ValidName(n.name)
    ensures Indices.Labels(t.rowIndex) == Indices.Labels(n) ==> r == Success(t)
    ensures r.Failure? <==> |Indices.Labels(n)| != |Indices.Labels(t.rowIndex)|
    ensures r.Failure? ==> r.error == SizeMismatch
    ensures r.Success? ==> Valid(r.value)
    ensures r.Success? && Indices.Labels(t.rowIndex) != Indices.Labels(n) ==>
              r.value.rowIndex == n && |r.value.columns| == |t.columns| &&
              forall j :: 0 <= j < |t.columns| ==> r.value.columns[j] == t.columns[j].(index := n)
  {
    var same := Indices.IsEqual(t.rowIndex, n);
    if same {
      return Success(t);
    }
    if Indices.Size(n) != Indices.Size(t.rowIndex) {
      return Failure(SizeMismatch);
    }
    var moved := MoveColumns(t, n);
    MovedFit(t, n, moved);
    ExplicitNaming(moved);
    r := NewTable(n, moved);
    RenamedSame(r.value.columns, moved, Naming(NamesOf(moved), |moved|).value);
  }

  /** The loop of `changeIndex`: `Column.changeIndex` on every column. */
  method MoveColumns<V>(t: Table<V>, n: Indices.Index) returns (moved: seq<Column<V>>)
    requires Valid(t) && Indices.Valid(n) && ValidName(n.name)
    requires |Indices.Labels(n)| == |Indices.Labels(t.rowIndex)| && Indices.Labels(n) != Indices.Labels(t.rowIndex)
    ensures |moved| == |t.columns| && forall j :: 0 <= j < |t.columns| ==> moved[j] == t.columns[j].(index := n)
  {
    moved := [];
    for i := 0 to |t.columns|
      invariant |moved| == i && forall j :: 0 <= j < i ==> moved[j] == t.columns[j].(index := n)
    {
      var c := Columns.ChangeIndex(t.columns[i], n);
      moved := moved + [c.value];
    }
  }

  /** Columns of a table moved onto an index as long keep distinct names and show its labels. */
  lemma MovedFit<V>(t: Table<V>, n: Indices.Index, moved: seq<Column<V>>)
    requires Valid(t) && Indices.Valid(n) && ValidName(n.name)
    requires |Indices.Labels(n)| == |Indices.Labels(t.rowIndex)|
    requires |moved| == |t.columns| && forall j :: 0 <= j < |t.columns| ==> moved[j] == t.columns[j].(index := n)
    ensures Agree(moved, n) && Distinct(NamesOf(moved)) && forall j :: 0 <= j < |moved| ==> moved[j].name.Some?
  {
    assert NamesOf(moved) == NamesOf(t.columns);
  }

  /**
   * The checks `renameColumns` makes on the first `i` new names: none blank, no present name
   * twice. The set holds the present names seen.
   */
  function NameCheck(newNames: seq<Option<string>>, i: nat): (r: Result<set<string>>)
    requires i <= |newNames|
  {
    if i == 0 then Success({})
    else
      var before := NameCheck(newNames, i - 1);
      if before.Failure? then before
      else
        var nm := newNames[i - 1];
        if nm.Some? && IsBlank(nm.value) then Failure(InvalidName)
        else if nm.Some? && nm.value in before.value then Failure(DuplicateColumnName)
        else Success(if nm.Some? then before.value + {nm.value} else before.value)
  }

  /** The checks pass exactly when no new name is blank and no present name repeats. */
  lemma {:induction false} NameCheckSpec(newNames: seq<Option<string>>, i: nat)
    requires i <= |newNames|
    ensures NameCheck(newNames, i).Success? <==>
              (forall j :: 0 <= j < i ==> ValidName(newNames[j])) &&
              (forall a, b :: 0 <= a < b < i && newNames[a].Some? ==> newNames[a] != newNames[b])
    ensures NameCheck(newNames, i).Success? ==>
              forall x :: x in NameCheck(newNames, i).value <==> exists j :: 0 <= j < i && newNames[j] == Some(x)
    ensures NameCheck(newNames, i).Failure? ==> NameCheck(newNames, i).error in {InvalidName, DuplicateColumnName}
  {
    if i > 0 {
      NameCheckSpec(newNames, i - 1);
    }
  }

  /** The checking loop of `renameColumns`; on success it says whether any name changes. */
  method CheckNewNames<V>(t: Table<V>, newNames: seq<Option<string>>) returns (r: Result<bool>)
    requires |newNames| == |t.columns|
    ensures r.Failure? <==> NameCheck(newNames, |newNames|).Failure?
    ensures r.Failure? ==> r.error == NameCheck(newNames, |newNames|).error
    ensures r.Success? ==> (r.value <==> newNames != NamesOf(t.columns))
  {
    var hasChanges := false;
    var seen: set<string> := {};
    for i := 0 to |newNames|
      invariant NameCheck(newNames, i) == Success(seen)
      invariant hasChanges <==> exists j :: 0 <= j < i && newNames[j] != t.columns[j].name
    {
      var nm := newNames[i];
      if nm.Some? && IsBlank(nm.value) {
        NameCheckFails(newNames, i + 1, |newNames|);
        return Failure(InvalidName);
      }
      if nm.Some? && nm.value in seen {
        NameCheckFails(newNames, i + 1, |newNames|);
        return Failure(DuplicateColumnName);
      }
      if nm.Some? {
        seen := seen + {nm.value};
      }
      if t.columns[i].name != nm && !hasChanges {
        hasChanges := true;
      }
    }
    if !hasChanges {
      assert newNames == NamesOf(t.columns);
    }
    return Success(hasChanges);
  }

  /** A failed check stays failed, with the same complaint, as more names are checked. */
  lemma {:induction false} NameCheckFails(newNames: seq<Option<string>>, i: nat, n: nat)
    requires i <= n <= |newNames| && NameCheck(newNames, i).Failure?
    ensures NameCheck(newNames, n) == NameCheck(newNames, i)
    decreases n
  {
    if i < n {
      NameCheckFails(newNames, i, n - 1);
    }
  }

  /**
   * `renameColumns(newNames)`: one name per column, none blank and no present name twice; the
   * table itself when nothing changes; otherwise the renamed columns through the constructor,
   * which names a column renamed to null automatically and may so find a duplicate.
   */
  method RenameColumns<V>(t: Table<V>, newNames: seq<Option<string>>) returns (r: Result<Table<V>>)
    requires Valid(t)
    ensures |newNames| != |t.columns| ==> r == Failure(SizeMismatch)
    ensures |newNames| == |t.columns| && NameCheck(newNames, |newNames|).Failure? ==>
              r == Failure(NameCheck(newNames, |newNames|).error)
    ensures |newNames| == |t.columns| && newNames == NamesOf(t.columns) ==> r == Success(t)
    ensures |newNames| == |t.columns| && NameCheck(newNames, |newNames|).Success? && newNames != NamesOf(t.columns) ==>
              (r.Success? <==> Naming(newNames, |newNames|).Success?) &&
              (r.Failure? ==> r.error == DuplicateColumnName)
    ensures r.Success? && newNames != NamesOf(t.columns) ==>
              Valid(r.value) && r.value.rowIndex == t.rowIndex && |r.value.columns| == |t.columns| &&
              Naming(newNames, |newNames|).Success? &&
              forall j :: 0 <= j < |t.columns| ==>
                r.value.columns[j] == t.columns[j].(name := Some(Naming(newNames, |newNames|).value[j]))
  {
    if |newNames| != |t.columns| {
      return Failure(SizeMismatch);
    }
    if newNames == NamesOf(t.columns) {
      NameCheckSpec(newNames, |newNames|);
    }
    var checked := CheckNewNames(t, newNames);
    if checked.Failure? {
      return Failure(checked.error);
    }
    if !checked.value {
      return Success(t);
    }
    var renamed := RenameEach(t, newNames);
    r := NewTable(t.rowIndex, renamed);
  }

  /** The renaming loop of `renameColumns`: `Column.rename` on every column. */
  method RenameEach<V>(t: Table<V>, newNames: seq<Option<string>>) returns (renamed: seq<Column<V>>)
    requires Valid(t) && |newNames| == |t.columns| && NameCheck(newNames, |newNames|).Success?
    ensures |renamed| == |t.columns| && Agree(renamed, t.rowIndex) && NamesOf(renamed) == newNames
    ensures forall j :: 0 <= j < |t.columns| ==> renamed[j] == t.columns[j].(name := newNames[j])
  {
    NameCheckSpec(newNames, |newNames|);
    renamed := [];
    for i := 0 to |t.columns|
      invariant |renamed| == i && forall j :: 0 <= j < i ==> renamed[j] == t.columns[j].(name := newNames[j])
      invariant Agree(renamed, t.rowIndex)
    {
      var c := Columns.Rename(t.columns[i], newNames[i]);
      renamed := renamed + [c.value];
    }
    assert NamesOf(renamed) == newNames;
  }

  // ---------------------------------------------------------------------------------------------
  // Side by side: flank

  /** `d` is `c` reindexed onto `n`: same name, the labels of `n`, and under each the value `c` has there. */
  ghost predicate Moved<V>(d: Column<V>, c: Column<V>, n: Indices.Index) {
    Columns.Valid(c) && Indices.Valid(n) && Columns.Valid(d) && d.name == c.name &&
    Indices.Labels(d.index) == Indices.Labels(n) &&
    forall i :: 0 <= i < |d.values| ==> d.values[i] == Columns.Gather(c, Indices.Labels(n)[i])
  }

  /** Each of `out` is the column of `cols` at the same position, reindexed onto `n`. */
  ghost predicate Reindexed<V>(out: seq<Column<V>>, cols: seq<Column<V>>, n: Indices.Index) {
    |out| == |cols| && forall j :: 0 <= j < |out| ==> Moved(out[j], cols[j], n)
  }

  /** Reindexing keeps every value under its label, wherever the new index puts that label. */
  lemma MovedKeeps<V>(d: Column<V>, c: Column<V>, n: Indices.Index, i: int)
    requires Moved(d, c, n) && 0 <= i < |c.values| && Indices.Labels(c.index)[i] in Indices.Labels(n)
    ensures d.values[IndexOf(Indices.Labels(n), Indices.Labels(c.index)[i])] == c.values[i]
  {
    Columns.GatherOwn(c, i);
  }

  /** Rows whose label the old column lacks are null after reindexing. */
  lemma MovedFills<V>(d: Column<V>, c: Column<V>, n: Indices.Index, k: int)
    requires Moved(d, c, n) && 0 <= k < |d.values| && Indices.Labels(n)[k] !in Indices.Labels(c.index)
    ensures d.values[k] == None
  {
  }

  /** The name check of `flank`: a hash set of this table's names, then each of the other's added to it. */
  method SharesName<V>(mine: seq<Column<V>>, theirs: seq<Column<V>>) returns (clash: bool)
    requires Distinct(NamesOf(theirs))
    ensures clash <==> !Disjoint(NamesOf(mine), NamesOf(theirs))
  {
    ghost var T, O := NamesOf(mine), NamesOf(theirs);
    var names: set<Option<string>> := {};
    for j := 0 to |mine|
      invariant forall x :: x in names <==> x in T[..j]
    {
      assert T[..j + 1] == T[..j] + [T[j]];
      names := names + {mine[j].name};
    }
    assert T[..|T|] == T;
    for j := 0 to |theirs|
      invariant forall x :: x in names <==> x in T || x in O[..j]
      invariant forall k :: 0 <= k < j ==> O[k] !in T
    {
      var nm := theirs[j].name;
      if nm in names {
        assert nm !in O[..j];
        return true;
      }
      assert O[..j + 1] == O[..j] + [nm];
      names := names + {nm};
    }
    return false;
  }

  /** The reindexing loops of `flank`: `Column.reindex` onto the fused index for every column. */
  method ReindexAll<V>(cols: seq<Column<V>>, n: Indices.Index) returns (out: seq<Column<V>>)
    requires Indices.Valid(n) && ValidName(n.name) && forall j :: 0 <= j < |cols| ==> Columns.Valid(cols[j])
    ensures Reindexed(out, cols, n)
  {
    out := [];
    for j := 0 to |cols|
      invariant |out| == j && forall k :: 0 <= k < j ==> Moved(out[k], cols[k], n)
    {
      var c := Columns.Reindex(cols[j], n);
      out := out + [c];
    }
  }

  /** Columns reindexed onto one index, with distinct present names, fit a table on it unchanged. */
  lemma ReindexedFit<V>(out: seq<Column<V>>, cols: seq<Column<V>>, n: Indices.Index)
    requires Indices.Valid(n) && Reindexed(out, cols, n)
    requires Distinct(NamesOf(cols)) && forall j :: 0 <= j < |cols| ==> cols[j].name.Some?
    ensures Agree(out, n) && NamesOf(out) == NamesOf(cols) && forall j :: 0 <= j < |out| ==> out[j].name.Some?
  {
    assert NamesOf(out) == NamesOf(cols);
  }

  lemma ReindexedConcat<V>(left: seq<Column<V>>, right: seq<Column<V>>, a: seq<Column<V>>, b: seq<Column<V>>, n: Indices.Index)
    requires Reindexed(left, a, n) && Reindexed(right, b, n)
    ensures Reindexed(left + right, a + b, n)
  {
    forall j | 0 <= j < |left + right| ensures Moved((left + right)[j], (a + b)[j], n) {
      if j < |left| {
        assert (left + right)[j] == left[j] && (a + b)[j] == a[j];
      } else {
        assert (left + right)[j] == right[j - |left|] && (a + b)[j] == b[j - |left|];
      }
    }
  }

  /** The names of columns placed one after the other. */
  lemma NamesOfConcat<V>(a: seq<Column<V>>, b: seq<Column<V>>)
    ensures NamesOf(a + b) == NamesOf(a) + NamesOf(b)
  {
    var n, m := NamesOf(a + b), NamesOf(a) + NamesOf(b);
    forall k | 0 <= k < |n| ensures n[k] == m[k] {
      if k < |a| {
        assert (a + b)[k] == a[k];
      } else {
        assert (a + b)[k] == b[k - |a|];
      }
    }
  }

  /** The column list `flank` builds: this table's columns and then the other's, all reindexed. */
  method SideColumns<V>(t: Table<V>, o: Table<V>, fused: Indices.Index) returns (side: seq<Column<V>>)
    requires Valid(t) && Valid(o) && Disjoint(NamesOf(t.columns), NamesOf(o.columns))
    requires Indices.Valid(fused) && ValidName(fused.name)
    ensures Reindexed(side, t.columns + o.columns, fused) && Agree(side, fused)
    ensures NamesOf(side) == NamesOf(t.columns) + NamesOf(o.columns) && Distinct(NamesOf(side))
    ensures forall j :: 0 <= j < |side| ==> side[j].name.Some?
  {
    var left := ReindexAll(t.columns, fused);
    var right := ReindexAll(o.columns, fused);
    side := left + right;
    ReindexedConcat(left, right, t.columns, o.columns, fused);
    NamesOfConcat(t.columns, o.columns);
    DistinctConcat(NamesOf(t.columns), NamesOf(o.columns));
    ReindexedFit(side, t.columns + o.columns, fused);
  }

  /**
   * `flank(other)`: the columns of both tables side by side, this table's first, on the fusion of
   * the row indices, each reindexed onto it; refused when a column name occurs in both.
   */
  method Flank<V>(t: Table<V>, o: Table<V>) returns (r: Result<Table<V>>)
    requires Valid(t) && Valid(o)
    ensures r.Failure? <==> !Disjoint(NamesOf(t.columns), NamesOf(o.columns))
    ensures r.Failure? ==> r.error == DuplicateColumnName
    ensures r.Success? ==>
              Valid(r.value) && r.value.rowIndex.name == t.rowIndex.name &&
              Indices.Labels(r.value.rowIndex) == Fuse(Indices.Labels(t.rowIndex), Indices.Labels(o.rowIndex)) &&
              NamesOf(r.value.columns) == NamesOf(t.columns) + NamesOf(o.columns) &&
              Reindexed(r.value.columns, t.columns + o.columns, r.value.rowIndex)
  {
    var clash := SharesName(t.columns, o.columns);
    if clash {
      return Failure(DuplicateColumnName);
    }
    var fused := Indices.Merge(t.rowIndex, o.rowIndex);
    var side := SideColumns(t, o, fused);
    ExplicitNaming(side);
    r := NewTable(fused, side);
    RenamedSame(r.value.columns, side, Naming(NamesOf(side), |side|).value);
  }

  /**
   * Flanking keeps every cell of this table in the column of the same position and the row of
   * the same label.
   */
  lemma FlankKeepsLeft<V>(t: Table<V>, o: Table<V>, r: Table<V>, j: int, i: int)
    requires Valid(t) && Valid(o) && Indices.Valid(r.rowIndex)
    requires Indices.Labels(r.rowIndex) == Fuse(Indices.Labels(t.rowIndex), Indices.Labels(o.rowIndex))
    requires Reindexed(r.columns, t.columns + o.columns, r.rowIndex)
    requires 0 <= j < |t.columns| && 0 <= i < |Indices.Labels(t.rowIndex)|
    ensures var p := IndexOf(Indices.Labels(r.rowIndex), Indices.Labels(t.rowIndex)[i]);
            0 <= p < |r.columns[j].values| && i < |t.columns[j].values| &&
            r.columns[j].values[p] == t.columns[j].values[i]
  {
    Indices.MergeLabels(t.rowIndex, o.rowIndex);
    assert (t.columns + o.columns)[j] == t.columns[j];
    MovedKeeps(r.columns[j], t.columns[j], r.rowIndex, i);
  }

  /** And every cell of the other table, in the column shifted past this table's columns. */
  lemma FlankKeepsRight<V>(t: Table<V>, o: Table<V>, r: Table<V>, k: int, i: int)
    requires Valid(t) && Valid(o) && Indices.Valid(r.rowIndex)
    requires Indices.Labels(r.rowIndex) == Fuse(Indices.Labels(t.rowIndex), Indices.Labels(o.rowIndex))
    requires Reindexed(r.columns, t.columns + o.columns, r.rowIndex)
    requires 0 <= k < |o.columns| && 0 <= i < |Indices.Labels(o.rowIndex)|
    ensures var p := IndexOf(Indices.Labels(r.rowIndex), Indices.Labels(o.rowIndex)[i]);
            0 <= p < |r.columns[|t.columns| + k].values| && i < |o.columns[k].values| &&
            r.columns[|t.columns| + k].values[p] == o.columns[k].values[i]
  {
    Indices.MergeLabels(t.rowIndex, o.rowIndex);
    assert (t.columns + o.columns)[|t.columns| + k] == o.columns[k];
    MovedKeeps(r.columns[|t.columns| + k], o.columns[k], r.rowIndex, i);
  }

  // ---------------------------------------------------------------------------------------------
  // One above the other: stack

  /** The values a table contributes to the stacked column called `nm`: its column's, or nulls. */
  ghost function Part<V>(t: Table<V>, nm: string): (r: seq<Option<V>>)
    requires Valid(t)
    ensures |r| == |Indices.Labels(t.rowIndex)|
  {
    var c := Lookup(t, nm);
    if c.Some? then c.value.values else Columns.Nulls(|Indices.Labels(t.rowIndex)|)
  }

  /** `c` is the stacked column called `nm`: on the labels of `n`, this table's part above the other's. */
  ghost predicate StackedColumn<V>(c: Column<V>, t: Table<V>, o: Table<V>, n: Indices.Index, nm: string) {
    Valid(t) && Valid(o) && Indices.Valid(n) &&
    Columns.Valid(c) && c.name == Some(nm) && Indices.Labels(c.index) == Indices.Labels(n) &&
    c.values == Part(t, nm) + Part(o, nm)
  }

  /** The names `stack` collects in a `LinkedHashSet`: this table's, then the other's it lacks. */
  method UnionNames<V>(t: Table<V>, o: Table<V>) returns (u: seq<Option<string>>)
    requires Valid(t) && Valid(o)
    ensures u == Fuse(NamesOf(t.columns), NamesOf(o.columns))
  {
    ghost var T, O := NamesOf(t.columns), NamesOf(o.columns);
    u := [];
    for j := 0 to |t.columns|
      invariant u == T[..j]
    {
      var nm := t.columns[j].name;
      if nm !in u {
        u := u + [nm];
      }
      assert T[..j + 1] == T[..j] + [nm];
    }
    assert T[..|T|] == T;
    for j := 0 to |o.columns|
      invariant u == T + Extra(T, O, j)
    {
      var nm := o.columns[j].name;
      ExtraMembers(T, O, j);
      assert nm !in O[..j];
      if nm !in u {
        u := u + [nm];
      }
    }
  }

  /** The collected names are present, distinct, and each belongs to one table or the other. */
  lemma UnionNamesFrom(T: seq<Option<string>>, O: seq<Option<string>>, u: seq<Option<string>>)
    requires Distinct(T) && Distinct(O) && None !in T && None !in O && u == Fuse(T, O)
    ensures Distinct(u)
    ensures forall k :: 0 <= k < |u| ==> u[k].Some? && (u[k] in T || u[k] in O)
  {
    FuseDistinct(T, O);
    RemainderMembers(T, O);
    forall k | 0 <= k < |u| ensures u[k] in T || u[k] in O {
      if k >= |T| {
        assert u[k] == Remainder(T, O)[k - |T|];
      }
    }
  }

  /**
   * One round of `stack`'s column loop: the column of that name in both tables stacked, or the
   * one of them that has it reindexed onto the fused index.
   */
  method StackOne<V>(t: Table<V>, o: Table<V>, fused: Indices.Index, nm: string) returns (c: Column<V>)
    requires Valid(t) && Valid(o) && Indices.Valid(fused) && ValidName(fused.name)
    requires Disjoint(Indices.Labels(t.rowIndex), Indices.Labels(o.rowIndex))
    requires Indices.Labels(fused) == Indices.Labels(t.rowIndex) + Indices.Labels(o.rowIndex)
    requires Some(nm) in NamesOf(t.columns) || Some(nm) in NamesOf(o.columns)
    ensures StackedColumn(c, t, o, fused, nm)
  {
    var thisCol := ColumnByName(t, nm);
    var otherCol := ColumnByName(o, nm);
    if thisCol.Some? && otherCol.Some? {
      var s := Columns.Stack(thisCol.value, otherCol.value);
      c := s.value;
    } else if thisCol.Some? {
      c := Columns.Reindex(thisCol.value, fused);
      Columns.GatherAppended(thisCol.value, Indices.Labels(o.rowIndex), c.values);
    } else if otherCol.Some? {
      c := Columns.Reindex(otherCol.value, fused);
      Columns.GatherPrepended(otherCol.value, Indices.Labels(t.rowIndex), c.values);
    } else {
      assert false;
    }
  }

  /** The column loop of `stack`, over the collected names in order. */
  method StackAll<V>(t: Table<V>, o: Table<V>, fused: Indices.Index, u: seq<Option<string>>)
    returns (out: seq<Column<V>>)
    requires Valid(t) && Valid(o) && Indices.Valid(fused) && ValidName(fused.name)
    requires Disjoint(Indices.Labels(t.rowIndex), Indices.Labels(o.rowIndex))
    requires Indices.Labels(fused) == Indices.Labels(t.rowIndex) + Indices.Labels(o.rowIndex)
    requires forall k :: 0 <= k < |u| ==> u[k].Some? && (u[k] in NamesOf(t.columns) || u[k] in NamesOf(o.columns))
    ensures |out| == |u| && forall k :: 0 <= k < |u| ==> StackedColumn(out[k], t, o, fused, u[k].value)
  {
    out := [];
    for k := 0 to |u|
      invariant |out| == k && AllStacked(out, t, o, fused, u)
    {
      var c := StackOne(t, o, fused, u[k].value);
      StackedStep(out, t, o, fused, u, c);
      out := out + [c];
    }
  }

  ghost predicate AllStacked<V>(out: seq<Column<V>>, t: Table<V>, o: Table<V>, fused: Indices.Index, u: seq<Option<string>>) {
    |out| <= |u| && forall m :: 0 <= m < |out| ==> u[m].Some? && StackedColumn(out[m], t, o, fused, u[m].value)
  }

  lemma StackedStep<V>(out: seq<Column<V>>, t: Table<V>, o: Table<V>, fused: Indices.Index, u: seq<Option<string>>, c: Column<V>)
    requires AllStacked(out, t, o, fused, u) && |out| < |u| && u[|out|].Some?
    requires StackedColumn(c, t, o, fused, u[|out|].value)
    ensures AllStacked(out + [c], t, o, fused, u)
  {
  }

  /** Stacked columns under distinct names fit a table on the fused index unchanged. */
  lemma StackedFit<V>(out: seq<Column<V>>, t: Table<V>, o: Table<V>, fused: Indices.Index, u: seq<Option<string>>)
    requires Indices.Valid(fused) && Distinct(u) && |out| == |u|
    requires forall k :: 0 <= k < |u| ==> u[k].Some? && StackedColumn(out[k], t, o, fused, u[k].value)
    ensures Agree(out, fused) && NamesOf(out) == u && Distinct(NamesOf(out))
    ensures forall k :: 0 <= k < |out| ==> out[k].name.Some?
  {
    assert NamesOf(out) == u;
  }

  /** The column list `stack` builds: one stacked column per collected name. */
  method StackedColumns<V>(t: Table<V>, o: Table<V>, fused: Indices.Index) returns (stacked: seq<Column<V>>)
    requires Valid(t) && Valid(o) && Indices.Valid(fused) && ValidName(fused.name)
    requires Disjoint(Indices.Labels(t.rowIndex), Indices.Labels(o.rowIndex))
    requires Indices.Labels(fused) == Indices.Labels(t.rowIndex) + Indices.Labels(o.rowIndex)
    ensures Agree(stacked, fused) && Distinct(NamesOf(stacked))
    ensures NamesOf(stacked) == Fuse(NamesOf(t.columns), NamesOf(o.columns))
    ensures forall k :: 0 <= k < |stacked| ==> stacked[k].name.Some?
    ensures forall k :: 0 <= k < |stacked| ==> StackedColumn(stacked[k], t, o, fused, stacked[k].name.value)
  {
    var names := UnionNames(t, o);
    assert None !in NamesOf(t.columns) && None !in NamesOf(o.columns);
    UnionNamesFrom(NamesOf(t.columns), NamesOf(o.columns), names);
    stacked := StackAll(t, o, fused, names);
    StackedFit(stacked, t, o, fused, names);
  }

  /**
   * `stack(other)`: the rows of the other table under those of this one, on the fusion of the
   * row indices; refused when the row indices share a label. There is one column per name of
   * either table, this table's names first.
   */
  method Stack<V>(t: Table<V>, o: Table<V>) returns (r: Result<Table<V>>)
    requires Valid(t) && Valid(o)
    ensures r.Failure? <==> !Disjoint(Indices.Labels(t.rowIndex), Indices.Labels(o.rowIndex))
    ensures r.Failure? ==> r.error == OverlappingLabels
    ensures r.Success? ==>
              Valid(r.value) && r.value.rowIndex.name == t.rowIndex.name &&
              Indices.Labels(r.value.rowIndex) == Indices.Labels(t.rowIndex) + Indices.Labels(o.rowIndex) &&
              NamesOf(r.value.columns) == Fuse(NamesOf(t.columns), NamesOf(o.columns))
    ensures r.Success? ==> forall k :: 0 <= k < |r.value.columns| ==>
              StackedColumn(r.value.columns[k], t, o, r.value.rowIndex, r.value.columns[k].name.value)
  {
    var fused := Indices.Merge(t.rowIndex, o.rowIndex);
    Indices.MergeDisjoint(t.rowIndex, o.rowIndex);
    if Indices.Size(fused) != Indices.Size(t.rowIndex) + Indices.Size(o.rowIndex) {
      return Failure(OverlappingLabels);
    }
    FuseDisjoint(Indices.Labels(t.rowIndex), Indices.Labels(o.rowIndex));
    var stacked := StackedColumns(t, o, fused);
    ExplicitNaming(stacked);
    r := NewTable(fused, stacked);
    RenamedSame(r.value.columns, stacked, Naming(NamesOf(stacked), |stacked|).value);
  }

  /** The stacked table has this table's columns and one more for each name only the other has. */
  lemma StackColumnCount<V>(t: Table<V>, o: Table<V>, r: Table<V>)
    requires Valid(t) && Valid(o) && NamesOf(r.columns) == Fuse(NamesOf(t.columns), NamesOf(o.columns))
    ensures |r.columns| == |t.columns| + |set x | x in NamesOf(o.columns) && x !in NamesOf(t.columns)|
  {
    FuseSize(NamesOf(t.columns), NamesOf(o.columns));
  }

  // ---------------------------------------------------------------------------------------------
  // Transformations

  /** `d` is `c` with `f` applied to each value, under the same name and index. */
  ghost predicate MappedColumn<V, U>(d: Column<U>, c: Column<V>, f: Option<V> -> Option<U>) {
    Columns.Valid(d) && d.name == c.name && d.index == c.index && |d.values| == |c.values| &&
    forall i :: 0 <= i < |c.values| ==> d.values[i] == f(c.values[i])
  }

  /** The loop of `map`: `Column.mapValues` on every column. */
  method MapAll<V, U>(t: Table<V>, f: Option<V> -> Option<U>) returns (out: seq<Column<U>>)
    requires Valid(t)
    ensures |out| == |t.columns| && forall j :: 0 <= j < |t.columns| ==> MappedColumn(out[j], t.columns[j], f)
  {
    out := [];
    for j := 0 to |t.columns|
      invariant |out| == j && forall k :: 0 <= k < j ==> MappedColumn(out[k], t.columns[k], f)
    {
      var c := Columns.MapValues(t.columns[j], f);
      out := out + [c];
    }
  }

  /** Mapped columns keep the names and labels, so they fit the table's row index unchanged. */
  lemma MappedFit<V, U>(t: Table<V>, f: Option<V> -> Option<U>, out: seq<Column<U>>)
    requires Valid(t)
    requires |out| == |t.columns| && forall j :: 0 <= j < |t.columns| ==> MappedColumn(out[j], t.columns[j], f)
    ensures Agree(out, t.rowIndex) && Distinct(NamesOf(out)) && forall j :: 0 <= j < |out| ==> out[j].name.Some?
  {
    assert NamesOf(out) == NamesOf(t.columns);
  }

  /**
   * `map(f)`: `f` applied to every cell, nulls included; the row index, the column names and
   * the column indices stay. The constructor cannot refuse the result.
   */
  method Map<V, U>(t: Table<V>, f: Option<V> -> Option<U>) returns (r: Table<U>)
    requires Valid(t)
    ensures Valid(r) && r.rowIndex == t.rowIndex && |r.columns| == |t.columns|
    ensures forall j :: 0 <= j < |t.columns| ==> MappedColumn(r.columns[j], t.columns[j], f)
  {
    var mapped := MapAll(t, f);
    MappedFit(t, f, mapped);
    ExplicitNaming(mapped);
    var made := NewTable(t.rowIndex, mapped);
    RenamedSame(made.value.columns, mapped, Naming(NamesOf(mapped), |mapped|).value);
    r := made.value;
  }

  /** A successful naming keeps every name already given. */
  lemma NamingKeeps(names: seq<Option<string>>)
    requires Naming(names, |names|).Success?
    ensures forall j :: 0 <= j < |names| && names[j].Some? ==> Naming(names, |names|).value[j] == names[j].value
  {
    NamingShape(names, |names|);
  }

  /** `f` returns a column, not null, for every column of the table. */
  ghost predicate AllProduced<V, U>(t: Table<V>, f: Column<V> -> Option<Column<U>>) {
    forall j :: 0 <= j < |t.columns| ==> f(t.columns[j]).Some?
  }

  /** `cols` are the columns `f` returns, in order. */
  ghost predicate Produces<V, U>(t: Table<V>, f: Column<V> -> Option<Column<U>>, cols: seq<Column<U>>) {
    |cols| == |t.columns| && forall j :: 0 <= j < |t.columns| ==> f(t.columns[j]) == Some(cols[j])
  }

  /** The loop of `mapColumn`: `f` on every column, stopping at the first null. */
  method Produce<V, U>(t: Table<V>, f: Column<V> -> Option<Column<U>>) returns (r: Result<seq<Column<U>>>)
    ensures r.Failure? <==> !AllProduced(t, f)
    ensures r.Failure? ==> r.error == NullColumn
    ensures r.Success? ==> Produces(t, f, r.value)
  {
    var produced: seq<Column<U>> := [];
    for j := 0 to |t.columns|
      invariant |produced| == j && forall k :: 0 <= k < j ==> f(t.columns[k]) == Some(produced[k])
    {
      var c := f(t.columns[j]);
      if c.None? {
        return Failure(NullColumn);
      }
      produced := produced + [c.value];
    }
    return Success(produced);
  }

  /**
   * `d` is the column `p` as a table holds it: the same index and values, and its own name where
   * it had one.
   */
  ghost predicate ProducedColumn<U>(d: Column<U>, p: Column<U>) {
    d.index == p.index && d.values == p.values && (p.name.Some? ==> d.name == p.name)
  }

  /** Columns renamed to names that keep every given name keep their index, values and given names. */
  lemma RenamedProduced<U>(out: seq<Column<U>>, cols: seq<Column<U>>, s: seq<string>)
    requires Renamed(out, cols, s) && |out| == |cols|
    requires forall j :: 0 <= j < |cols| && cols[j].name.Some? ==> s[j] == cols[j].name.value
    ensures forall j :: 0 <= j < |cols| ==> ProducedColumn(out[j], cols[j])
  {
  }

  /** Columns on the table's labels with distinct names pass the constructor unchanged. */
  lemma ProducedFit<U>(index: Indices.Index, cols: seq<Column<U>>)
    requires Indices.Valid(index)
    requires forall j :: 0 <= j < |cols| ==> Fits(cols[j], index)
    requires forall a, b :: 0 <= a < b < |cols| ==> cols[a].name != cols[b].name
    ensures Agree(cols, index) && Distinct(NamesOf(cols)) && forall j :: 0 <= j < |cols| ==> cols[j].name.Some?
  {
  }

  /**
   * The constructor on columns that came from `f`: the same refusals, and where it accepts, each
   * column keeps its index, values and given name; columns that already fit pass unchanged.
   */
  method Assemble<U>(index: Indices.Index, cols: seq<Column<U>>) returns (r: Result<Table<U>>)
    requires Indices.Valid(index) && ValidName(index.name) && |cols| > 0
    requires forall j :: 0 <= j < |cols| ==> Columns.Valid(cols[j])
    ensures !Agree(cols, index) ==> r == Failure(IndexMismatch)
    ensures r.Failure? ==> r.error in {IndexMismatch, DuplicateColumnName}
    ensures Agree(cols, index) ==> (r.Success? <==> Naming(NamesOf(cols), |cols|).Success?)
    ensures Agree(cols, index) && r.Failure? ==> r.error == DuplicateColumnName
    ensures r.Success? ==>
              Naming(NamesOf(cols), |cols|).Success? &&
              Renamed(r.value.columns, cols, Naming(NamesOf(cols), |cols|).value)
    ensures (forall j :: 0 <= j < |cols| ==> Fits(cols[j], index)) &&
            (forall a, b :: 0 <= a < b < |cols| ==> cols[a].name != cols[b].name) ==>
              r == Success(Table(index, cols))
    ensures r.Success? ==>
              Valid(r.value) && r.value.rowIndex == index && |r.value.columns| == |cols| &&
              forall j :: 0 <= j < |cols| ==> ProducedColumn(r.value.columns[j], cols[j])
  {
    r := NewTable(index, cols);
    if r.Success? {
      ghost var s := Naming(NamesOf(cols), |cols|).value;
      NamingKeeps(NamesOf(cols));
      RenamedProduced(r.value.columns, cols, s);
    }
    if forall j :: 0 <= j < |cols| ==> Fits(cols[j], index) {
      if forall a, b :: 0 <= a < b < |cols| ==> cols[a].name != cols[b].name {
        ProducedFit(index, cols);
        ExplicitNaming(cols);
        RenamedSame(r.value.columns, cols, Naming(NamesOf(cols), |cols|).value);
      }
    }
  }

  /** The columns `f` returns, in order, when it returns one for every column. */
  ghost function Produced<V, U>(t: Table<V>, f: Column<V> -> Option<Column<U>>): (cols: seq<Column<U>>)
    requires AllProduced(t, f)
    ensures Produces(t, f, cols)
  {
    seq(|t.columns|, j requires 0 <= j < |t.columns| => f(t.columns[j]).value)
  }

  /** `f` determines its columns: whatever `Produces` describes is `Produced`. */
  lemma ProducesProduced<V, U>(t: Table<V>, f: Column<V> -> Option<Column<U>>, cols: seq<Column<U>>)
    requires Produces(t, f, cols)
    ensures AllProduced(t, f) && cols == Produced(t, f)
  {
    var ps := Produced(t, f);
    assert forall j :: 0 <= j < |cols| ==> cols[j] == ps[j];
  }

  /** Some column `f` returns shows other labels than the table's rows. */
  ghost predicate OffLabels<V, U>(t: Table<V>, f: Column<V> -> Option<Column<U>>) {
    Indices.Valid(t.rowIndex) &&
    exists j :: 0 <= j < |t.columns| && f(t.columns[j]).Some? && Columns.Valid(f(t.columns[j]).value) &&
      Indices.Labels(f(t.columns[j]).value.index) != Indices.Labels(t.rowIndex)
  }

  /**
   * `mapColumn(f)`: the columns `f` makes of each column, in order, through the constructor on
   * the same row index. A null column (`None`) is refused as soon as it appears; the constructor
   * then refuses a column on other labels and a repeated name, and names a nameless column.
   */
  method MapColumn<V, U>(t: Table<V>, f: Column<V> -> Option<Column<U>>) returns (r: Result<Table<U>>)
    requires Valid(t)
    requires forall j :: 0 <= j < |t.columns| && f(t.columns[j]).Some? ==> Columns.Valid(f(t.columns[j]).value)
    ensures !AllProduced(t, f) <==> r == Failure(NullColumn)
    ensures r.Failure? ==> r.error in {NullColumn, IndexMismatch, DuplicateColumnName}
    ensures AllProduced(t, f) && OffLabels(t, f) ==> r == Failure(IndexMismatch)
    ensures AllProduced(t, f) && (forall j :: 0 <= j < |t.columns| ==> Fits(f(t.columns[j]).value, t.rowIndex)) &&
            (forall a, b :: 0 <= a < b < |t.columns| ==> f(t.columns[a]).value.name != f(t.columns[b]).value.name) ==>
              r.Success? && |r.value.columns| == |t.columns| &&
              forall j :: 0 <= j < |t.columns| ==> r.value.columns[j] == f(t.columns[j]).value
    ensures AllProduced(t, f) && Agree(Produced(t, f), t.rowIndex) ==>
              (r.Success? <==> Naming(NamesOf(Produced(t, f)), |t.columns|).Success?)
    ensures AllProduced(t, f) && Agree(Produced(t, f), t.rowIndex) && r.Failure? ==> r.error == DuplicateColumnName
    ensures r.Success? ==>
              AllProduced(t, f) && Naming(NamesOf(Produced(t, f)), |t.columns|).Success? &&
              Renamed(r.value.columns, Produced(t, f), Naming(NamesOf(Produced(t, f)), |t.columns|).value)
    ensures r.Success? ==>
              Valid(r.value) && r.value.rowIndex == t.rowIndex && |r.value.columns| == |t.columns| &&
              forall j :: 0 <= j < |t.columns| ==> f(t.columns[j]).Some? && ProducedColumn(r.value.columns[j], f(t.columns[j]).value)
  {
    var produced := Produce(t, f);
    if produced.Failure? {
      return Failure(NullColumn);
    }
    ProducesProduced(t, f, produced.value);
    r := Assemble(t.rowIndex, produced.value);
  }
}

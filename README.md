# mole: the index algebra of a small immutable dataframe library

`mole` has three immutable abstractions:

- an **Index**, which is a non-empty, duplicate-free sequence of labels;
- a **Column**, which pairs an optional name and an index with one value per label;
- a **Table**, which is a row index plus an ordered list of distinctly named columns.

Every combining operation goes through index *fusion*. The fusion of `first` and `second` shows every label of `first` and then, in their own order, the labels of `second` that `first` lacks.

This project models that core in Dafny and proves its properties:

- `wrappers.dfy`: `Option` (Java's `null`), `Result`, and the exceptions the library throws, one constructor each.
- `label_algebra.dfy`: the `Label` type, and the sequence algebra of fusion. `Fuse(F, S) = F + Remainder(F, S)`. The file proves fusion's membership, distinctness, size, identity and concatenation laws.
- `names.dfy`: `String.isBlank`, and the automatic `Column_k` names.
- `java_int.dfy`: Java's 32-bit `int`, its narrowing cast, and its truncating `/` and `%`.
- `index.dfy`: the `Index` interface and its three implementations as one immutable datatype. `Array`, `Numeric` and `Fusion` share a single abstract view, `Labels`. `labelAt`, `positionOf`, the fusion constructor's counting loop, `isEqual` and `merge` are methods proved against that view.
- `array_index.dfy` and `numeric_index.dfy`: the per-representation algorithms, and the iterators as classes with mutable cursors.
- `iteration.dfy`: the fusion iterator, which parks the next new label of `second`. It also holds the per-representation `equals`; for fusions, `equals` walks two iterators in lockstep.
- `column.dfy`: the column operations. `reindex`, `mapValues` and `stack` fill fresh arrays, as the source does.
- `table.dfy`: the table constructor and the table operations. The constructor checks indices, assigns automatic names and detects duplicate names. The operations are the lookups, `changeIndex`, `renameColumns`, `flank`, `stack`, `map` and `mapColumn`.

Labels are a closed datatype: integers, strings and booleans. A numeric index needs the integer kind. Column values are `seq<Option<V>>`, because `reindex` writes nulls.

Where the documentation and the code disagree, the model follows the code:

- `Column`'s constructor accepts null values, although its documentation says they are rejected.
- `NumericIndex.equals` compares `(start, end, step)`, although the class comment says equal labels suffice (`Indices.NumericEqualsStricter`).
- `Table.renameColumns` passes a null new name to `Column.rename`. The column loses its name and the constructor then names it automatically; a null does not mean "keep the old name".

## Model

| member | source | states |
|---|---|---|
| `Indices.ValidLabels` | src/main/java/mole/Index.java:6-8 | every index built by the constructors is non-empty and has pairwise distinct labels |
| `Indices.Size` | src/main/java/mole/Index.java:27-32 | `size()` is the length of the abstract label sequence, for the stored fusion size and the computed progression size alike |
| `Indices.LabelAt` | src/main/java/mole/Index.java:34-41 | `labelAt(pos)` is the label at `pos` of the abstract sequence inside [0, size), and fails with OutOfRange outside it |
| `Indices.PositionOf` | src/main/java/mole/Index.java:43-51 | `positionOf(l)` is the position of `l` in the abstract sequence, and -1 when the index lacks it |
| `Indices.PositionOfLabelAt` | src/main/java/mole/Index.java:43-51 | round trip: the position of the label at `i` is `i` |
| `Indices.Rename` | src/main/java/mole/Index.java:61-70 | `rename` fails on a blank name, returns the index itself for an unchanged name, and otherwise keeps the labels under the new name |
| `Indices.IsEqual` | src/main/java/mole/Index.java:85-93 | `isEqual` holds iff the two label sequences are equal: same size, same label at every position, names ignored |
| `Indices.Merge` | src/main/java/mole/Index.java:114-118 | `merge` returns `this` when the labels agree, and otherwise a fusion of (this, other) named after `this`; either way its labels are `Fuse(this, other)` |
| `Indices.MergeLabels` | src/main/java/mole/Index.java:95-99 | the merged labels are duplicate-free, hold exactly the labels of either side, and begin with all of `this` in order |
| `Indices.MergeDisjoint` | src/main/java/mole/Column.java:266-270 | the merge is as long as both sides together iff they share no label |
| `Indices.MergeExample` | src/main/java/mole/Index.java:100-104 | [0,1,2,5] merged with [0,3,2,6,9] is [0,1,2,5,3,6,9] |
| `Indices.MergeExampleReversed` | src/main/java/mole/FusionIndex.java:23-24 | merging the other way round gives [0,3,2,6,9,1,5], so merge is not commutative |
| `Indices.JavaEquals` | src/main/java/mole/ArrayIndex.java:161-166 | `equals` holds only between indices of the same kind, and equal indices have the same labels (arrays compare their label arrays, progressions their triples, fusions their label sequences) |
| `Indices.NumericEqualsStricter` | src/main/java/mole/NumericIndex.java:188-195 | two progressions, (0,10,3) and (0,11,3), with the same labels are not `equals` |
| `Indices.JavaEqualsStricter` | src/main/java/mole/Index.java:19-21 | an array index and a numeric index with the same labels are `isEqual` but not `equals` |
| `Indices.NewArrayIndex` | src/main/java/mole/ArrayIndex.java:59-77 | the array index constructor rejects, in this order, an empty array (EmptyLabels), a blank name (InvalidName), and the first null (NullLabel) or repeated (DuplicateLabels) label; on success the labels are kept in order |
| `ArrayIndex.LabelAt` | src/main/java/mole/ArrayIndex.java:91-97 | `labelAt(position)` succeeds exactly for positions in [0, length), returns the label stored there, and is OutOfRange otherwise |
| `ArrayIndex.Cursor.HasNext` | src/main/java/mole/ArrayIndex.java:145-147 | `hasNext` holds exactly while some label remains to be returned |
| `ArrayIndex.CheckLabels` | src/main/java/mole/ArrayIndex.java:68-76 | the scan with a growing seen-set succeeds iff no label is null or repeated, and its failure names the first offending position |
| `ArrayIndex.PositionOf` | src/main/java/mole/ArrayIndex.java:99-109 | the linear scan returns the first position holding the label, or -1 |
| `ArrayIndex.Cursor.Next` | src/main/java/mole/ArrayIndex.java:149-154 | `next` yields the label at the cursor and advances it, or fails with NoSuchElement when the labels are spent |
| `ArrayIndex.Iterate` | src/main/java/mole/ArrayIndex.java:140-160 | running the iterator to the end yields exactly the labels in order |
| `Indices.NewNumericIndex` | src/main/java/mole/NumericIndex.java:61-75 | the constructor rejects step 0, a step pointing away from `end`, an empty range and a blank name, in that order; on success the labels are `start + i*step` for i below ceil(\|end-start\|/\|step\|) |
| `NumericIndex.Check` | src/main/java/mole/NumericIndex.java:61-75 | the constructor's checks pass exactly for the valid (start, end, step) triples; step 0 is ZeroStep, a step pointing away from `end` is InconsistentStep, and the only other complaint is EmptyRange |
| `NumericIndex.CheckCorrected` | src/main/java/mole/NumericIndex.java:64-65 | with the span widened before the sign test, (-2, MAX_INT, 2) is accepted and (MAX_INT, -2, 2) is InconsistentStep |
| `NumericIndex.ComputeSize` | src/main/java/mole/NumericIndex.java:100-104 | `computeSize` is ceil(\|end-start\|/\|step\|) when that fits in an int, and negative (the span less 2^32) when it does not |
| `NumericIndex.CheckTooLong` | src/main/java/mole/NumericIndex.java:100-104 | the range from MIN_INT to MAX_INT by 1 has 2^32-1 terms, its `int` size is -1, and the constructor rejects it as EmptyRange |
| `NumericIndex.SizeIsSpan` | src/main/java/mole/NumericIndex.java:100-104 | for a valid triple the `int` cast in `computeSize` loses nothing: the size is ceil(\|end-start\|/\|step\|), positive, and fits in an int |
| `NumericIndex.LabelAt` | src/main/java/mole/NumericIndex.java:111-117 | `labelAt(pos)` is the term `start + pos*step` inside [0, size), and OutOfRange outside it |
| `NumericIndex.LabelInRange` | src/main/java/mole/NumericIndex.java:112-117 | every term lies between `start` (included) and `end` (excluded), on the side the step points to |
| `NumericIndex.PositionOfLabel` | src/main/java/mole/NumericIndex.java:130-134 | round trip: the position of the term at `i` is `i` |
| `NumericIndex.PositionOf` | src/main/java/mole/NumericIndex.java:126-135 | `positionOf` reports -1 or a position that holds the label |
| `NumericIndex.PositionOfSpec` | src/main/java/mole/NumericIndex.java:126-135 | `positionOf` agrees with the abstract sequence: -1 for non-integers, off-step values, values on the wrong side and terms past the end |
| `NumericIndex.LabelsDistinct` | src/main/java/mole/NumericIndex.java:8-10 | the terms of a progression are pairwise distinct |
| `NumericIndex.EqualsStricterThanLabels` | src/main/java/mole/NumericIndex.java:188-195 | (0,10,3) and (0,11,3) are valid and have the same labels [0,3,6,9] |
| `NumericIndex.CheckAsWrittenOverflows` | src/main/java/mole/NumericIndex.java:64-65 | the sign test as written rejects the valid range (-2, MAX_INT, 2) and accepts the invalid (MAX_INT, -2, 2) |
| `NumericIndex.PositionOfAsWrittenWraps` | src/main/java/mole/NumericIndex.java:131-134 | `positionOf` as written returns -2 for an absent label of the index (MIN_INT, MIN_INT+10, 1), where the corrected one returns -1 |
| `NumericIndex.Cursor.HasNext` | src/main/java/mole/NumericIndex.java:164-166 | under the cursor's invariant, `hasNext` fails exactly once `size` terms have been returned |
| `NumericIndex.Cursor.Next` | src/main/java/mole/NumericIndex.java:169-179 | `next` yields `start + index*step` and advances, or fails with NoSuchElement after `size` terms |
| `NumericIndex.Iterate` | src/main/java/mole/NumericIndex.java:156-186 | running the iterator to the end yields exactly the `size` terms in order |
| `Indices.NewFusionIndex` | src/main/java/mole/FusionIndex.java:67-82 | the constructor rejects a blank name; its counting loop stores size = first.size() + \|{l in second : l not in first}\|, and the labels are Fuse(first, second) |
| `Indices.FusionLabelAt` | src/main/java/mole/FusionIndex.java:109-127 | a fusion's `labelAt` agrees with the fused sequence: `first`'s label below first.size(), the (pos - first.size())-th new label of `second` above it |
| `Indices.NewLabelAt` | src/main/java/mole/FusionIndex.java:118-125 | the counting scan over `second` finds the `target`-th label absent from `first`; the exception after the loop cannot happen |
| `Indices.FusionPositionOf` | src/main/java/mole/FusionIndex.java:129-144 | a fusion's `positionOf` is `first`'s position when `first` holds the label, and otherwise the position of the label in the fused sequence, or -1 |
| `Indices.NewPositionOf` | src/main/java/mole/FusionIndex.java:135-143 | the scan over `second` numbers the new labels from first.size() and returns the label's number, or -1 |
| `LabelAlgebra.FuseDistinct` | src/main/java/mole/FusionIndex.java:18 | fusing two duplicate-free sequences gives a duplicate-free sequence |
| `LabelAlgebra.FuseSize` | src/main/java/mole/FusionIndex.java:44 | the size law: \|Fuse(F, S)\| = \|F\| + \|{x in S : x not in F}\| |
| `LabelAlgebra.RemainderMembers` | src/main/java/mole/FusionIndex.java:49-55 | the labels a fusion adds are exactly the labels of `second` that `first` lacks |
| `LabelAlgebra.FuseSelf` | src/main/java/mole/Index.java:116 | fusing a sequence with itself adds nothing |
| `LabelAlgebra.FuseDisjoint` | src/main/java/mole/Column.java:266-278 | fusing sequences that share no label concatenates them |
| `LabelAlgebra.RemainderFull` | src/main/java/mole/Column.java:268 | the remainder keeps all of `second` iff the two sequences share no label |
| `IndexIteration.FusionCursor.HasNext` | src/main/java/mole/FusionIndex.java:158-170 | `hasNext` is true iff labels remain; it may advance the second iterator to the next new label and park that label |
| `IndexIteration.FusionCursor.Next` | src/main/java/mole/FusionIndex.java:172-183 | `next` yields the next label of Fuse(first, second), or fails with NoSuchElement when none remains |
| `IndexIteration.ScanNew` | src/main/java/mole/FusionIndex.java:162-168 | the walk along `second` stops at the next label `first` lacks, or at the end of `second` |
| `IndexIteration.Traverse` | src/main/java/mole/FusionIndex.java:151-190 | every index's iterator, run to the end, yields its labels in order: all of `first`, then the new labels of `second` |
| `IndexIteration.Drain` | src/main/java/mole/FusionIndex.java:153-183 | calling `hasNext`/`next` on a fusion iterator until it is spent collects exactly the fused sequence |
| `IndexIteration.Equals` | src/main/java/mole/FusionIndex.java:192-203 | `equals` is per representation: equal label arrays, equal (start, end, step) triples, or equal fused sequences; it is never true across kinds, and it implies equal labels |
| `IndexIteration.SameFusedLabels` | src/main/java/mole/FusionIndex.java:196-202 | after the size test, comparing two fusions' iterators decides whether their label sequences are equal |
| `IndexIteration.Lockstep` | src/main/java/mole/FusionIndex.java:197-202 | the lockstep loop returns true iff the two fused sequences are equal |
| `Columns.NewColumn` | src/main/java/mole/Column.java:67-78 | the constructor rejects a blank name (InvalidName), then a value count other than the index size (SizeMismatch); it accepts null values |
| `Columns.Size` | src/main/java/mole/Column.java:104-111 | a column has as many values as its index has labels, and at least one |
| `Columns.ValueAt` | src/main/java/mole/Column.java:138-143 | `valueAt(pos)` is `values[pos]` inside [0, size), and OutOfRange outside it |
| `Columns.ValueAtLabel` | src/main/java/mole/Column.java:153-160 | `valueAt(label)` fails with LabelNotFound iff the index lacks the label, and otherwise equals `valueAt` at the label's position |
| `Columns.Rename` | src/main/java/mole/Column.java:169-175 | `rename` fails on a blank name, returns the column itself when the name is unchanged, and otherwise keeps the index and values |
| `Columns.ChangeIndex` | src/main/java/mole/Column.java:185-194 | `changeIndex` returns the column itself when the labels agree, fails with SizeMismatch iff the sizes differ, and otherwise keeps name and values under the new index |
| `Columns.GatherOwn` | src/main/java/mole/Column.java:216-220 | looking a column's own label up in the column finds the value of that row |
| `Columns.Reindex` | src/main/java/mole/Column.java:205-223 | `reindex(n)` keeps the name, shows n's labels, and puts in row i the old value under n.labelAt(i), or null when that label is missing; it returns the column itself when the indices are `equals`, reproduces the values on the same labels, and yields all nulls on a disjoint index |
| `Columns.Gathered` | src/main/java/mole/Column.java:209-220 | the gathering loop fills one slot per label of the new index with the value under that label, or null |
| `Columns.GatherAppended` | src/main/java/mole/Table.java:348-349 | reindexing onto the column's labels followed by foreign labels gives its values followed by nulls |
| `Columns.GatherPrepended` | src/main/java/mole/Table.java:350-351 | reindexing onto foreign labels followed by the column's own gives nulls followed by its values |
| `Columns.MapValues` | src/main/java/mole/Column.java:235-248 | `mapValues(f)` keeps name and index, and row i holds f(values[i]), nulls included |
| `Columns.Stack` | src/main/java/mole/Column.java:263-281 | `stack` fails with OverlappingLabels iff the indices share a label; otherwise the labels are this's followed by the other's, the values are `this.values ++ other.values`, and the name is this's; the new index is the fusion of this's index with the other's and keeps this index's name |
| `Columns.CopyInto` | src/main/java/mole/Column.java:277-278 | `System.arraycopy` writes the source into the target range and leaves the rest of the buffer unchanged |
| `Names.AutoNameDistinct` | src/main/java/mole/Table.java:96 | distinct suffixes give distinct `Column_k` names |
| `Tables.FirstFree` | src/main/java/mole/Table.java:94-98 | the chosen suffix is the first k at or after the column's position whose `Column_k` is not yet used |
| `Tables.FreeName` | src/main/java/mole/Table.java:93-99 | the do-while loop ends on the first free automatic name from the column's position on |
| `Tables.ChooseName` | src/main/java/mole/Table.java:91-99 | a named column keeps its name, and an unnamed one gets the first free automatic name; a non-blank name results either way |
| `Tables.Naming` | src/main/java/mole/Table.java:86-110 | the naming pass gives one name per column, and its only failure is DuplicateColumnName |
| `Tables.NamingShape` | src/main/java/mole/Table.java:89-110 | a successful naming gives distinct names; each explicit name is kept and each unnamed column gets the first free `Column_k` with k at or after its position |
| `Tables.NamingDistinct` | src/main/java/mole/Table.java:100-103 | a successful naming never repeats a name |
| `Tables.NamingNonBlank` | src/main/java/mole/Table.java:93-99 | a successful naming gives no blank name |
| `Tables.NamingExplicit` | src/main/java/mole/Table.java:105-109 | columns that all carry distinct names keep them |
| `Tables.NamingDuplicate` | src/main/java/mole/Table.java:101-103 | two columns with the same explicit name make the constructor fail |
| `Tables.NamingExampleUnnamed` | src/main/java/mole/Table.java:62 | two unnamed columns become Column_0 and Column_1 |
| `Tables.NamingExampleBumped` | src/main/java/mole/Table.java:64-65 | an explicit Column_1 at position 0 makes the unnamed column at position 1 Column_2 |
| `Tables.NamingExampleClash` | src/main/java/mole/Table.java:93-103 | only earlier names are avoided: an unnamed first column takes Column_0, so a later explicit Column_0 is a duplicate |
| `Tables.CheckIndices` | src/main/java/mole/Table.java:78-83 | the first constructor loop succeeds iff every column's labels equal the table index's |
| `Tables.NameColumns` | src/main/java/mole/Table.java:86-112 | the naming loop succeeds iff the naming does, and renames column j to the j-th chosen name, in order |
| `Tables.NameNext` | src/main/java/mole/Table.java:89-110 | one round of the naming loop either finds the name taken or extends the chosen names and renamed columns by one |
| `Tables.NewTable` | src/main/java/mole/Table.java:74-113 | the constructor fails on no columns (EmptyColumns), then on a column whose labels differ (IndexMismatch), then on a repeated name (DuplicateColumnName); on success the columns keep their order and count, are renamed as `Naming` says, and are distinctly named |
| `Tables.ExplicitNaming` | src/main/java/mole/Table.java:100-109 | distinctly named columns pass the naming unchanged |
| `Tables.Size` | src/main/java/mole/Table.java:129-131 | the row count is the row index's size, positive, and every column has it |
| `Tables.ColumnCount` | src/main/java/mole/Table.java:138-140 | a table has at least one column |
| `Tables.ColumnAt` | src/main/java/mole/Table.java:149-154 | `columnAt(pos)` is the column at pos inside [0, columnCount), and OutOfRange outside it |
| `Tables.Lookup` | src/main/java/mole/Table.java:163-171 | at most one column has a given name; the lookup returns it, or None iff no column has the name |
| `Tables.ColumnByName` | src/main/java/mole/Table.java:163-171 | the scan returns the column with that name, or null (`None`) |
| `Tables.ValueAt` | src/main/java/mole/Table.java:181-185 | `valueAt(row, col)` is the column's value at that row, and OutOfRange when either position is outside its range |
| `Tables.ValueAtLabel` | src/main/java/mole/Table.java:197-203 | `valueAt(rowLabel, name)` fails with LabelNotFound when the row index lacks the label; otherwise it is the cell at the label's row in the named column |
| `Tables.ChangeIndex` | src/main/java/mole/Table.java:216-231 | `changeIndex` returns the table itself when the labels agree, fails with SizeMismatch iff the sizes differ, and otherwise moves every column onto the new index, keeping names and values |
| `Tables.MoveColumns` | src/main/java/mole/Table.java:225-228 | the loop applies `Column.changeIndex` to every column, in order |
| `Tables.NameCheckSpec` | src/main/java/mole/Table.java:251-264 | the checks of `renameColumns` pass iff no new name is blank and no non-null name repeats |
| `Tables.CheckNewNames` | src/main/java/mole/Table.java:251-264 | the checking loop fails with the first complaint, and otherwise reports whether any name changes |
| `Tables.RenameColumns` | src/main/java/mole/Table.java:244-274 | `renameColumns` fails on a length mismatch, a blank name or a repeated name; it returns the table itself when no name changes; otherwise each column gets its new name, null names are filled in by the constructor, and the row index stays |
| `Tables.RenameEach` | src/main/java/mole/Table.java:268-271 | the loop applies `Column.rename` to every column, in order |
| `Tables.SharesName` | src/main/java/mole/Table.java:293-302 | the hash-set check finds a clash iff the two tables share a column name |
| `Tables.ReindexAll` | src/main/java/mole/Table.java:306-311 | the loop reindexes every column onto the fused index, in order |
| `Tables.SideColumns` | src/main/java/mole/Table.java:305-311 | the side-by-side column list is this's columns and then the other's, all reindexed, with distinct names |
| `Tables.Flank` | src/main/java/mole/Table.java:290-313 | `flank` fails with DuplicateColumnName iff a column name is shared; otherwise the row index shows Fuse(this, other) under this's name, and the columns are this's then the other's, each reindexed onto it |
| `Tables.FlankKeepsLeft` | src/main/java/mole/Table.java:306-308 | after `flank`, every cell of this table sits in the same column under the same row label |
| `Tables.FlankKeepsRight` | src/main/java/mole/Table.java:309-311 | after `flank`, every cell of the other table sits in its column shifted past this table's, under the same row label |
| `Tables.MovedKeeps` | src/main/java/mole/Column.java:216-220 | reindexing keeps every value under its label, wherever the new index places that label |
| `Tables.UnionNames` | src/main/java/mole/Table.java:337-339 | the LinkedHashSet of names is Fuse(this's names, other's names): this's names in order, then the other's new ones |
| `Tables.StackOne` | src/main/java/mole/Table.java:342-353 | a shared name gives the two columns stacked; a name only one table has gives that column reindexed, with nulls in the other table's rows |
| `Tables.StackAll` | src/main/java/mole/Table.java:341-353 | the column loop yields one stacked column per collected name, in order |
| `Tables.StackedColumns` | src/main/java/mole/Table.java:337-353 | the stacked columns are named by the union of names, distinct, and show the fused labels |
| `Tables.Stack` | src/main/java/mole/Table.java:329-356 | `stack` fails with OverlappingLabels iff the row indices share a label; otherwise the rows are this's then the other's, the names are the ordered union, and each column is this's part above the other's part, with nulls where a table lacks the column |
| `Tables.StackColumnCount` | src/main/java/mole/Table.java:337-341 | the stacked table has this's columns plus one for each name only the other table has |
| `Tables.MapAll` | src/main/java/mole/Table.java:370-373 | the loop applies `Column.mapValues` to every column, in order |
| `Tables.Map` | src/main/java/mole/Table.java:368-375 | `map(f)` keeps the row index, column names and column indices, and applies f to every cell; the constructor cannot refuse the result |
| `Tables.Produce` | src/main/java/mole/Table.java:389-396 | the loop fails with NullColumn iff f returns null for some column, and otherwise collects f's columns in order |
| `Tables.Assemble` | src/main/java/mole/Table.java:397 | the constructor on f's columns refuses mismatched labels; on matching labels it succeeds exactly when the naming pass does, fails otherwise with DuplicateColumnName, and renames each column to its name from that pass; columns that already fit pass unchanged |
| `Tables.ProducesProduced` | src/main/java/mole/Table.java:389-396 | the columns the loop collects are determined by f: they are `f` applied to each column, in order |
| `Tables.MapColumn` | src/main/java/mole/Table.java:387-398 | `mapColumn(f)` fails with NullColumn iff f returns null; then the constructor refuses columns on other labels; on matching labels it succeeds exactly when naming f's columns succeeds, else DuplicateColumnName, and the result holds f's columns renamed by that naming; columns that fit with distinct names are kept as f returned them |

## Findings

| source | as written | input that shows it | evidently intended | confidence | as-written member | corrected member |
|---|---|---|---|---|---|---|
| src/main/java/mole/NumericIndex.java:64 | `(long) (end - start) * step` subtracts in `int` before widening, so the sign test sees a wrapped span | start = -2, end = Integer.MAX_VALUE, step = 2 is rejected as "step sign inconsistent"; start = MAX_VALUE, end = -2, step = 2 passes the sign test | `((long) end - start) * step < 0`, as `computeSize` already widens | high, not executed | `NumericIndex.CheckAsWrittenOverflows` | `NumericIndex.CheckCorrected` |
| src/main/java/mole/NumericIndex.java:133 | `(int) (delta / step)` narrows a quotient that can exceed the int range; a negative result other than -1 passes `p < size()` | index (MIN_VALUE, MIN_VALUE + 10, 1), label MAX_VALUE - 1: returns -2, and callers that test `== -1` then index their value arrays at -2 | report -1 for any quotient of at least `size()` | high, not executed | `NumericIndex.PositionOfAsWrittenWraps` | `NumericIndex.PositionOfSpec` |

The rest of the model uses the corrected definitions: `NumericIndex.Check`, which backs `Indices.NewNumericIndex`, and `NumericIndex.PositionOf`.

## Left out

- Rendering: `toString` and `toColumnString` of indices, columns and tables, which rely on `String.format`, padding and `Object.toString`.
- `hashCode`, the iterators' `remove` stubs, and the column's value iterator; they carry no behaviour beyond array access.
- The client programs under `src/main/java/clients/`: console I/O and a parser that is not part of this model.
- Null arguments: a null index, column, table, function or label is not representable, except an array index's labels (`Option<Label>`) and names (`Option<string>`). So `positionOf(null)` failing with NullPointerException is not modelled.
- Labels are integers, strings and booleans only; Java accepts any `Object` with its own `equals`. Floating-point and date-time labels are left out.
- Java `int` overflow outside the findings: sizes and positions are unbounded integers. A numeric index's `start`, `end` and `step` must lie in the 32-bit range.
- `Indices.Rename`: a renamed fusion is rebuilt from the same operands, and its size is counted again; the model copies the stored size, which is the same number.
- `Tables.ValueAtLabel`: a missing column makes the source dereference null. The model reports ColumnNotFound instead of a NullPointerException.
- `Columns.MapValues` and `Tables.Map`: the mapped function is total. Java exceptions thrown by `f` are not modelled.
- Aliasing: indices, columns and tables are immutable values, and a fusion holds its operands by value. Sharing by reference is not observable in the source's behaviour.

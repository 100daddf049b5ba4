/**
 * A column: an optional name, an index giving one label per row, and one value per row. Values
 * may be null (`None`), and `reindex` produces nulls for labels the column lacks.
 */
module Columns {
  import opened Wrappers
  import opened LabelAlgebra
  import opened Names
  import Indices
  import IndexIteration

  datatype Column<V> = Column(name: Option<string>, index: Indices.Index, values: seq<Option<V>>)

  /** The representation invariant: a well-formed index, a valid name, one value per label. */
  ghost predicate Valid<V>(c: Column<V>) {
    Indices.Valid(c.index) && ValidName(c.index.name) && ValidName(c.name) &&
    |c.values| == |Indices.Labels(c.index)|
  }

  /** `new Column(name, index, values)`: the name is checked before the length. */
  function NewColumn<V>(name: Option<string>, index: Indices.Index, values: seq<Option<V>>): (r: Result<Column<V>>)
    requires Indices.Valid(index) && ValidName(index.name)
    ensures r.Success? <==> ValidName(name) && |values| == |Indices.Labels(index)|
    ensures !ValidName(name) ==> r == Failure(InvalidName)
    ensures ValidName(name) && |values| != |Indices.Labels(index)| ==> r == Failure(SizeMismatch)
    ensures r.Success? ==> Valid(r.value) && r.value == Column(name, index, values)
  {
    if !ValidName(name) then Failure(InvalidName)
    else if |values| != Indices.Size(index) then Failure(SizeMismatch)
    else Success(Column(name, index, values))
  }

  /** `size()`: the number of values, which is the size of the index. */
  function Size<V>(c: Column<V>): (r: int)
    requires Valid(c)
    ensures r == |Indices.Labels(c.index)| && r > 0
  {
    Indices.ValidLabels(c.index);
    |c.values|
  }

  /** `valueAt(pos)`: the value in row `pos`, or the complaint that `pos` lies outside [0, size). */
  function ValueAt<V>(c: Column<V>, pos: int): (r: Result<Option<V>>)
    requires Valid(c)
    ensures r.Success? <==> 0 <= pos < |Indices.Labels(c.index)|
    ensures r.Success? ==> r.value == c.values[pos]
    ensures r.Failure? ==> r.error == OutOfRange
  {
    if pos < 0 || pos >= |c.values| then Failure(OutOfRange) else Success(c.values[pos])
  }

  /**
   * `valueAt(label)`: the value in the row the index gives the label, or the complaint that the
   * index lacks it. It agrees with `valueAt(pos)` at the label's position.
   */
  method ValueAtLabel<V>(c: Column<V>, l: Label) returns (r: Result<Option<V>>)
    requires Valid(c)
    ensures l !in Indices.Labels(c.index) <==> r == Failure(LabelNotFound)
    ensures forall i :: 0 <= i < |c.values| && Indices.Labels(c.index)[i] == l ==> r == ValueAt(c, i)
  {
    var pos := Indices.PositionOf(c.index, l);
    if pos == -1 {
      return Failure(LabelNotFound);
    }
    Indices.ValidLabels(c.index);
    forall i | 0 <= i < |c.values| && Indices.Labels(c.index)[i] == l
      ensures i == pos
    {
      IndexOfDistinct(Indices.Labels(c.index), i);
    }
    r := Success(c.values[pos]);
  }

  /** `rename(newName)`: the same index and values under another name, or the column itself. */
  function Rename<V>(c: Column<V>, newName: Option<string>): (r: Result<Column<V>>)
    requires Valid(c)
    ensures r.Failure? <==> !ValidName(newName)
    ensures r.Failure? ==> r.error == InvalidName
    ensures ValidName(newName) && newName == c.name ==> r == Success(c)
    ensures r.Success? ==>
              Valid(r.value) && r.value.name == newName && r.value.index == c.index && r.value.values == c.values
  {
    if !ValidName(newName) then Failure(InvalidName)
    else if c.name == newName then Success(c)
    else NewColumn(newName, c.index, c.values)
  }

  /**
   * `changeIndex(newIndex)`: the column itself when the labels agree, otherwise the same values
   * under the new index, which must be as long.
   */
  method ChangeIndex<V>(c: Column<V>, n: Indices.Index) returns (r: Result<Column<V>>)
    requires Valid(c) && Indices.Valid(n) && ValidName(n.name)
    ensures Indices.Labels(c.index) == Indices.Labels(n) ==> r == Success(c)
    ensures r.Failure? <==> |Indices.Labels(n)| != |c.values|
    ensures r.Failure? ==> r.error == SizeMismatch
    ensures r.Success? ==>
              Valid(r.value) && r.value.name == c.name && r.value.values == c.values &&
              Indices.Labels(r.value.index) == Indices.Labels(n) &&
              (Indices.Labels(c.index) != Indices.Labels(n) ==> r.value.index == n)
  {
    var same := Indices.IsEqual(c.index, n);
    if same {
      return Success(c);
    }
    if Indices.Size(n) != |c.values| {
      return Failure(SizeMismatch);
    }
    r := NewColumn(c.name, n, c.values);
  }

  /** The value a column holds under label `l`, or null when its index lacks the label. */
  ghost function Gather<V>(c: Column<V>, l: Label): Option<V>
    requires Valid(c)
  {
    if l in Indices.Labels(c.index) then c.values[IndexOf(Indices.Labels(c.index), l)] else None
  }

  /** Gathering under a column's own label finds the value of that row. */
  lemma GatherOwn<V>(c: Column<V>, i: int)
    requires Valid(c) && 0 <= i < |c.values|
    ensures Gather(c, Indices.Labels(c.index)[i]) == c.values[i]
  {
    Indices.ValidLabels(c.index);
    IndexOfDistinct(Indices.Labels(c.index), i);
  }

  /** `k` nulls. */
  function Nulls<V>(k: nat): (r: seq<Option<V>>)
    ensures |r| == k && forall i :: 0 <= i < k ==> r[i] == None
  {
    seq(k, _ => None)
  }

  /**
   * Values gathered under the column's labels followed by labels it lacks are its own values
   * followed by nulls.
   */
  lemma GatherAppended<V>(c: Column<V>, after: seq<Label>, vals: seq<Option<V>>)
    requires Valid(c) && Disjoint(Indices.Labels(c.index), after)
    requires |vals| == |c.values| + |after|
    requires forall i :: 0 <= i < |vals| ==> vals[i] == Gather(c, (Indices.Labels(c.index) + after)[i])
    ensures vals == c.values + Nulls(|after|)
  {
    var own := Indices.Labels(c.index);
    forall i | 0 <= i < |vals| ensures vals[i] == (c.values + Nulls(|after|))[i] {
      if i < |own| {
        assert (own + after)[i] == own[i];
        GatherOwn(c, i);
      } else {
        assert (own + after)[i] == after[i - |own|] && after[i - |own|] in after;
      }
    }
  }

  /** Likewise for labels the column lacks followed by its own labels: nulls, then its values. */
  lemma GatherPrepended<V>(c: Column<V>, before: seq<Label>, vals: seq<Option<V>>)
    requires Valid(c) && Disjoint(before, Indices.Labels(c.index))
    requires |vals| == |before| + |c.values|
    requires forall i :: 0 <= i < |vals| ==> vals[i] == Gather(c, (before + Indices.Labels(c.index))[i])
    ensures vals == Nulls(|before|) + c.values
  {
    var own := Indices.Labels(c.index);
    forall i | 0 <= i < |vals| ensures vals[i] == (Nulls(|before|) + c.values)[i] {
      if i < |before| {
        assert (before + own)[i] == before[i] && before[i] in before;
      } else {
        assert (before + own)[i] == own[i - |before|];
        GatherOwn(c, i - |before|);
      }
    }
  }

  /**
   * `reindex(newIndex)`: the column itself when its index `equals` the new one; otherwise, row by
   * row of the new index, the value under the same label, or null where the label is missing.
   */
  method Reindex<V>(c: Column<V>, n: Indices.Index) returns (r: Column<V>)
    requires Valid(c) && Indices.Valid(n) && ValidName(n.name)
    ensures Valid(r) && r.name == c.name && Indices.Labels(r.index) == Indices.Labels(n)
    ensures Indices.JavaEquals(c.index, n) ==> r == c
    ensures !Indices.JavaEquals(c.index, n) ==> r.index == n
    ensures forall i :: 0 <= i < |r.values| ==> r.values[i] == Gather(c, Indices.Labels(n)[i])
    ensures Indices.Labels(n) == Indices.Labels(c.index) ==> r.values == c.values
    ensures Disjoint(Indices.Labels(c.index), Indices.Labels(n)) ==> forall i :: 0 <= i < |r.values| ==> r.values[i] == None
  {
    var same := IndexIteration.Equals(c.index, n);
    if same {
      forall i | 0 <= i < |c.values| ensures c.values[i] == Gather(c, Indices.Labels(n)[i]) {
        GatherOwn(c, i);
      }
      return c;
    }
    var gathered := Gathered(c, n);
    r := Column(c.name, n, gathered);
    if Indices.Labels(n) == Indices.Labels(c.index) {
      assert r.values == c.values by {
        forall i | 0 <= i < |c.values| ensures r.values[i] == c.values[i] {
          GatherOwn(c, i);
        }
      }
    }
  }

  /** The loop of `reindex`: a fresh buffer filled row by row of the new index. */
  method Gathered<V>(c: Column<V>, n: Indices.Index) returns (s: seq<Option<V>>)
    requires Valid(c) && Indices.Valid(n)
    ensures |s| == |Indices.Labels(n)|
    ensures forall i :: 0 <= i < |s| ==> s[i] == Gather(c, Indices.Labels(n)[i])
  {
    var size := Indices.Size(n);
    var buf := new Option<V>[size](_ => None);
    for i := 0 to size
      invariant forall k :: 0 <= k < i ==> buf[k] == Gather(c, Indices.Labels(n)[k])
    {
      var lab := Indices.LabelAt(n, i);
      var pos := Indices.PositionOf(c.index, lab.value);
      buf[i] := if pos != -1 then c.values[pos] else None;
    }
    s := buf[..];
  }

  /** `mapValues(f)`: `f` applied to every value, nulls included, under the same name and index. */
  method MapValues<V, U>(c: Column<V>, f: Option<V> -> Option<U>) returns (r: Column<U>)
    requires Valid(c)
    ensures Valid(r) && r.name == c.name && r.index == c.index && |r.values| == |c.values|
    ensures forall i :: 0 <= i < |c.values| ==> r.values[i] == f(c.values[i])
  {
    var buf := new Option<U>[|c.values|](_ => None);
    for i := 0 to |c.values|
      invariant forall k :: 0 <= k < i ==> buf[k] == f(c.values[k])
    {
      buf[i] := f(c.values[i]);
    }
    r := Column(c.name, c.index, buf[..]);
  }

  /**
   * `stack(other)`: the two columns one above the other under the merged index, named after
   * `c`. It fails when the indices share a label, which is when the merge is shorter than both.
   */
  method Stack<V>(c: Column<V>, o: Column<V>) returns (r: Result<Column<V>>)
    requires Valid(c) && Valid(o)
    ensures r.Failure? <==> !Disjoint(Indices.Labels(c.index), Indices.Labels(o.index))
    ensures r.Failure? ==> r.error == OverlappingLabels
    ensures r.Success? ==>
              Valid(r.value) && r.value.name == c.name &&
              Indices.Labels(r.value.index) == Indices.Labels(c.index) + Indices.Labels(o.index) &&
              r.value.values == c.values + o.values
  ensures r.Success? ==>
            r.value.index.name == c.index.name &&
            r.value.index.Fusion? && r.value.index.first == c.index && r.value.index.second == o.index
  {
    var fused := Indices.Merge(c.index, o.index);
    Indices.MergeDisjoint(c.index, o.index);
    if Indices.Size(fused) != |c.values| + |o.values| {
      return Failure(OverlappingLabels);
    }
    FuseDisjoint(Indices.Labels(c.index), Indices.Labels(o.index));
    // Disjoint label sequences, neither of them empty, differ: the merge fuses them.
    Indices.ValidLabels(c.index);
    assert Indices.Labels(c.index)[0] !in Indices.Labels(o.index);
    var buf := new Option<V>[Indices.Size(fused)](_ => None);
    CopyInto(buf, c.values, 0);
    CopyInto(buf, o.values, |c.values|);
    assert buf[..] == c.values + o.values;
    r := Success(Column(c.name, fused, buf[..]));
  }

  /** `System.arraycopy(src, 0, dst, at, src.length)`. */
  method CopyInto<V>(dst: array<Option<V>>, src: seq<Option<V>>, at: int)
    requires 0 <= at && at + |src| <= dst.Length
    modifies dst
    ensures dst[..at] == old(dst[..at]) && dst[at..at + |src|] == src
    ensures dst[at + |src|..] == old(dst[at + |src|..])
  {
    for i := 0 to |src|
      invariant dst[..at] == old(dst[..at]) && dst[at..at + i] == src[..i]
      invariant dst[at + |src|..] == old(dst[at + |src|..])
    {
      dst[at + i] := src[i];
    }
  }
}

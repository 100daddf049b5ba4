/**
 * The `Index` interface and its three implementations as one immutable value: an explicit label
 * array, an arithmetic progression, and the lazy fusion of two indices. `Labels` is the abstract
 * sequence every implementation exposes; each operation is proved against it.
 */
module Indices {
  import opened Wrappers
  import opened LabelAlgebra
  import opened Names
  import ArrayIndex
  import NumericIndex
  import JavaInt

  datatype Index =
    | Array(name: Option<string>, labels: seq<Label>)
    | Numeric(name: Option<string>, start: int, end: int, step: int)
      /** `size` is the count the constructor stores: `first`'s size plus the extra labels. */
    | Fusion(name: Option<string>, first: Index, second: Index, size: int)

  /** The representation invariant every constructor establishes, names aside (see Named). */
  ghost predicate Valid(ix: Index)
    decreases ix, 0
  {
    match ix
    case Array(_, ls) => |ls| > 0 && Distinct(ls)
    case Numeric(_, s, e, st) => NumericIndex.ValidProgression(s, e, st)
    case Fusion(_, f, sec, size) =>
      Valid(f) && Valid(sec) && size == |Labels(f)| + |Remainder(Labels(f), Labels(sec))|
  }

  /** The abstract sequence of labels. A fusion shows `first`, then the new labels of `second`. */
  function Labels(ix: Index): seq<Label>
    requires Valid(ix)
    decreases ix, 1
  {
    match ix
    case Array(_, ls) => ls
    case Numeric(_, s, e, st) => NumericIndex.Labels(s, e, st)
    case Fusion(_, f, sec, _) => Fuse(Labels(f), Labels(sec))
  }

  /** Every name in the index, its components' included, is absent or not blank. */
  ghost predicate Named(ix: Index) {
    ValidName(ix.name) && (ix.Fusion? ==> Named(ix.first) && Named(ix.second))
  }

  /** Every index is non-empty and free of duplicates. */
  lemma {:induction false} ValidLabels(ix: Index)
    requires Valid(ix)
    ensures |Labels(ix)| > 0 && Distinct(Labels(ix))
  {
    match ix
    case Array(_, _) =>
    case Numeric(_, s, e, st) =>
      NumericIndex.SizeIsSpan(s, e, st);
      NumericIndex.LabelsDistinct(s, e, st);
    case Fusion(_, f, sec, _) =>
      ValidLabels(f);
      ValidLabels(sec);
      FuseDistinct(Labels(f), Labels(sec));
  }

  function Size(ix: Index): (r: int)
    requires Valid(ix)
    ensures r == |Labels(ix)|
  {
    match ix
    case Array(_, ls) => |ls|
    case Numeric(_, s, e, st) => NumericIndex.ComputeSize(s, e, st)
    case Fusion(_, _, _, size) => size
  }

  /**
   * `new ArrayIndex(name, labels)`: the emptiness check, then the name, then the scan for null
   * and duplicate labels.
   */
  method NewArrayIndex(name: Option<string>, labels: seq<Option<Label>>) returns (r: Result<Index>)
    ensures |labels| == 0 ==> r == Failure(EmptyLabels)
    ensures |labels| > 0 && !ValidName(name) ==> r == Failure(InvalidName)
    ensures r.Success? <==> |labels| > 0 && ValidName(name) && None !in labels && Distinct(labels)
    ensures r.Failure? ==> r.error in {EmptyLabels, InvalidName, NullLabel, DuplicateLabels}
    ensures r == Failure(NullLabel) ==>
              exists k :: 0 <= k < |labels| && ArrayIndex.CleanPrefix(labels, k) && labels[k] == None
    ensures r == Failure(DuplicateLabels) ==>
              exists k :: 0 <= k < |labels| && ArrayIndex.CleanPrefix(labels, k) && labels[k] != None &&
                          labels[k] in labels[..k]
    ensures r.Success? ==>
              Valid(r.value) && Named(r.value) && r.value.Array? && r.value.name == name &&
              |Labels(r.value)| == |labels| &&
              forall i :: 0 <= i < |labels| ==> labels[i] == Some(Labels(r.value)[i])
  {
    if |labels| == 0 {
      return Failure(EmptyLabels);
    }
    if !ValidName(name) {
      return Failure(InvalidName);
    }
    var checked := ArrayIndex.CheckLabels(labels);
    match checked
    case Failure(e) =>
      r := Failure(e);
    case Success(ls) =>
      assert Distinct(ls) by {
        forall i, j | 0 <= i < j < |ls| ensures ls[i] != ls[j] {
          assert labels[i] == Some(ls[i]) && labels[j] == Some(ls[j]);
        }
      }
      r := Success(Array(name, ls));
  }

  /** `new NumericIndex(name, start, end, step)`, with the range checks corrected for overflow. */
  function NewNumericIndex(name: Option<string>, start: int, end: int, step: int): (r: Result<Index>)
    requires JavaInt.IsInt(start) && JavaInt.IsInt(end) && JavaInt.IsInt(step)
    ensures r.Success? <==> NumericIndex.ValidProgression(start, end, step) && ValidName(name)
    ensures step == 0 ==> r == Failure(ZeroStep)
    ensures step != 0 && (end - start) * step < 0 ==> r == Failure(InconsistentStep)
    ensures step != 0 && start == end ==> r == Failure(EmptyRange)
    ensures NumericIndex.ValidProgression(start, end, step) && !ValidName(name) ==> r == Failure(InvalidName)
    ensures r.Success? ==>
              Valid(r.value) && Named(r.value) && r.value.name == name && r.value.Numeric? &&
              |Labels(r.value)| == NumericIndex.Span(start, end, step) &&
              forall i :: 0 <= i < |Labels(r.value)| ==> Labels(r.value)[i] == Int(start + i * step)
  {
    NumericIndex.SpanEmpty(start, step);
    match NumericIndex.Check(start, end, step)
    case Some(e) => Failure(e)
    case None =>
      NumericIndex.SizeIsSpan(start, end, step);
      NumericIndex.LabelsTerms(start, end, step);
      if !ValidName(name) then Failure(InvalidName) else Success(Numeric(name, start, end, step))
  }

  /** `labelAt(pos)`: the label at `pos`, or the complaint that `pos` lies outside [0, size). */
  method LabelAt(ix: Index, pos: int) returns (r: Result<Label>)
    requires Valid(ix)
    ensures r == if 0 <= pos < |Labels(ix)| then Success(Labels(ix)[pos]) else Failure(OutOfRange)
    decreases ix, 2
  {
    match ix
    case Array(_, ls) =>
      r := ArrayIndex.LabelAt(ls, pos);
    case Numeric(_, s, e, st) =>
      r := NumericIndex.LabelAt(s, e, st, pos);
    case Fusion(_, _, _, _) =>
      r := FusionLabelAt(ix, pos);
  }

  /**
   * A fusion's `labelAt`: below `first.size()` it answers from `first`; above, it scans `second`
   * and counts the labels `first` does not hold until the wanted one.
   */
  method FusionLabelAt(ix: Index, pos: int) returns (r: Result<Label>)
    requires Valid(ix) && ix.Fusion?
    ensures r == if 0 <= pos < |Labels(ix)| then Success(Labels(ix)[pos]) else Failure(OutOfRange)
    decreases ix, 1
  {
    var first, second := ix.first, ix.second;
    if pos < 0 || pos >= ix.size {
      return Failure(OutOfRange);
    }
    var fsz := Size(first);
    if pos < fsz {
      r := LabelAt(first, pos);
      return;
    }
    var l := NewLabelAt(first, second, pos - fsz, ix);
    r := Success(l);
  }

  /**
   * The scan behind a fusion's `labelAt` above `first.size()`: walk `second`, counting the labels
   * `first` does not hold, up to the one numbered `target`. The source throws if the walk ends
   * first; `target` lies below the count of such labels, so it does not.
   */
  method NewLabelAt(first: Index, second: Index, target: int, ghost ix: Index) returns (l: Label)
    requires ix.Fusion? && ix.first == first && ix.second == second
    requires Valid(first) && Valid(second)
    requires 0 <= target < |Remainder(Labels(first), Labels(second))|
    ensures l == Remainder(Labels(first), Labels(second))[target]
    decreases ix, 0
  {
    ghost var F, S := Labels(first), Labels(second);
    var count := 0;
    var j := 0;
    var n := Size(second);
    while true
      invariant 0 <= j < n
      invariant count == |Extra(F, S, j)| <= target
      decreases n - j
    {
      var lbl := LabelAt(second, j);
      var p := PositionOf(first, lbl.value);
      if p < 0 {
        if count == target {
          ExtraPrefix(F, S, j + 1, |S|);
          return lbl.value;
        }
        count := count + 1;
      }
      j := j + 1;
    }
  }

  /** `positionOf(label)`: the position of the label, or -1 when the index does not hold it. */
  method PositionOf(ix: Index, l: Label) returns (p: int)
    requires Valid(ix)
    ensures p == IndexOf(Labels(ix), l)
    decreases ix, 2
  {
    match ix
    case Array(_, ls) =>
      p := ArrayIndex.PositionOf(ls, l);
    case Numeric(_, s, e, st) =>
      NumericIndex.PositionOfSpec(s, e, st, l);
      p := NumericIndex.PositionOf(s, e, st, l);
    case Fusion(_, _, _, _) =>
      p := FusionPositionOf(ix, l);
  }

  /**
   * A fusion's `positionOf`: the position in `first` if it holds the label, otherwise a walk over
   * `second` that numbers the labels `first` does not hold.
   */
  method FusionPositionOf(ix: Index, l: Label) returns (p: int)
    requires Valid(ix) && ix.Fusion?
    ensures p == IndexOf(Labels(ix), l)
    decreases ix, 1
  {
    var first, second := ix.first, ix.second;
    ghost var F, S := Labels(first), Labels(second);
    p := PositionOf(first, l);
    if p >= 0 {
      IndexOfAppend(F, Remainder(F, S), l);
      return;
    }
    p := NewPositionOf(first, second, l, ix);
  }

  /**
   * The scan behind a fusion's `positionOf` for a label `first` lacks: walk `second`, numbering
   * from `first.size()` the labels `first` does not hold, until the label turns up.
   */
  method NewPositionOf(first: Index, second: Index, l: Label, ghost ix: Index) returns (p: int)
    requires ix.Fusion? && ix.first == first && ix.second == second
    requires Valid(first) && Valid(second) && l !in Labels(first)
    ensures p == IndexOf(Fuse(Labels(first), Labels(second)), l)
    decreases ix, 0
  {
    ghost var F, S := Labels(first), Labels(second);
    var idx := Size(first);
    var j := 0;
    var n := Size(second);
    while j < n
      invariant 0 <= j <= n
      invariant idx == |F| + |Extra(F, S, j)|
      invariant l !in Extra(F, S, j)
    {
      var lbl := LabelAt(second, j);
      var q := PositionOf(first, lbl.value);
      if q < 0 {
        if lbl.value == l {
          FuseIndexOfNew(F, S, j);
          return idx;
        }
        idx := idx + 1;
      }
      j := j + 1;
    }
    FuseIndexOfAbsent(F, S, l);
    p := -1;
  }

  /** Reading a position back through `positionOf` gives the position again: labels are unique. */
  lemma PositionOfLabelAt(ix: Index, i: int)
    requires Valid(ix) && 0 <= i < |Labels(ix)|
    ensures IndexOf(Labels(ix), Labels(ix)[i]) == i
  {
    ValidLabels(ix);
    IndexOfDistinct(Labels(ix), i);
  }

  /** `rename(newName)`: the same labels under another name, or the index itself if unchanged. */
  function Rename(ix: Index, newName: Option<string>): (r: Result<Index>)
    requires Valid(ix)
    ensures r.Failure? <==> !ValidName(newName)
    ensures r.Failure? ==> r.error == InvalidName
    ensures r.Success? ==> Valid(r.value) && r.value.name == newName && Labels(r.value) == Labels(ix)
    ensures r.Success? && Named(ix) ==> Named(r.value)
    ensures ValidName(newName) && newName == ix.name ==> r == Success(ix)
    ensures r.Success? ==> r.value == ix.(name := newName)
  {
    if !ValidName(newName) then Failure(InvalidName)
    else if newName == ix.name then Success(ix)
    else Success(ix.(name := newName))
  }

  /** `new FusionIndex(name, first, second)`: checks the name, then counts the extra labels. */
  method NewFusionIndex(name: Option<string>, first: Index, second: Index) returns (r: Result<Index>)
    requires Valid(first) && Valid(second)
    ensures r.Failure? <==> !ValidName(name)
    ensures r.Failure? ==> r.error == InvalidName
    ensures r.Success? ==>
              Valid(r.value) && r.value.Fusion? && r.value.name == name &&
              r.value.first == first && r.value.second == second &&
              (Named(first) && Named(second) ==> Named(r.value)) &&
              Labels(r.value) == Fuse(Labels(first), Labels(second)) &&
              r.value.size == |Labels(first)| + |set l | l in Labels(second) && l !in Labels(first)|
  {
    if !ValidName(name) {
      return Failure(InvalidName);
    }
    ghost var F, S := Labels(first), Labels(second);
    var extraCount := 0;
    var j := 0;
    var n := Size(second);
    while j < n
      invariant 0 <= j <= n
      invariant extraCount == |Extra(F, S, j)|
    {
      var lbl := LabelAt(second, j);
      var p := PositionOf(first, lbl.value);
      if p < 0 {
        extraCount := extraCount + 1;
      }
      j := j + 1;
    }
    ValidLabels(second);
    FuseSize(F, S);
    r := Success(Fusion(name, first, second, Size(first) + extraCount));
  }

  /** `isEqual(other)`: the same labels in the same order, names aside. */
  method IsEqual(a: Index, b: Index) returns (eq: bool)
    requires Valid(a) && Valid(b)
    ensures eq <==> Labels(a) == Labels(b)
  {
    if a == b {
      return true;
    }
    var n := Size(a);
    if n != Size(b) {
      return false;
    }
    var i := 0;
    while i < n
      invariant 0 <= i <= n
      invariant Labels(a)[..i] == Labels(b)[..i]
    {
      var x := LabelAt(a, i);
      var y := LabelAt(b, i);
      if x != y {
        return false;
      }
      assert Labels(a)[..i + 1] == Labels(a)[..i] + [Labels(a)[i]];
      assert Labels(b)[..i + 1] == Labels(b)[..i] + [Labels(b)[i]];
      i := i + 1;
    }
    assert Labels(a)[..i] == Labels(a) && Labels(b)[..i] == Labels(b);
    return true;
  }

  /**
   * `merge(other)`: `a` itself when the labels agree, otherwise a fusion named after `a` that
   * shows the labels of `a` followed by the new labels of `b`.
   */
  method Merge(a: Index, b: Index) returns (m: Index)
    requires Valid(a) && Valid(b) && ValidName(a.name)
    ensures Valid(m) && m.name == a.name
    ensures Named(a) && Named(b) ==> Named(m)
    ensures Labels(m) == Fuse(Labels(a), Labels(b))
    ensures Labels(a) == Labels(b) ==> m == a
    ensures Labels(a) != Labels(b) ==> m.Fusion? && m.first == a && m.second == b
  {
    var eq := IsEqual(a, b);
    if eq {
      FuseSelf(Labels(a));
      return a;
    }
    var f := NewFusionIndex(a.name, a, b);
    m := f.value;
  }

  /** A merge keeps every label of both sides, and nothing else, each once. */
  lemma MergeLabels(a: Index, b: Index)
    requires Valid(a) && Valid(b)
    ensures Distinct(Fuse(Labels(a), Labels(b)))
    ensures forall l :: l in Fuse(Labels(a), Labels(b)) <==> l in Labels(a) || l in Labels(b)
    ensures Fuse(Labels(a), Labels(b))[..|Labels(a)|] == Labels(a)
  {
    ValidLabels(a);
    ValidLabels(b);
    FuseDistinct(Labels(a), Labels(b));
    RemainderMembers(Labels(a), Labels(b));
  }

  /** A merge is as large as both sides together exactly when they share no label. */
  lemma MergeDisjoint(a: Index, b: Index)
    requires Valid(a) && Valid(b)
    ensures |Fuse(Labels(a), Labels(b))| == |Labels(a)| + |Labels(b)| <==>
              forall l :: l in Labels(b) ==> l !in Labels(a)
  {
    RemainderFull(Labels(a), Labels(b));
  }

  /** The documented merge of [0, 1, 2, 5] with [0, 3, 2, 6, 9]. */
  lemma MergeExample()
    ensures var x, y := [Int(0), Int(1), Int(2), Int(5)], [Int(0), Int(3), Int(2), Int(6), Int(9)];
            Fuse(x, y) == [Int(0), Int(1), Int(2), Int(5), Int(3), Int(6), Int(9)]
  {
    var x, y := [Int(0), Int(1), Int(2), Int(5)], [Int(0), Int(3), Int(2), Int(6), Int(9)];
    assert Extra(x, y, 1) == [];
    assert Extra(x, y, 2) == [Int(3)];
    assert Extra(x, y, 3) == [Int(3)];
    assert Extra(x, y, 4) == [Int(3), Int(6)];
  }

  /** Merging the other way round gives another order: merge is not commutative. */
  lemma MergeExampleReversed()
    ensures var x, y := [Int(0), Int(1), Int(2), Int(5)], [Int(0), Int(3), Int(2), Int(6), Int(9)];
            Fuse(y, x) == [Int(0), Int(3), Int(2), Int(6), Int(9), Int(1), Int(5)] && Fuse(y, x) != Fuse(x, y)
  {
    var x, y := [Int(0), Int(1), Int(2), Int(5)], [Int(0), Int(3), Int(2), Int(6), Int(9)];
    assert Extra(y, x, 1) == [];
    assert Extra(y, x, 2) == [Int(1)];
    assert Extra(y, x, 3) == [Int(1)];
    assert Fuse(y, x)[1] != Fuse(x, y)[1];
  }

  /**
   * Java's `equals`: two array indices with equal label arrays, two progressions with the same
   * start, end and step, or two fusions with the same labels; never indices of different kinds.
   */
  ghost predicate JavaEquals(a: Index, b: Index)
    requires Valid(a) && Valid(b)
    ensures JavaEquals(a, b) ==> Labels(a) == Labels(b)
    ensures JavaEquals(a, b) ==> a.Array? == b.Array? && a.Numeric? == b.Numeric? && a.Fusion? == b.Fusion?
  {
    || (a.Array? && b.Array? && a.labels == b.labels)
    || (a.Numeric? && b.Numeric? && a.start == b.start && a.end == b.end && a.step == b.step)
    || (a.Fusion? && b.Fusion? && Labels(a) == Labels(b))
  }

  /** Same labels, different kinds: `isEqual` holds and `equals` does not. */
  lemma JavaEqualsStricter()
    ensures var a, n := Array(None, [Int(0), Int(1)]), Numeric(None, 0, 2, 1);
            Valid(a) && Valid(n) && Labels(a) == Labels(n) && !JavaEquals(a, n)
  {
    assert NumericIndex.Span(0, 2, 1) == 2;
    assert NumericIndex.Terms(0, 1, 1) == [Int(0)];
    assert NumericIndex.Terms(0, 1, 2) == [Int(0), Int(1)];
  }

  /** Same kind, same labels, different end: `equals` on progressions compares the triples. */
  lemma NumericEqualsStricter()
    ensures var m, n := Numeric(None, 0, 10, 3), Numeric(None, 0, 11, 3);
            Valid(m) && Valid(n) && Labels(m) == Labels(n) && !JavaEquals(m, n)
  {
    NumericIndex.EqualsStricterThanLabels();
  }
}

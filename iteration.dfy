/**
 * Iteration over an index, and the per-representation `equals`, which for fusions walks two
 * iterators in lockstep.
 */
module IndexIteration {
  import opened Wrappers
  import opened LabelAlgebra
  import Indices
  import ArrayIndex
  import NumericIndex

  /**
   * A consistent state of a fusion's iterator over labels `F` and `S`: the first inner
   * iterator has returned `pos1` labels, the second `pos2`, the last of them parked in `nf`
   * when it is new, and `consumed` labels have been handed out.
   */
  ghost predicate CursorAt(F: seq<Label>, S: seq<Label>, pos1: int, pos2: int, nf: Option<Label>, consumed: int) {
    0 <= pos1 <= |F| && 0 <= pos2 <= |S| &&
    (pos1 < |F| ==> pos2 == 0 && nf == None) &&
    (nf.Some? ==> 0 < pos2 && nf.value == S[pos2 - 1] && nf.value !in F) &&
    consumed == pos1 + |Extra(F, S, pos2)| - (if nf.Some? then 1 else 0)
  }

  /** Labels remain exactly when the first iterator has some or a new label is parked, once `second` is spent. */
  lemma CursorMore(F: seq<Label>, S: seq<Label>, pos1: int, pos2: int, nf: Option<Label>, consumed: int)
    requires CursorAt(F, S, pos1, pos2, nf, consumed)
    requires pos1 == |F| && nf == None ==> pos2 == |S|
    ensures 0 <= consumed <= |Fuse(F, S)|
    ensures (pos1 < |F| || nf.Some?) <==> consumed < |Fuse(F, S)|
  {
    ExtraPrefix(F, S, pos2, |S|);
  }

  /**
   * The iterator of a fusion: first every label of `first`, then each label of `second` that
   * `first` lacks, found one ahead by `hasNext` and parked in `nextFrom2`. The two inner
   * iterators are represented by how many labels each has returned.
   */
  class FusionCursor {
    const first: Indices.Index
    const second: Indices.Index
    ghost const F: seq<Label>
    ghost const S: seq<Label>
    /** The labels the iterator yields, in order. */
    ghost const fused: seq<Label>
    var pos1: int
    var pos2: int
    var nextFrom2: Option<Label>
    /** How many labels `next` has handed out so far. */
    ghost var consumed: int

    /** What never changes: the two indices, their labels and the fused sequence. */
    ghost predicate Sources() {
      Indices.Valid(first) && Indices.Valid(second) &&
      F == Indices.Labels(first) && S == Indices.Labels(second) && fused == Fuse(F, S)
    }

    ghost predicate Valid()
      reads this
    {
      CursorAt(F, S, pos1, pos2, nextFrom2, consumed)
    }

    lemma ConsumedBound()
      requires Valid() && Sources()
      ensures 0 <= consumed <= |fused|
    {
      ExtraPrefix(F, S, pos2, |S|);
    }

    constructor (first: Indices.Index, second: Indices.Index)
      requires Indices.Valid(first) && Indices.Valid(second)
      ensures Valid() && Sources() && this.first == first && this.second == second && consumed == 0
      ensures fused == Fuse(Indices.Labels(first), Indices.Labels(second))
    {
      this.first := first;
      this.second := second;
      F := Indices.Labels(first);
      S := Indices.Labels(second);
      fused := Fuse(Indices.Labels(first), Indices.Labels(second));
      pos1 := 0;
      pos2 := 0;
      nextFrom2 := None;
      consumed := 0;
    }

    /** `hasNext`: true while labels remain. It may move the second iterator ahead to the next new label. */
    method HasNext() returns (b: bool)
      requires Valid() && Sources()
      modifies this
      ensures Valid() && pos1 == old(pos1) && consumed == old(consumed)
      ensures b <==> consumed < |fused|
      ensures b ==> pos1 < |F| || nextFrom2.Some?
    {
      var fsz := Indices.Size(first);
      if pos1 == fsz && nextFrom2 == None {
        pos2, nextFrom2 := ScanNew(first, second, F, S, pos2);
      }
      CursorMore(F, S, pos1, pos2, nextFrom2, consumed);
      b := pos1 < fsz || nextFrom2.Some?;
    }

    /** `next`: the next label of the fused sequence, or the complaint that none is left. */
    method Next() returns (r: Result<Label>)
      requires Valid() && Sources()
      modifies this
      ensures Valid()
      ensures old(consumed) < |fused| ==> r == Success(fused[old(consumed)]) && consumed == old(consumed) + 1
      ensures old(consumed) == |fused| ==> r == Failure(NoSuchElement) && consumed == old(consumed)
    {
      ConsumedBound();
      var fsz := Indices.Size(first);
      if pos1 < fsz {
        r := Indices.LabelAt(first, pos1);
        pos1 := pos1 + 1;
        consumed := consumed + 1;
        return;
      }
      var more := HasNext();
      if more {
        ExtraPrefix(F, S, pos2, |S|);
        r := Success(nextFrom2.value);
        nextFrom2 := None;
        consumed := consumed + 1;
        return;
      }
      r := Failure(NoSuchElement);
    }
  }

  /**
   * The walk `hasNext` makes along `second` once `first` is spent: from position `from` to the
   * next label `first` lacks, if any.
   */
  method ScanNew(first: Indices.Index, second: Indices.Index, ghost F: seq<Label>, ghost S: seq<Label>, from: int)
    returns (j: int, found: Option<Label>)
    requires Indices.Valid(first) && Indices.Valid(second)
    requires F == Indices.Labels(first) && S == Indices.Labels(second) && 0 <= from <= |S|
    ensures from <= j <= |S|
    ensures found.None? ==> j == |S| && Extra(F, S, j) == Extra(F, S, from)
    ensures found.Some? ==> 0 < j && found.value == S[j - 1] && found.value !in F && Extra(F, S, j) == Extra(F, S, from) + [found.value]
  {
    var n := Indices.Size(second);
    j := from;
    while j < n
      invariant from <= j <= n && Extra(F, S, j) == Extra(F, S, from)
      decreases n - j
    {
      var cand := Indices.LabelAt(second, j);
      j := j + 1;
      var p := Indices.PositionOf(first, cand.value);
      if p < 0 {
        return j, Some(cand.value);
      }
    }
    return j, None;
  }

  /** Running an index's iterator to exhaustion yields its labels in order. */
  method Traverse(ix: Indices.Index) returns (s: seq<Label>)
    requires Indices.Valid(ix)
    ensures s == Indices.Labels(ix)
  {
    match ix
    case Array(_, ls) =>
      s := ArrayIndex.Iterate(ls);
    case Numeric(_, a, e, st) =>
      s := NumericIndex.Iterate(a, e, st);
    case Fusion(_, f, sec, _) =>
      var it := new FusionCursor(f, sec);
      s := Drain(it);
  }

  /** Calling `hasNext` and `next` until the iterator is spent collects what it yields. */
  method Drain(it: FusionCursor) returns (s: seq<Label>)
    requires it.Valid() && it.Sources() && it.consumed == 0
    modifies it
    ensures s == it.fused
  {
    s := [];
    var more := it.HasNext();
    while more
      invariant it.Valid() && |s| == it.consumed && SamePrefix(s, it.fused, it.consumed)
      invariant more <==> it.consumed < |it.fused|
      decreases |it.fused| - it.consumed
    {
      s := NextInto(it, s);
      more := it.HasNext();
    }
    assert s == it.fused;
  }

  /** One call of `next`, its label appended to what the iterator returned before. */
  method NextInto(it: FusionCursor, s: seq<Label>) returns (t: seq<Label>)
    requires it.Valid() && it.Sources() && it.consumed < |it.fused|
    requires |s| == it.consumed && SamePrefix(s, it.fused, it.consumed)
    modifies it
    ensures it.Valid() && it.consumed == old(it.consumed) + 1
    ensures |t| == it.consumed && SamePrefix(t, it.fused, it.consumed)
  {
    var x := it.Next();
    t := s + [x.value];
  }

  /** `equals` of the three representations (see Indices.JavaEquals). */
  method Equals(a: Indices.Index, b: Indices.Index) returns (eq: bool)
    requires Indices.Valid(a) && Indices.Valid(b)
    ensures eq <==> Indices.JavaEquals(a, b)
    ensures eq ==> Indices.Labels(a) == Indices.Labels(b)
  {
    if a == b {
      return true;
    }
    match a
    case Array(_, x) =>
      eq := b.Array? && x == b.labels;
    case Numeric(_, s, e, st) =>
      eq := b.Numeric? && s == b.start && e == b.end && st == b.step;
    case Fusion(_, _, _, size) =>
      if !b.Fusion? || size != b.size {
        return false;
      }
      eq := SameFusedLabels(a, b);
  }

  /** `X` and `Y` agree on their first `k` labels. */
  ghost predicate SamePrefix(X: seq<Label>, Y: seq<Label>, k: int) {
    0 <= k <= |X| && k <= |Y| && forall i :: 0 <= i < k ==> X[i] == Y[i]
  }

  /**
   * One round of the lockstep walk: `next` on both iterators. Equal labels extend the agreeing
   * prefix; different ones show the sequences differ.
   */
  method NextBoth(x: FusionCursor, y: FusionCursor) returns (same: bool)
    requires x.Valid() && y.Valid() && x.Sources() && y.Sources() && x != y
    requires x.consumed == y.consumed < |x.fused| == |y.fused|
    requires SamePrefix(x.fused, y.fused, x.consumed)
    modifies x, y
    ensures x.Valid() && y.Valid() && x.consumed == y.consumed == old(x.consumed) + 1
    ensures same ==> SamePrefix(x.fused, y.fused, x.consumed)
    ensures !same ==> x.fused != y.fused
  {
    var u := x.Next();
    var v := y.Next();
    same := u == v;
  }

  /** A fusion's `equals` after the size test: two iterators compared label by label. */
  method SameFusedLabels(a: Indices.Index, b: Indices.Index) returns (eq: bool)
    requires Indices.Valid(a) && Indices.Valid(b) && a.Fusion? && b.Fusion?
    requires |Indices.Labels(a)| == |Indices.Labels(b)|
    ensures eq <==> Indices.Labels(a) == Indices.Labels(b)
  {
    var x := new FusionCursor(a.first, a.second);
    var y := new FusionCursor(b.first, b.second);
    eq := Lockstep(x, y);
  }

  /** The loop of a fusion's `equals`: both iterators advanced together until one label differs. */
  method Lockstep(x: FusionCursor, y: FusionCursor) returns (eq: bool)
    requires x.Valid() && y.Valid() && x.Sources() && y.Sources() && x != y
    requires x.consumed == y.consumed == 0 && |x.fused| == |y.fused|
    modifies x, y
    ensures eq <==> x.fused == y.fused
  {
    var more := x.HasNext();
    while more
      invariant x.Valid() && y.Valid() && x.consumed == y.consumed
      invariant SamePrefix(x.fused, y.fused, x.consumed)
      invariant more <==> x.consumed < |x.fused|
      decreases |x.fused| - x.consumed
    {
      var same := NextBoth(x, y);
      if !same {
        return false;
      }
      more := x.HasNext();
    }
    assert x.fused == y.fused;
    return true;
  }
}

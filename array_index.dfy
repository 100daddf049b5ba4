/** The algorithms of an index backed by an explicit label array. */
module ArrayIndex {
  import opened Wrappers
  import opened LabelAlgebra

  /** The first `k` labels are all present and pairwise distinct. */
  predicate CleanPrefix(labels: seq<Option<Label>>, k: int)
    requires 0 <= k <= |labels|
  {
    None !in labels[..k] && Distinct(labels[..k])
  }

  /**
   * The constructor's scan: every label must be non-null and not seen before. Fails with the
   * complaint about the first offending label, or returns the labels unwrapped.
   */
  method CheckLabels(labels: seq<Option<Label>>) returns (r: Result<seq<Label>>)
    ensures r.Success? <==> None !in labels && Distinct(labels)
    ensures r.Success? ==> |r.value| == |labels| && forall i :: 0 <= i < |labels| ==> labels[i] == Some(r.value[i])
    ensures r.Failure? ==> r.error == NullLabel || r.error == DuplicateLabels
    ensures r == Failure(NullLabel) ==>
      exists k :: 0 <= k < |labels| && CleanPrefix(labels, k) && labels[k] == None
    ensures r == Failure(DuplicateLabels) ==>
      exists k :: 0 <= k < |labels| && CleanPrefix(labels, k) && labels[k] != None && labels[k] in labels[..k]
  {
    var seen: set<Label> := {};
    var out: seq<Label> := [];
    var i := 0;
    while i < |labels|
      invariant 0 <= i <= |labels|
      invariant CleanPrefix(labels, i)
      invariant |out| == i && forall k :: 0 <= k < i ==> labels[k] == Some(out[k])
      invariant seen == set k | 0 <= k < i :: out[k]
    {
      assert labels[..i + 1] == labels[..i] + [labels[i]];
      match labels[i]
      case None =>
        return Failure(NullLabel);
      case Some(l) =>
        if l in seen {
          assert labels[i] in labels[..i] by {
            var k :| 0 <= k < i && out[k] == l;
            assert labels[..i][k] == labels[i];
          }
          return Failure(DuplicateLabels);
        }
        seen := seen + {l};
        out := out + [l];
      i := i + 1;
    }
    assert labels[..i] == labels;
    return Success(out);
  }

  /** `labelAt`: the label stored at `pos`; a position outside [0, length) is out of range. */
  function LabelAt(labels: seq<Label>, pos: int): (r: Result<Label>)
    ensures r.Success? <==> 0 <= pos < |labels|
    ensures r.Success? ==> r.value == labels[pos] && r.value in labels
    ensures r.Failure? ==> r.error == OutOfRange
  {
    if pos < 0 || pos >= |labels| then Failure(OutOfRange) else Success(labels[pos])
  }

  /** The linear scan of `positionOf`: the position of the first label equal to `l`, or -1. */
  method PositionOf(labels: seq<Label>, l: Label) returns (p: int)
    ensures p == IndexOf(labels, l)
  {
    var i := 0;
    while i < |labels|
      invariant 0 <= i <= |labels|
      invariant l !in labels[..i]
    {
      if labels[i] == l {
        return i;
      }
      assert labels[..i + 1] == labels[..i] + [labels[i]];
      i := i + 1;
    }
    assert labels[..i] == labels;
    return -1;
  }

  /** The iterator over an array index: a cursor into the label array. */
  class Cursor {
    const labels: seq<Label>
    var index: nat

    ghost predicate Valid()
      reads this
    {
      index <= |labels|
    }

    constructor (labels: seq<Label>)
      ensures Valid() && this.labels == labels && index == 0
    {
      this.labels := labels;
      index := 0;
    }

    /** Under the invariant, `hasNext` holds exactly while some label is still to be returned. */
    predicate HasNext()
      reads this
      ensures Valid() ==> (HasNext() <==> labels[index..] != [])
    {
      index < |labels|
    }

    method Next() returns (r: Result<Label>)
      requires Valid()
      modifies this
      ensures Valid()
      ensures old(index) < |labels| ==> r == Success(labels[old(index)]) && index == old(index) + 1
      ensures old(index) == |labels| ==> r == Failure(NoSuchElement) && index == old(index)
    {
      if !HasNext() {
        return Failure(NoSuchElement);
      }
      r := Success(labels[index]);
      index := index + 1;
    }
  }

  /** Running the iterator to exhaustion yields exactly the labels, in order. */
  method Iterate(labels: seq<Label>) returns (s: seq<Label>)
    ensures s == labels
  {
    var it := new Cursor(labels);
    s := [];
    while it.HasNext()
      invariant it.Valid() && it.labels == labels
      invariant s == labels[..it.index]
      decreases |labels| - it.index
    {
      var x := it.Next();
      s := s + [x.value];
    }
    assert labels[..it.index] == labels;
  }
}

/** The arithmetic of an index whose labels are the progression start, start + step, ... (end excluded). */
module NumericIndex {
  import opened Wrappers
  import opened LabelAlgebra
  import opened JavaInt

  /** The exact length of the progression, ceil(|end - start| / |step|), computed in `long`. */
  function Span(start: int, end: int, step: int): nat
    requires step != 0
  {
    (Abs(end - start) + Abs(step) - 1) / Abs(step)
  }

  /**
   * `computeSize`: the span narrowed back to `int` by the cast. A span that fits is kept; a longer
   * one, possible only between far-apart int bounds, comes out negative.
   */
  function ComputeSize(start: int, end: int, step: int): (r: int)
    requires step != 0
    ensures IsInt(r)
    ensures Span(start, end, step) <= MAX_INT ==> r == Span(start, end, step)
    ensures IsInt(start) && IsInt(end) && Span(start, end, step) > MAX_INT ==>
              r == Span(start, end, step) - 0x1_0000_0000 < 0
  {
    SpanBound(start, end, step);
    ToInt(Span(start, end, step))
  }

  /** The representation invariant of a numeric index (its name aside). */
  ghost predicate ValidProgression(start: int, end: int, step: int) {
    IsInt(start) && IsInt(end) && IsInt(step) &&
    step != 0 && (end - start) * step >= 0 && ComputeSize(start, end, step) > 0
  }

  /**
   * The constructor's checks, in their order: the complaint it throws, or None. The sign test
   * multiplies the span and the step as mathematical integers (see CheckAsWritten).
   */
  function Check(start: int, end: int, step: int): (r: Option<Error>)
    requires IsInt(start) && IsInt(end) && IsInt(step)
    ensures r.None? <==> ValidProgression(start, end, step)
    ensures r == Some(ZeroStep) <==> step == 0
    ensures r == Some(InconsistentStep) <==> step != 0 && (end - start) * step < 0
    ensures r.Some? ==> r.value in {ZeroStep, InconsistentStep, EmptyRange}
  {
    if step == 0 then Some(ZeroStep)
    else if (end - start) * step < 0 then Some(InconsistentStep)
    else if ComputeSize(start, end, step) <= 0 then Some(EmptyRange)
    else None
  }

  /** An empty range has no terms, whatever the step. */
  lemma SpanEmpty(start: int, step: int)
    ensures step != 0 ==> Span(start, start, step) == 0
  {
    assert step != 0 ==> Abs(step) - 1 < Abs(step);
  }

  /** The span never exceeds |end - start|. */
  lemma SpanBound(start: int, end: int, step: int)
    requires step != 0
    ensures Span(start, end, step) <= Abs(end - start)
  {
    CeilDivBound(Abs(end - start), Abs(step));
  }

  lemma CeilDivBound(d: nat, s: int)
    requires s >= 1
    ensures (d + s - 1) / s <= d
  {
    var q := (d + s - 1) / s;
    assert q * s <= d + s - 1;
    MulMono(d + 1, q, s);
    MulMono(1, s, d);
    assert (d + 1) * s == d * s + s;
  }

  /** For a valid triple the cast loses nothing: the size is the span, positive, and fits in an int. */
  lemma SizeIsSpan(start: int, end: int, step: int)
    requires ValidProgression(start, end, step)
    ensures ComputeSize(start, end, step) == Span(start, end, step)
    ensures 0 < Span(start, end, step) <= MAX_INT
  {
  }

  /** The first `n` terms start, start + step, ... of the progression. */
  function Terms(start: int, step: int, n: nat): (r: seq<Label>)
    ensures |r| == n
  {
    if n == 0 then [] else Terms(start, step, n - 1) + [Int(start + (n - 1) * step)]
  }

  lemma {:induction false} TermsAt(start: int, step: int, n: nat, i: int)
    requires 0 <= i < n
    ensures Terms(start, step, n)[i] == Int(start + i * step)
  {
    if i < n - 1 {
      TermsAt(start, step, n - 1, i);
    }
  }

  /** The abstract index: the first `size` terms of the progression. */
  function Labels(start: int, end: int, step: int): (r: seq<Label>)
    requires ValidProgression(start, end, step)
    ensures |r| == ComputeSize(start, end, step)
  {
    SizeIsSpan(start, end, step);
    Terms(start, step, Span(start, end, step))
  }

  /** The label at position `i` is the `i`-th term. */
  lemma LabelsTerms(start: int, end: int, step: int)
    requires ValidProgression(start, end, step)
    ensures forall i :: 0 <= i < |Labels(start, end, step)| ==> Labels(start, end, step)[i] == Int(start + i * step)
  {
    SizeIsSpan(start, end, step);
    forall i | 0 <= i < |Labels(start, end, step)| {
      TermsAt(start, step, Span(start, end, step), i);
    }
  }

  /** `labelAt`: the term at `pos`, when `pos` lies in [0, size). */
  function LabelAt(start: int, end: int, step: int, pos: int): (r: Result<Label>)
    requires ValidProgression(start, end, step)
    ensures r == if 0 <= pos < |Labels(start, end, step)| then Success(Labels(start, end, step)[pos])
                 else Failure(OutOfRange)
  {
    LabelsTerms(start, end, step);
    if pos < 0 || pos >= ComputeSize(start, end, step) then Failure(OutOfRange)
    else Success(Int(start + pos * step))
  }

  /**
   * `positionOf`: a non-integer label, a label on the wrong side of `start` or off the step,
   * and a term past the end are all absent. The quotient is kept in `long` (see PositionOfAsWritten).
   */
  function PositionOf(start: int, end: int, step: int, l: Label): (r: int)
    requires ValidProgression(start, end, step)
    ensures r == -1 || (0 <= r < |Labels(start, end, step)| && Labels(start, end, step)[r] == l)
  {
    LabelsTerms(start, end, step);
    match l
    case Int(v) =>
      var delta := v - start;
      if delta * step < 0 || Rem(delta, step) != 0 then -1
      else
        DivExact(delta, step);
        var p := Div(delta, step);
        if p < ComputeSize(start, end, step) then p else -1
    case _ => -1
  }

  /** Below the span, the multiples of |step| stay short of |end - start|. */
  lemma SpanMul(start: int, end: int, step: int, i: nat)
    requires step != 0 && i < Span(start, end, step)
    ensures i * Abs(step) < Abs(end - start)
  {
    var d, s := Abs(end - start), Abs(step);
    var q := Span(start, end, step);
    assert q * s <= d + s - 1;
    MulMono(i, q - 1, s);
    assert (q - 1) * s == q * s - s;
  }

  lemma MulMono(a: int, b: int, s: nat)
    ensures a <= b ==> a * s <= b * s
  {
    assert b * s - a * s == (b - a) * s;
  }

  /** Every term of the progression lies between `start` (included) and `end` (excluded). */
  lemma LabelInRange(start: int, end: int, step: int, i: int)
    requires ValidProgression(start, end, step) && 0 <= i < Span(start, end, step)
    ensures step > 0 ==> start <= start + i * step < end
    ensures step < 0 ==> end < start + i * step <= start
  {
    SpanMul(start, end, step, i);
    assert step > 0 ==> end - start >= 0 by {
      assert step > 0 && end - start < 0 ==> (end - start) * step < 0;
    }
    assert step < 0 ==> end - start <= 0 by {
      assert step < 0 && end - start > 0 ==> (end - start) * step < 0;
    }
    assert step < 0 ==> i * step == -(i * Abs(step));
  }

  /** Round trip: the position of the term at `i` is `i`. */
  lemma PositionOfLabel(start: int, end: int, step: int, i: int)
    requires ValidProgression(start, end, step) && 0 <= i < Span(start, end, step)
    ensures PositionOf(start, end, step, Int(start + i * step)) == i
  {
    SizeIsSpan(start, end, step);
    DivMultiple(i, step);
    assert i * step * step >= 0 by {
      assert i * step * step == i * (step * step);
    }
  }

  /** `positionOf` agrees with the abstract index: it finds each label and reports -1 for the rest. */
  lemma PositionOfSpec(start: int, end: int, step: int, l: Label)
    requires ValidProgression(start, end, step)
    ensures PositionOf(start, end, step, l) == IndexOf(Labels(start, end, step), l)
  {
    var ls := Labels(start, end, step);
    LabelsDistinct(start, end, step);
    LabelsTerms(start, end, step);
    SizeIsSpan(start, end, step);
    if l in ls {
      var i :| 0 <= i < |ls| && ls[i] == l;
      PositionOfLabel(start, end, step, i);
      IndexOfDistinct(ls, i);
    }
  }

  /** The terms of a progression are pairwise distinct. */
  lemma LabelsDistinct(start: int, end: int, step: int)
    requires ValidProgression(start, end, step)
    ensures Distinct(Labels(start, end, step))
  {
    var ls := Labels(start, end, step);
    LabelsTerms(start, end, step);
    forall i, j | 0 <= i < j < |ls|
      ensures ls[i] != ls[j]
    {
      SizeIsSpan(start, end, step);
      PositionOfLabel(start, end, step, i);
      PositionOfLabel(start, end, step, j);
    }
  }

  /** Two different triples with the same labels (which `equals`, comparing triples, tells apart). */
  lemma EqualsStricterThanLabels()
    ensures ValidProgression(0, 10, 3) && ValidProgression(0, 11, 3)
    ensures Labels(0, 10, 3) == Labels(0, 11, 3) == [Int(0), Int(3), Int(6), Int(9)]
  {
    assert Span(0, 10, 3) == 4 && Span(0, 11, 3) == 4;
    LabelsTerms(0, 10, 3);
    LabelsTerms(0, 11, 3);
  }

  // Behaviour as written

  /**
   * The constructor's checks as the source writes them: `(long) (end - start) * step` subtracts
   * in `int`, so the span wraps around before it is widened.
   */
  function CheckAsWritten(start: int, end: int, step: int): Option<Error>
    requires IsInt(start) && IsInt(end) && IsInt(step)
  {
    if step == 0 then Some(ZeroStep)
    else if ToInt(end - start) * step < 0 then Some(InconsistentStep)
    else if ComputeSize(start, end, step) <= 0 then Some(EmptyRange)
    else None
  }

  /**
   * The wrapped sign test rejects the valid ascending range -2, 0, 2, ... up to Integer.MAX_VALUE,
   * and accepts a range from Integer.MAX_VALUE down to -2 with a positive step.
   */
  lemma CheckAsWrittenOverflows()
    ensures ValidProgression(-2, MAX_INT, 2) && CheckAsWritten(-2, MAX_INT, 2) == Some(InconsistentStep)
    ensures !ValidProgression(MAX_INT, -2, 2) && CheckAsWritten(MAX_INT, -2, 2) == None
  {
    assert ToInt(MAX_INT + 2) == MIN_INT + 1;
    assert ToInt(-2 - MAX_INT) == MAX_INT;
    assert Span(-2, MAX_INT, 2) == 0x4000_0001;
    assert Span(MAX_INT, -2, 2) == 0x4000_0001;
  }

  /**
   * With the span widened before the multiplication, the two triples of CheckAsWrittenOverflows
   * get the verdicts their ranges call for.
   */
  lemma CheckCorrected()
    ensures Check(-2, MAX_INT, 2) == None && ValidProgression(-2, MAX_INT, 2)
    ensures Check(MAX_INT, -2, 2) == Some(InconsistentStep)
  {
    assert Span(-2, MAX_INT, 2) == 0x4000_0001;
  }

  /**
   * A range of more than Integer.MAX_VALUE terms has no int size: the cast makes it negative and
   * the constructor rejects it as empty.
   */
  lemma CheckTooLong()
    ensures ComputeSize(MIN_INT, MAX_INT, 1) == -1
    ensures Check(MIN_INT, MAX_INT, 1) == Some(EmptyRange)
  {
    assert Span(MIN_INT, MAX_INT, 1) == 0xFFFF_FFFF;
  }

  /** `positionOf` as the source writes it: `(int) (delta / step)` narrows the quotient. */
  function PositionOfAsWritten(start: int, end: int, step: int, l: Label): int
    requires ValidProgression(start, end, step)
  {
    match l
    case Int(v) =>
      var delta := v - start;
      if delta * step < 0 || Rem(delta, step) != 0 then -1
      else
        var p := ToInt(Div(delta, step));
        if p < ComputeSize(start, end, step) then p else -1
    case _ => -1
  }

  /**
   * On the ten labels from Integer.MIN_VALUE, the label Integer.MAX_VALUE - 1 is absent, yet the
   * narrowed quotient is -2, which passes the `p < size()` test: callers that test `== -1` then
   * index the value array at -2.
   */
  lemma PositionOfAsWrittenWraps()
    ensures ValidProgression(MIN_INT, MIN_INT + 10, 1)
    ensures Int(MAX_INT - 1) !in Labels(MIN_INT, MIN_INT + 10, 1)
    ensures PositionOfAsWritten(MIN_INT, MIN_INT + 10, 1, Int(MAX_INT - 1)) == -2
    ensures PositionOf(MIN_INT, MIN_INT + 10, 1, Int(MAX_INT - 1)) == -1
  {
    assert Span(MIN_INT, MIN_INT + 10, 1) == 10;
    assert Div(MAX_INT - 1 - MIN_INT, 1) == 0xFFFF_FFFE;
    PositionOfSpec(MIN_INT, MIN_INT + 10, 1, Int(MAX_INT - 1));
  }

  // Iteration

  /** The iterator over a numeric index: a position and the running value. */
  class Cursor {
    const start: int
    const step: int
    const size: int
    var index: int
    var value: int

    ghost predicate Valid()
      reads this
    {
      0 <= index <= size && value == start + index * step
    }

    constructor (start: int, end: int, step: int)
      requires ValidProgression(start, end, step)
      ensures Valid() && index == 0
      ensures this.start == start && this.step == step && size == ComputeSize(start, end, step)
    {
      this.start := start;
      this.step := step;
      size := ComputeSize(start, end, step);
      index := 0;
      value := start;
    }

    /** Under the invariant, `hasNext` fails exactly once the position has reached the size. */
    predicate HasNext()
      reads this
      ensures Valid() ==> (HasNext() <==> index != size)
    {
      index < size
    }

    method Next() returns (r: Result<Label>)
      requires Valid()
      modifies this
      ensures Valid()
      ensures old(index) < size ==> r == Success(Int(start + old(index) * step)) && index == old(index) + 1
      ensures old(index) == size ==> r == Failure(NoSuchElement) && index == old(index)
    {
      if !HasNext() {
        return Failure(NoSuchElement);
      }
      var v := value;
      value := value + step;
      index := index + 1;
      return Success(Int(v));
    }
  }

  /** Running the iterator to exhaustion yields exactly `size` terms, in progression order. */
  method Iterate(start: int, end: int, step: int) returns (s: seq<Label>)
    requires ValidProgression(start, end, step)
    ensures s == Labels(start, end, step)
  {
    var ls := Labels(start, end, step);
    LabelsTerms(start, end, step);
    var it := new Cursor(start, end, step);
    s := [];
    while it.HasNext()
      invariant it.Valid() && it.start == start && it.step == step && it.size == |ls|
      invariant s == ls[..it.index]
      decreases it.size - it.index
    {
      var x := it.Next();
      s := s + [x.value];
    }
    assert ls[..it.index] == ls;
  }
}

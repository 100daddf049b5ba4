/** Labels and the sequence algebra behind index fusion. */
module LabelAlgebra {

  /**
   * A label: a non-null value identifying a row or a column position. The library
   * accepts any `Object`; the model closes the type to the kinds its clients use,
   * and numeric indices need the integer kind.
   */
  datatype Label = Int(n: int) | Text(s: string) | Bool(b: bool)

  predicate Distinct<T(==)>(s: seq<T>) {
    forall i, j :: 0 <= i < j < |s| ==> s[i] != s[j]
  }

  /** Position of the first occurrence of `x` in `s`, or -1 when it is absent. */
  function IndexOf<T(==)>(s: seq<T>, x: T): (r: int)
    ensures -1 <= r < |s|
    ensures r >= 0 ==> s[r] == x && x !in s[..r]
    ensures r == -1 <==> x !in s
  {
    if s == [] then -1
    else if s[0] == x then 0
    else
      var k := IndexOf(s[1..], x);
      if k < 0 then -1
      else
        assert s[..k + 1] == [s[0]] + s[1..][..k];
        k + 1
  }

  /** In a duplicate-free sequence, the position of the label at `i` is `i`. */
  lemma IndexOfDistinct<T>(s: seq<T>, i: int)
    requires Distinct(s) && 0 <= i < |s|
    ensures IndexOf(s, s[i]) == i
  {
  }

  /** A position holding `x` with no earlier `x` is the position `IndexOf` reports. */
  lemma IndexOfFirst<T>(s: seq<T>, x: T, i: int)
    requires 0 <= i < |s| && s[i] == x && x !in s[..i]
    ensures IndexOf(s, x) == i
  {
  }

  /** A label of `a` is found in `a + b` where it is found in `a`. */
  lemma IndexOfAppend<T>(a: seq<T>, b: seq<T>, x: T)
    requires x in a
    ensures IndexOf(a + b, x) == IndexOf(a, x)
  {
    var i := IndexOf(a, x);
    assert (a + b)[..i] == a[..i];
    IndexOfFirst(a + b, x, i);
  }

  /** The labels among the first `j` of `second` that do not occur in `first`, in their order. */
  function Extra<T(==)>(first: seq<T>, second: seq<T>, j: nat): (r: seq<T>)
    requires j <= |second|
    ensures |r| <= j
  {
    if j == 0 then []
    else Extra(first, second, j - 1) + (if second[j - 1] in first then [] else [second[j - 1]])
  }

  /** The labels of `second` that do not occur in `first`, in their order in `second`. */
  function Remainder<T(==)>(first: seq<T>, second: seq<T>): seq<T> {
    Extra(first, second, |second|)
  }

  /** The fused sequence: all of `first`, then what `second` adds to it. */
  function Fuse<T(==)>(first: seq<T>, second: seq<T>): seq<T> {
    first + Remainder(first, second)
  }

  /** The extra labels of a prefix are exactly its labels that `first` lacks. */
  lemma {:induction false} ExtraMembers<T(!new)>(first: seq<T>, second: seq<T>, j: nat)
    requires j <= |second|
    ensures forall x :: x in Extra(first, second, j) <==> x in second[..j] && x !in first
  {
    if j > 0 {
      assert second[..j] == second[..j - 1] + [second[j - 1]];
      ExtraMembers(first, second, j - 1);
    }
  }

  /** The remainder holds exactly the labels of `second` that `first` lacks. */
  lemma RemainderMembers<T(!new)>(first: seq<T>, second: seq<T>)
    ensures forall x :: x in Remainder(first, second) <==> x in second && x !in first
  {
    ExtraMembers(first, second, |second|);
    assert second[..|second|] == second;
  }

  /** Scanning further only appends: the extra labels of a prefix begin those of a longer one. */
  lemma {:induction false} ExtraPrefix<T>(first: seq<T>, second: seq<T>, j: nat, k: nat)
    requires j <= k <= |second|
    ensures Extra(first, second, j) <= Extra(first, second, k)
    decreases k
  {
    if j < k {
      ExtraPrefix(first, second, j, k - 1);
    }
  }

  lemma {:induction false} ExtraDistinct<T(!new)>(first: seq<T>, second: seq<T>, j: nat)
    requires Distinct(second) && j <= |second|
    ensures Distinct(Extra(first, second, j))
  {
    if j > 0 {
      ExtraDistinct(first, second, j - 1);
      ExtraMembers(first, second, j - 1);
      assert second[j - 1] !in second[..j - 1];
    }
  }

  /** Fusing two duplicate-free sequences gives a duplicate-free sequence. */
  lemma FuseDistinct<T(!new)>(first: seq<T>, second: seq<T>)
    requires Distinct(first) && Distinct(second)
    ensures Distinct(Fuse(first, second))
  {
    ExtraDistinct(first, second, |second|);
    RemainderMembers(first, second);
    var r := Remainder(first, second);
    forall i, j | 0 <= i < j < |first + r|
      ensures (first + r)[i] != (first + r)[j]
    {
      if i < |first| <= j {
        assert (first + r)[j] == r[j - |first|] && r[j - |first|] in r;
      }
    }
  }

  lemma {:induction false} ExtraEmpty<T>(first: seq<T>, second: seq<T>, j: nat)
    requires j <= |second| && forall i :: 0 <= i < j ==> second[i] in first
    ensures Extra(first, second, j) == []
  {
    if j > 0 {
      ExtraEmpty(first, second, j - 1);
    }
  }

  /** Fusing a sequence with itself adds nothing. */
  lemma FuseSelf<T>(s: seq<T>)
    ensures Fuse(s, s) == s
  {
    ExtraEmpty(s, s, |s|);
  }

  /**
   * A label of `second` outside `first` that is not among the extra labels of the first `j`
   * sits just after them in the fused sequence.
   */
  lemma FuseIndexOfNew<T>(first: seq<T>, second: seq<T>, j: nat)
    requires j < |second| && second[j] !in first && second[j] !in Extra(first, second, j)
    ensures IndexOf(Fuse(first, second), second[j]) == |first| + |Extra(first, second, j)|
  {
    ExtraPrefix(first, second, j + 1, |second|);
    var fused, k := Fuse(first, second), |first| + |Extra(first, second, j)|;
    assert fused[..k] == first + Extra(first, second, j);
    IndexOfFirst(fused, second[j], k);
  }

  /** A label in neither `first` nor its remainder is absent from the fused sequence. */
  lemma FuseIndexOfAbsent<T>(first: seq<T>, second: seq<T>, x: T)
    requires x !in first && x !in Remainder(first, second)
    ensures IndexOf(Fuse(first, second), x) == -1
  {
  }

  /** The extra labels number `j` exactly when `first` holds none of the first `j`. */
  lemma {:induction false} ExtraFull<T>(first: seq<T>, second: seq<T>, j: nat)
    requires j <= |second|
    ensures |Extra(first, second, j)| == j <==> forall i :: 0 <= i < j ==> second[i] !in first
  {
    if j > 0 {
      ExtraFull(first, second, j - 1);
    }
  }

  /** The remainder keeps every label of `second` exactly when the two share none. */
  lemma RemainderFull<T>(first: seq<T>, second: seq<T>)
    ensures |Remainder(first, second)| == |second| <==> forall x :: x in second ==> x !in first
  {
    ExtraFull(first, second, |second|);
  }

  /** No element of `second` occurs in `first`. */
  predicate Disjoint<T(==)>(first: seq<T>, second: seq<T>) {
    forall x :: x in second ==> x !in first
  }

  lemma {:induction false} ExtraDisjoint<T>(first: seq<T>, second: seq<T>, j: nat)
    requires j <= |second| && forall i :: 0 <= i < j ==> second[i] !in first
    ensures Extra(first, second, j) == second[..j]
  {
    if j > 0 {
      ExtraDisjoint(first, second, j - 1);
      assert second[..j] == second[..j - 1] + [second[j - 1]];
    }
  }

  /** Fusing sequences that share nothing concatenates them. */
  lemma FuseDisjoint<T>(first: seq<T>, second: seq<T>)
    requires Disjoint(first, second)
    ensures Fuse(first, second) == first + second
  {
    ExtraDisjoint(first, second, |second|);
    assert second[..|second|] == second;
  }

  /** The number of extra labels counts the distinct labels of the prefix absent from `first`. */
  lemma {:induction false} ExtraCount<T(!new)>(first: seq<T>, second: seq<T>, j: nat)
    requires Distinct(second) && j <= |second|
    ensures |Extra(first, second, j)| == |set x | x in second[..j] && x !in first|
  {
    if j == 0 {
      assert (set x | x in second[..j] && x !in first) == {};
    } else {
      ExtraCount(first, second, j - 1);
      var last := second[j - 1];
      var before := set x | x in second[..j - 1] && x !in first;
      var after := set x | x in second[..j] && x !in first;
      assert second[..j] == second[..j - 1] + [last];
      assert last !in second[..j - 1];
      if last in first {
        assert after == before;
      } else {
        assert after == before + {last};
      }
    }
  }

  /** The size law of fusion: `first` plus as many labels as `second` has outside `first`. */
  lemma FuseSize<T(!new)>(first: seq<T>, second: seq<T>)
    requires Distinct(second)
    ensures |Fuse(first, second)| == |first| + |set x | x in second && x !in first|
  {
    ExtraCount(first, second, |second|);
    assert second[..|second|] == second;
  }

  /** Two duplicate-free sequences that share nothing concatenate to a duplicate-free one. */
  lemma DistinctConcat<T>(first: seq<T>, second: seq<T>)
    requires Distinct(first) && Distinct(second) && Disjoint(first, second)
    ensures Distinct(first + second)
  {
    forall i, j | 0 <= i < j < |first + second|
      ensures (first + second)[i] != (first + second)[j]
    {
      if i < |first| <= j {
        assert (first + second)[j] == second[j - |first|] && second[j - |first|] in second;
      }
    }
  }
}

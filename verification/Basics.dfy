/** Small datatypes shared by every module. */
module Basics {

  datatype Option<+T> = None | Some(value: T)

  /** An operation that either yields a value or fails; the text of the error is not modelled. */
  datatype Result<+T> = Ok(value: T) | Err

  /** An octet. */
  type byte = x: int | 0 <= x < 256

  const U32_MAX := 0xffff_ffff
  const U64_RANGE := 0x1_0000_0000_0000_0000

  predicate NoDuplicates<T(==)>(s: seq<T>) {
    forall i, j :: 0 <= i < j < |s| ==> s[i] != s[j]
  }

  lemma SubsetOfSameSize<T>(a: set<T>, b: set<T>)
    requires a <= b && |a| == |b|
    ensures a == b
  {
    if a != b {
      var x :| x in b && x !in a;
      assert a <= b - {x};
      SubsetIsSmaller(a, b - {x});
    }
  }

  lemma SubsetIsSmaller<T>(a: set<T>, b: set<T>)
    requires a <= b
    ensures |a| <= |b|
    decreases |b|
  {
    if a != {} {
      var x :| x in a;
      SubsetIsSmaller(a - {x}, b - {x});
    }
  }
}

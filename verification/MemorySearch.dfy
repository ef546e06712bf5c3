/** memory_utils_memfind. */
module MemorySearch {
  import opened MemoryUtilsCodes

  /** The needle occurs in full at this offset. */
  predicate OccursAt<T(==)>(haystack: seq<T>, needle: seq<T>, offset: nat) {
    offset + |needle| <= |haystack| && haystack[offset..offset + |needle|] == needle
  }

  /** A null pointer counts as an empty sequence: the code refuses both in the same way. The result is the
      smallest offset at which the needle occurs, and NotFound exactly when there is none. */
  method MemFind<T(==)>(haystack: seq<T>, needle: seq<T>) returns (code: Code, offset: nat)
    ensures code == Invalid <==> haystack == [] || needle == []
    ensures code == Success ==> OccursAt(haystack, needle, offset)
                                && forall i :: 0 <= i < offset ==> !OccursAt(haystack, needle, i)
    ensures code == NotFound ==> forall i :: 0 <= i ==> !OccursAt(haystack, needle, i)
    ensures code in {Invalid, Success, NotFound}
  {
    offset := 0;
    if haystack == [] || needle == [] {
      return Invalid, 0;
    }
    if |needle| > |haystack| {
      return NotFound, 0;
    }
    var i := 0;
    while i <= |haystack| - |needle|
      invariant forall k :: 0 <= k < i ==> !OccursAt(haystack, needle, k)
    {
      var found := true;
      var j := 0;
      while j < |needle|
        invariant j <= |needle| && found
        invariant haystack[i..i + j] == needle[..j]
      {
        if haystack[i + j] != needle[j] {
          found := false;
          assert haystack[i..i + |needle|][j] != needle[j];
          break;
        }
        assert haystack[i..i + j + 1] == haystack[i..i + j] + [haystack[i + j]];
        assert needle[..j + 1] == needle[..j] + [needle[j]];
        j := j + 1;
      }
      if found {
        return Success, i;
      }
      i := i + 1;
    }
    code := NotFound;
  }
}

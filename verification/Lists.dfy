/** Kernel lists and linked lists as sequences. */
module Lists {

  /** The first-match search over a list: the position of the first element with the property, or |s|. */
  function IndexWhere<T>(s: seq<T>, found: T -> bool): (i: nat)
    ensures i <= |s|
    ensures i < |s| ==> found(s[i])
    ensures forall j :: 0 <= j < i ==> !found(s[j])
  {
    IndexFrom(s, found, 0)
  }

  /** The same from position i on. */
  function IndexFrom<T>(s: seq<T>, found: T -> bool, i: nat): (k: nat)
    requires i <= |s|
    ensures i <= k <= |s|
    ensures k < |s| ==> found(s[k])
    ensures forall j :: i <= j < k ==> !found(s[j])
    decreases |s| - i
  {
    if i == |s| || found(s[i]) then i else IndexFrom(s, found, i + 1)
  }

  /** The list after the element at position i is unlinked. */
  function Without<T>(s: seq<T>, i: nat): (r: seq<T>)
    requires i < |s|
    ensures |r| == |s| - 1 && forall j :: 0 <= j < |r| ==> r[j] == s[if j < i then j else j + 1]
  {
    s[..i] + s[i + 1..]
  }

  lemma WithoutTail<T>(s: seq<T>, i: nat)
    requires 0 < i < |s|
    ensures Without(s, i) == [s[0]] + Without(s[1..], i - 1)
    ensures Without(s, i)[1..] == Without(s[1..], i - 1)
  {}

  /** The other elements stay. */
  lemma WithoutKeeps<T>(s: seq<T>, i: nat, j: nat)
    requires i < |s| && j < |s| && j != i
    ensures s[j] in Without(s, i)
  {
    assert Without(s, i)[if j < i then j else j - 1] == s[j];
  }

  function Max(a: int, b: int): int {
    if a > b then a else b
  }
}

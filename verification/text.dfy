/** Python's `sub in s` on strings: substring search. */
module Text {

  /** `sub` occurs in `s` at position i. */
  predicate OccursAt(s: string, sub: string, i: nat) {
    i + |sub| <= |s| && s[i..i + |sub|] == sub
  }

  predicate Contains(s: string, sub: string) {
    exists i: nat | i <= |s| :: OccursAt(s, sub, i)
  }

  /** `str.find`: the first position of `sub` in `s`, or -1. */
  function Find(s: string, sub: string): (r: int)
    ensures -1 <= r <= |s|
    ensures r >= 0 <==> Contains(s, sub)
    ensures r >= 0 ==> OccursAt(s, sub, r) && forall j: nat | j < r :: !OccursAt(s, sub, j)
  {
    FindFrom(s, sub, 0)
  }

  function FindFrom(s: string, sub: string, k: nat): (r: int)
    requires k <= |s|
    requires forall j: nat | j < k :: !OccursAt(s, sub, j)
    ensures -1 <= r <= |s|
    ensures r >= 0 <==> Contains(s, sub)
    ensures r >= 0 ==> k <= r && OccursAt(s, sub, r) && forall j: nat | j < r :: !OccursAt(s, sub, j)
    decreases |s| - k
  {
    if OccursAt(s, sub, k) then k
    else if k == |s| then
      assert forall j: nat | j <= |s| :: !OccursAt(s, sub, j);
      -1
    else FindFrom(s, sub, k + 1)
  }
}

/** Sub-lists: what a filter keeps of a list. */
module Lists {
  /** r is s with some of its elements left out and the others kept in their order. */
  predicate SubList<T(==)>(r: seq<T>, s: seq<T>)
    decreases |s|
  {
    if r == [] then true
    else if s == [] then false
    else (r[|r| - 1] == s[|s| - 1] && SubList(r[..|r| - 1], s[..|s| - 1])) || SubList(r, s[..|s| - 1])
  }

  /** Keeping or leaving out one more element at the end keeps a sub-list. */
  lemma SubListSnoc<T>(r: seq<T>, s: seq<T>, x: T, keep: bool)
    requires SubList(r, s)
    ensures SubList(r + (if keep then [x] else []), s + [x])
  {
    var s' := s + [x];
    assert s'[..|s'| - 1] == s;
    if keep {
      var r' := r + [x];
      assert r'[..|r'| - 1] == r;
    } else {
      assert r + [] == r;
    }
  }
}

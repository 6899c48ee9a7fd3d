/** Small shared vocabulary: an optional value and facts about id sequences. */
module Common {

  /** A value that may be absent (Python's `None`). */
  datatype Option<+T> = None | Some(value: T)

  /** No element occurs twice in `s`. */
  predicate NoDuplicates<T(==)>(s: seq<T>)
  {
    forall i, j :: 0 <= i < j < |s| ==> s[i] != s[j]
  }

  /** `order` lists every key of `keys` exactly once: the insertion order of a Python dict. */
  predicate Enumerates(order: seq<int>, keys: set<int>)
  {
    NoDuplicates(order) && (forall k :: k in order ==> k in keys) && (forall k :: k in keys ==> k in order)
  }

  /** Looks a key up in a string-keyed map, falling back to `default` (Python's `dict.get`). */
  function GetOr(m: map<string, int>, key: string, default: int): (r: int)
    ensures key in m ==> r == m[key]
    ensures key !in m ==> r == default
  {
    if key in m then m[key] else default
  }

  /** An insertion order is as long as the registry it lists. */
  lemma {:induction false} EnumeratesSize(order: seq<int>, keys: set<int>)
    requires Enumerates(order, keys)
    ensures |order| == |keys|
    decreases |order|
  {
    if order != [] {
      var last := order[|order| - 1];
      var front := order[..|order| - 1];
      assert order == front + [last];
      assert last !in front;
      assert Enumerates(front, keys - {last});
      EnumeratesSize(front, keys - {last});
      assert keys == (keys - {last}) + {last};
    } else {
      assert forall k :: k !in keys;
      assert keys == {};
    }
  }

  /**
   * `r` is `s` with some elements left out and the rest in their order: matched greedily from
   * the back, each element of `r` is found, in turn, at or before the previous match.
   */
  predicate Subsequence<T(==)>(r: seq<T>, s: seq<T>)
    decreases |s|
  {
    if r == [] then true
    else if s == [] then false
    else if r[|r| - 1] == s[|s| - 1] then Subsequence(r[..|r| - 1], s[..|s| - 1])
    else Subsequence(r, s[..|s| - 1])
  }

  /** Leaving out the last element of a subsequence keeps it a subsequence. */
  lemma {:induction false} SubsequenceDropLast<T>(r: seq<T>, s: seq<T>)
    requires r != [] && Subsequence(r, s)
    ensures Subsequence(r[..|r| - 1], s)
    decreases |s|
  {
    var r', s' := r[..|r| - 1], s[..|s| - 1];
    if r[|r| - 1] == s[|s| - 1] {
      assert Subsequence(r', s');
    } else {
      SubsequenceDropLast(r, s');
    }
    if r' != [] && r'[|r'| - 1] == s[|s| - 1] {
      SubsequenceDropLast(r', s');
    }
  }

  /** Appending to the sequence keeps a subsequence; appending the same element to both does too. */
  lemma SubsequenceSnoc<T>(r: seq<T>, s: seq<T>, x: T)
    requires Subsequence(r, s)
    ensures Subsequence(r, s + [x])
    ensures Subsequence(r + [x], s + [x])
  {
    assert (s + [x])[..|s|] == s;
    assert (r + [x])[..|r|] == r;
    if r != [] && r[|r| - 1] == x {
      SubsequenceDropLast(r, s);
    }
  }

  lemma NoDuplicatesAppend<T>(s: seq<T>, x: T)
    requires NoDuplicates(s) && x !in s
    ensures NoDuplicates(s + [x])
  {
  }
}

/** `Array.prototype.sort` with a comparator: a stable insertion sort in
    place, proved against the key the comparator compares by. */
module Sorting {
  import opened Ordering

  /** Every element of `s` is one the comparator compares by key. */
  ghost predicate AllOk<T>(ok: T -> bool, s: seq<T>)
  {
    forall i :: 0 <= i < |s| ==> ok(s[i])
  }

  /** On the elements `ok` admits, `cmp(x, y)` is the difference of their
      keys: negative when `x` goes first, positive when `y` does. */
  ghost predicate KeyComparator<T(!new)>(cmp: (T, T) -> int, key: T -> int, ok: T -> bool)
  {
    forall x, y :: ok(x) && ok(y) ==> cmp(x, y) == key(x) - key(y)
  }

  /** Exchanges the elements at `j - 1` and `j`. */
  method SwapDown<T>(a: array<T>, j: int)
    requires 0 < j < a.Length
    modifies a
    ensures a[..] == old(a[..])[j - 1 := old(a[j])][j := old(a[j - 1])]
    ensures multiset(a[..]) == multiset(old(a[..]))
  {
    a[j - 1], a[j] := a[j], a[j - 1];
  }

  /** Stable insertion sort in place: each element moves left past the
      elements the comparator puts strictly after it, and stops at the first
      one it does not. When the comparator is a key comparison on every
      element, the result is in key order and each key's elements keep
      their input order. */
  method InsertionSort<T(!new)>(cmp: (T, T) -> int, ghost key: T -> int, ghost ok: T -> bool, a: array<T>)
    requires KeyComparator(cmp, key, ok)
    modifies a
    ensures multiset(a[..]) == multiset(old(a[..]))
    ensures AllOk(ok, old(a[..])) ==> SortedBy(key, a[..])
    ensures AllOk(ok, old(a[..])) ==> StableFor(key, a[..], old(a[..]))
  {
    ghost var keyed := AllOk(ok, a[..]);
    var i := 0;
    while i < a.Length
      invariant 0 <= i <= a.Length
      invariant multiset(a[..]) == multiset(old(a[..]))
      invariant a[i..] == old(a[..])[i..]
      invariant keyed ==> AllOk(ok, a[..])
      invariant keyed ==> SortedBy(key, a[..i])
      invariant keyed ==> StableFor(key, a[..i], old(a[..])[..i])
    {
      InsertAt(cmp, key, ok, a, i, keyed, old(a[..]));
      i := i + 1;
    }
    assert a[..a.Length] == a[..];
    assert old(a[..])[..a.Length] == old(a[..]);
  }

  /** One pass of the insertion sort: the element at `i` moves left past the
      elements whose key is strictly larger, so the prefix up to `i` is in
      key order and each key's elements keep their order from `input`. */
  method InsertAt<T(!new)>(cmp: (T, T) -> int, ghost key: T -> int, ghost ok: T -> bool, a: array<T>, i: int,
                     ghost keyed: bool, ghost input: seq<T>)
    requires KeyComparator(cmp, key, ok)
    requires 0 <= i < a.Length == |input|
    requires a[i..] == input[i..]
    requires keyed ==> AllOk(ok, a[..])
    requires keyed ==> SortedBy(key, a[..i])
    requires keyed ==> StableFor(key, a[..i], input[..i])
    modifies a
    ensures multiset(a[..]) == multiset(old(a[..]))
    ensures a[i + 1..] == input[i + 1..]
    ensures keyed ==> AllOk(ok, a[..])
    ensures keyed ==> SortedBy(key, a[..i + 1])
    ensures keyed ==> StableFor(key, a[..i + 1], input[..i + 1])
  {
    if keyed {
      InsertStart(key, a[..], i);
    }
    ghost var rest := a[..i];
    ghost var x := a[i];
    var j := SiftDown(cmp, key, ok, a, i, keyed);
    if keyed {
      assert rest == a[..j] + a[j + 1..i + 1] by {
        ShiftedRest(a[..], old(a[..]), i, j);
      }
      InsertFinish(key, a[..], i, j, rest, input[..i]);
      assert a[..][..i + 1] == a[..i + 1];
      assert input[..i + 1] == input[..i] + [x];
    }
  }

  /** The inner loop: the element at `i` is exchanged with its left
      neighbour while the comparator puts that neighbour strictly after it.
      It ends at `j`, having shifted the elements from `j` to `i - 1` one
      place right. */
  method SiftDown<T(!new)>(cmp: (T, T) -> int, ghost key: T -> int, ghost ok: T -> bool, a: array<T>, i: int,
                           ghost keyed: bool) returns (j: int)
    requires KeyComparator(cmp, key, ok)
    requires 0 <= i < a.Length
    requires keyed ==> AllOk(ok, a[..])
    requires keyed ==> SortedExcept(key, a[..], i, i) && BelowRight(key, a[..], i, i)
    modifies a
    ensures 0 <= j <= i
    ensures multiset(a[..]) == multiset(old(a[..]))
    ensures Shifted(a[..], old(a[..]), i, j)
    ensures keyed ==> AllOk(ok, a[..])
    ensures keyed ==> SortedExcept(key, a[..], i, j) && BelowRight(key, a[..], i, j)
    ensures keyed ==> j == 0 || key(a[j - 1]) <= key(a[j])
  {
    j := i;
    while j > 0 && cmp(a[j - 1], a[j]) > 0
      invariant 0 <= j <= i
      invariant multiset(a[..]) == multiset(old(a[..]))
      invariant Shifted(a[..], old(a[..]), i, j)
      invariant keyed ==> AllOk(ok, a[..])
      invariant keyed ==> SortedExcept(key, a[..], i, j) && BelowRight(key, a[..], i, j)
    {
      if keyed {
        assert ok(a[j - 1]) && ok(a[j]);
        InsertStep(key, a[..], i, j);
        SwapKeepsOk(ok, a[..], j);
      }
      ShiftStep(a[..], old(a[..]), i, j);
      SwapDown(a, j);
      j := j - 1;
    }
    if keyed && j > 0 {
      assert ok(a[j - 1]) && ok(a[j]);
    }
  }

  /** `s` is `orig` with the element at `i` taken out and put back at `j`:
      what lies before `j` and after `i` is in place, and what lay from `j`
      to `i - 1` sits one place further right. */
  ghost predicate Shifted<T>(s: seq<T>, orig: seq<T>, i: int, j: int)
  {
    0 <= j <= i < |orig| == |s| && s[i + 1..] == orig[i + 1..] && s[j] == orig[i] &&
    (forall k :: 0 <= k < j ==> s[k] == orig[k]) &&
    (forall k :: j < k <= i ==> s[k] == orig[k - 1])
  }

  /** Exchanging the element at `j` with its left neighbour moves it one
      place further left. */
  lemma ShiftStep<T>(s: seq<T>, orig: seq<T>, i: int, j: int)
    requires 0 < j && Shifted(s, orig, i, j)
    ensures Shifted(s[j - 1 := s[j]][j := s[j - 1]], orig, i, j - 1)
  {
    var t := s[j - 1 := s[j]][j := s[j - 1]];
    assert t[i + 1..] == s[i + 1..];
  }

  /** Without the element at `j`, the prefix up to `i` is the prefix of
      `orig` before `i`. */
  lemma ShiftedRest<T>(s: seq<T>, orig: seq<T>, i: int, j: int)
    requires Shifted(s, orig, i, j)
    ensures orig[..i] == s[..j] + s[j + 1..i + 1]
  {
  }

  /** Exchanging two neighbours keeps every element admitted. */
  lemma SwapKeepsOk<T>(ok: T -> bool, s: seq<T>, j: int)
    requires 0 < j < |s| && AllOk(ok, s)
    ensures AllOk(ok, s[j - 1 := s[j]][j := s[j - 1]])
  {
  }
}

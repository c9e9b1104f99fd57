/** Ordering of a sequence by an integer key, and the facts a stable
    insertion sort and the uniqueness of a sorted arrangement rest on. */
module Ordering {

  /** Keys never decrease along `s`. */
  ghost predicate SortedBy<T>(key: T -> int, s: seq<T>)
  {
    forall i, j :: 0 <= i < j < |s| ==> key(s[i]) <= key(s[j])
  }

  /** Keys strictly increase along `s`. */
  ghost predicate StrictlySortedBy<T>(key: T -> int, s: seq<T>)
  {
    forall i, j :: 0 <= i < j < |s| ==> key(s[i]) < key(s[j])
  }

  /** `s[..hi + 1]` without the element at `hole` is in key order. */
  ghost predicate SortedExcept<T>(key: T -> int, s: seq<T>, hi: int, hole: int)
    requires hi < |s|
  {
    forall p, q :: 0 <= p < q <= hi && p != hole && q != hole ==> key(s[p]) <= key(s[q])
  }

  /** The element at `hole` has a strictly smaller key than everything to
      its right up to `hi`. */
  ghost predicate BelowRight<T>(key: T -> int, s: seq<T>, hi: int, hole: int)
    requires 0 <= hole && hi < |s|
  {
    forall q :: hole < q <= hi ==> key(s[hole]) < key(s[q])
  }

  /** The elements of `s` whose key is `v`, in their order in `s`. */
  ghost function WithKey<T>(key: T -> int, v: int, s: seq<T>): (r: seq<T>)
    ensures |r| <= |s|
  {
    if s == [] then []
    else (if key(s[0]) == v then [s[0]] else []) + WithKey(key, v, s[1..])
  }

  /** `s` and `t` list the elements of each key in the same order: what a
      stable sort keeps between its input and its output. */
  ghost predicate StableFor<T>(key: T -> int, s: seq<T>, t: seq<T>)
  {
    forall v :: WithKey(key, v, s) == WithKey(key, v, t)
  }

  /** When every element has key `v`, selecting key `v` keeps them all. */
  lemma {:induction false} WithKeyAll<T>(key: T -> int, v: int, s: seq<T>)
    requires forall i :: 0 <= i < |s| ==> key(s[i]) == v
    ensures WithKey(key, v, s) == s
    decreases |s|
  {
    if s != [] {
      WithKeyAll(key, v, s[1..]);
      assert s == [s[0]] + s[1..];
    }
  }

  /** Under a key that is the same for every element, agreeing key by key
      means being equal: a stable sort by such a key changes nothing. */
  lemma StableConstantKey<T>(key: T -> int, v: int, s: seq<T>, t: seq<T>)
    requires forall i :: 0 <= i < |s| ==> key(s[i]) == v
    requires forall i :: 0 <= i < |t| ==> key(t[i]) == v
    requires StableFor(key, s, t)
    ensures s == t
  {
    WithKeyAll(key, v, s);
    WithKeyAll(key, v, t);
    assert WithKey(key, v, s) == WithKey(key, v, t);
  }

  /** Two elements with the same key come out of a stable sort in the
      order they went in. */
  lemma TiedPairKeepsOrder<T>(key: T -> int, s: seq<T>, x: T, y: T)
    requires key(x) == key(y)
    requires multiset(s) == multiset([x, y])
    requires StableFor(key, s, [x, y])
    ensures s == [x, y]
  {
    forall i | 0 <= i < |s| ensures key(s[i]) == key(x) {
      assert s[i] in multiset([x, y]);
    }
    StableConstantKey(key, key(x), s, [x, y]);
  }

  /** Selecting one key distributes over concatenation. */
  lemma {:induction false} WithKeyConcat<T>(key: T -> int, v: int, s: seq<T>, t: seq<T>)
    ensures WithKey(key, v, s + t) == WithKey(key, v, s) + WithKey(key, v, t)
    decreases |s|
  {
    if s != [] {
      WithKeyConcat(key, v, s[1..], t);
      assert (s + t)[1..] == s[1..] + t;
    } else {
      assert s + t == t;
    }
  }

  /** Elements whose keys are all above `v` contribute nothing to key `v`. */
  lemma {:induction false} WithKeyAbove<T>(key: T -> int, v: int, s: seq<T>)
    requires forall q :: 0 <= q < |s| ==> v < key(s[q])
    ensures WithKey(key, v, s) == []
    decreases |s|
  {
    if s != [] {
      WithKeyAbove(key, v, s[1..]);
    }
  }

  /** Appending the same element to two lists that agree key by key keeps
      them agreeing. */
  lemma StableAppend<T>(key: T -> int, s: seq<T>, t: seq<T>, x: T)
    requires StableFor(key, s, t)
    ensures StableFor(key, s + [x], t + [x])
  {
    forall v ensures WithKey(key, v, s + [x]) == WithKey(key, v, t + [x]) {
      WithKeyConcat(key, v, s, [x]);
      WithKeyConcat(key, v, t, [x]);
    }
  }

  /** Putting `x` in front of a run of strictly larger keys, rather than
      after it, keeps every key's elements in the same order. */
  lemma InsertStable<T>(key: T -> int, s: seq<T>, j: int, rest: seq<T>)
    requires 0 <= j < |s|
    requires rest == s[..j] + s[j + 1..]
    requires forall q :: j < q < |s| ==> key(s[j]) < key(s[q])
    ensures StableFor(key, s, rest + [s[j]])
  {
    var x := s[j];
    assert s == s[..j] + ([x] + s[j + 1..]);
    forall v ensures WithKey(key, v, s) == WithKey(key, v, rest + [x]) {
      WithKeyConcat(key, v, s[..j], [x] + s[j + 1..]);
      WithKeyConcat(key, v, [x], s[j + 1..]);
      WithKeyConcat(key, v, s[..j], s[j + 1..]);
      WithKeyConcat(key, v, rest, [x]);
      if v == key(x) {
        WithKeyAbove(key, v, s[j + 1..]);
      }
    }
  }

  /** When the element at the hole `j` is not below its left neighbour,
      the prefix up to `i` is in key order and, key by key, in the order of
      `input` extended by that element. */
  lemma InsertFinish<T>(key: T -> int, s: seq<T>, i: int, j: int, rest: seq<T>, input: seq<T>)
    requires 0 <= j <= i < |s|
    requires SortedExcept(key, s, i, j) && BelowRight(key, s, i, j)
    requires j == 0 || key(s[j - 1]) <= key(s[j])
    requires rest == s[..j] + s[j + 1..i + 1]
    requires StableFor(key, rest, input)
    ensures SortedBy(key, s[..i + 1])
    ensures StableFor(key, s[..i + 1], input + [s[j]])
  {
    InsertDone(key, s, i, j);
    var p := s[..i + 1];
    assert p[..j] + p[j + 1..] == rest;
    InsertStable(key, p, j, rest);
    StableAppend(key, rest, input, s[j]);
  }

  /** Exchanging the element at the hole with its left neighbour, which has
      the larger key, moves the hole one step left and keeps the rest in
      order. */
  lemma InsertStep<T>(key: T -> int, s: seq<T>, i: int, j: int)
    requires 0 < j <= i < |s|
    requires SortedExcept(key, s, i, j) && BelowRight(key, s, i, j)
    requires key(s[j - 1]) > key(s[j])
    ensures SortedExcept(key, s[j - 1 := s[j]][j := s[j - 1]], i, j - 1)
    ensures BelowRight(key, s[j - 1 := s[j]][j := s[j - 1]], i, j - 1)
  {
  }

  /** Once the element at the hole is not below its left neighbour, the
      prefix up to `i` is in order. */
  lemma InsertDone<T>(key: T -> int, s: seq<T>, i: int, j: int)
    requires 0 <= j <= i < |s|
    requires SortedExcept(key, s, i, j) && BelowRight(key, s, i, j)
    requires j == 0 || key(s[j - 1]) <= key(s[j])
    ensures SortedBy(key, s[..i + 1])
  {
    forall p, q | 0 <= p < q <= i ensures key(s[p]) <= key(s[q]) {
      if q == j && p < j - 1 {
        assert key(s[p]) <= key(s[j - 1]);
      }
    }
  }

  /** Extending a sorted prefix by one element leaves a hole at its end. */
  lemma InsertStart<T>(key: T -> int, s: seq<T>, i: int)
    requires 0 <= i < |s|
    requires SortedBy(key, s[..i])
    ensures SortedExcept(key, s, i, i) && BelowRight(key, s, i, i)
  {
    forall p, q | 0 <= p < q <= i && p != i && q != i ensures key(s[p]) <= key(s[q]) {
      assert s[p] == s[..i][p] && s[q] == s[..i][q];
    }
  }

  /** Two arrangements of the same elements, one sorted and one strictly
      sorted, start with the same element. */
  lemma SameFirst<T>(key: T -> int, s: seq<T>, t: seq<T>)
    requires multiset(s) == multiset(t) && |s| > 0
    requires SortedBy(key, s) && StrictlySortedBy(key, t)
    ensures |t| > 0 && s[0] == t[0]
  {
    assert s[0] in multiset(t);
    var k :| 0 <= k < |t| && t[k] == s[0];
    assert t[0] in multiset(s);
    var m :| 0 <= m < |s| && s[m] == t[0];
    assert key(s[0]) <= key(s[m]);
  }

  /** Removing the same first element from two arrangements of the same
      elements leaves arrangements of the same elements. */
  lemma SameRest<T>(s: seq<T>, t: seq<T>)
    requires multiset(s) == multiset(t) && |s| > 0 && |t| > 0 && s[0] == t[0]
    ensures multiset(s[1..]) == multiset(t[1..])
  {
    assert s == [s[0]] + s[1..] && t == [t[0]] + t[1..];
    assert multiset(s[1..]) == multiset(s) - multiset{s[0]};
    assert multiset(t[1..]) == multiset(t) - multiset{t[0]};
  }

  /** A sorted arrangement is unique when some arrangement of the same
      elements is strictly sorted: it is that one. */
  lemma {:induction false} SortedUnique<T>(key: T -> int, s: seq<T>, t: seq<T>)
    requires multiset(s) == multiset(t)
    requires SortedBy(key, s) && StrictlySortedBy(key, t)
    ensures s == t
    decreases |s|
  {
    if |s| == 0 {
      assert |t| == |multiset(t)| == 0;
    } else {
      SameFirst(key, s, t);
      SameRest(s, t);
      SortedUnique(key, s[1..], t[1..]);
      assert s == [s[0]] + s[1..] && t == [t[0]] + t[1..];
    }
  }

  /** `t` is strictly sorted when its keys are the strictly increasing
      `keys`. */
  lemma StrictlySortedByKeys<T>(key: T -> int, t: seq<T>, keys: seq<int>)
    requires |keys| == |t|
    requires forall i :: 0 <= i < |t| ==> key(t[i]) == keys[i]
    requires forall i :: 0 < i < |keys| ==> keys[i - 1] < keys[i]
    ensures StrictlySortedBy(key, t)
  {
    forall i, j | 0 <= i < j < |t| ensures key(t[i]) < key(t[j]) {
      StrictlyIncreasing(keys, i, j);
    }
  }

  /** Adjacent increases add up to an increase. */
  lemma {:induction false} StrictlyIncreasing(keys: seq<int>, i: int, j: int)
    requires forall k :: 0 < k < |keys| ==> keys[k - 1] < keys[k]
    requires 0 <= i < j < |keys|
    ensures keys[i] < keys[j]
    decreases j - i
  {
    if i + 1 < j {
      StrictlyIncreasing(keys, i + 1, j);
    }
  }

  /** `t` lists the elements of `s` at the distinct positions `p`. */
  ghost predicate PicksAll<T>(s: seq<T>, t: seq<T>, p: seq<int>)
  {
    |p| == |t| == |s| &&
    (forall i :: 0 <= i < |p| ==> 0 <= p[i] < |s| && t[i] == s[p[i]]) &&
    (forall i, j :: 0 <= i < j < |p| ==> p[i] != p[j])
  }

  /** The positions `p` once the position `k` has been taken out. */
  function Renumber(p: seq<int>, k: int): seq<int>
  {
    seq(|p|, i requires 0 <= i < |p| => if p[i] < k then p[i] else p[i] - 1)
  }

  /** Listing every position of `s` once, in any order, keeps the elements. */
  lemma {:induction false} PicksAllSame<T>(s: seq<T>, t: seq<T>, p: seq<int>)
    requires PicksAll(s, t, p)
    ensures multiset(t) == multiset(s)
    decreases |s|
  {
    if |s| > 0 {
      var n := |p| - 1;
      var k := p[n];
      var s' := s[..k] + s[k + 1..];
      var t' := t[..n];
      var p' := Renumber(p[..n], k);
      forall i | 0 <= i < |p'| ensures 0 <= p'[i] < |s'| && t'[i] == s'[p'[i]] {
        assert p[i] != k;
      }
      forall i, j | 0 <= i < j < |p'| ensures p'[i] != p'[j] {
        assert p[i] != k && p[j] != k && p[i] != p[j];
      }
      PicksAllSame(s', t', p');
      assert s == s[..k] + [s[k]] + s[k + 1..];
      assert t == t' + [t[n]];
    }
  }
}

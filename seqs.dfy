/** Ruby's `reject`, `map` and `sort!` by an integer key, on sequences. */
module Seqs {

  /** The elements of s that satisfy p, in their order in s (Ruby's `reject` of the
      negation of p). */
  function Filter<T(!new)>(s: seq<T>, p: T -> bool): (r: seq<T>)
    ensures |r| <= |s|
    ensures forall x :: x in r <==> x in s && p(x)
  {
    if s == [] then []
    else if p(s[0]) then [s[0]] + Filter(s[1..], p)
    else Filter(s[1..], p)
  }

  /** The key of each element, in order. */
  function Keys<T>(s: seq<T>, key: T -> int): seq<int>
  {
    seq(|s|, i requires 0 <= i < |s| => key(s[i]))
  }

  lemma KeysAt<T>(s: seq<T>, key: T -> int, i: nat)
    requires i < |s|
    ensures |Keys(s, key)| == |s| && Keys(s, key)[i] == key(s[i])
  {
  }

  ghost predicate SortedBy<T>(s: seq<T>, key: T -> int)
  {
    forall i, j :: 0 <= i < j < |s| ==> key(s[i]) <= key(s[j])
  }

  /** Insertion of x into a sequence sorted by key. */
  function Insert<T>(x: T, s: seq<T>, key: T -> int): (r: seq<T>)
    ensures multiset(r) == multiset(s) + multiset{x}
    ensures |r| == |s| + 1 && (r[0] == x || (s != [] && r[0] == s[0]))
  {
    if s == [] then [x]
    else if key(x) <= key(s[0]) then [x] + s
    else
      assert s == [s[0]] + s[1..];
      [s[0]] + Insert(x, s[1..], key)
  }

  lemma {:induction false} InsertSorted<T>(x: T, s: seq<T>, key: T -> int)
    requires SortedBy(s, key)
    ensures SortedBy(Insert(x, s, key), key)
  {
    if s != [] && key(x) > key(s[0]) {
      var t := Insert(x, s[1..], key);
      assert SortedBy(s[1..], key);
      InsertSorted(x, s[1..], key);
      assert key(s[0]) <= key(t[0]);
      var r := [s[0]] + t;
      forall i, j | 0 <= i < j < |r| ensures key(r[i]) <= key(r[j]) {
        if i > 0 {
          assert r[i] == t[i - 1] && r[j] == t[j - 1];
        } else {
          assert r[j] == t[j - 1];
          assert key(t[0]) <= key(t[j - 1]) || j == 1;
        }
      }
    }
  }

  /** A sort of s by key. Ruby's `sort!` is not stable; this one is, and
      SortedKeysUnique shows that the keys come out the same either way. */
  function SortBy<T>(s: seq<T>, key: T -> int): (r: seq<T>)
    ensures multiset(r) == multiset(s)
    ensures SortedBy(r, key)
  {
    if s == [] then []
    else
      assert s == [s[0]] + s[1..];
      InsertSorted(s[0], SortBy(s[1..], key), key);
      Insert(s[0], SortBy(s[1..], key), key)
  }

  /** Filtering keeps every copy of an element that satisfies p and no copy of one
      that does not. */
  lemma {:induction false} FilterCount<T(!new)>(s: seq<T>, p: T -> bool, y: T)
    ensures multiset(Filter(s, p))[y] == if p(y) then multiset(s)[y] else 0
  {
    if s != [] {
      FilterCount(s[1..], p, y);
      assert s == [s[0]] + s[1..];
    }
  }

  /** Filtering sees only the multiset of its input. */
  lemma FilterMultiset<T(!new)>(a: seq<T>, b: seq<T>, p: T -> bool)
    requires multiset(a) == multiset(b)
    ensures multiset(Filter(a, p)) == multiset(Filter(b, p))
  {
    forall y ensures multiset(Filter(a, p))[y] == multiset(Filter(b, p))[y] {
      FilterCount(a, p, y);
      FilterCount(b, p, y);
    }
  }

  /** The keys of a sequence depend only on its multiset of elements. */
  lemma {:induction false} KeysMultiset<T>(a: seq<T>, b: seq<T>, key: T -> int)
    requires multiset(a) == multiset(b)
    ensures multiset(Keys(a, key)) == multiset(Keys(b, key))
    decreases |a|
  {
    if a == [] {
      assert |multiset(b)| == 0;
    } else {
      assert a[0] in multiset(b);
      var j :| 0 <= j < |b| && b[j] == a[0];
      var b' := b[..j] + b[j + 1..];
      RemoveSame(a, b, j);
      KeysMultiset(a[1..], b', key);
      KeysRemove(b, j, key);
      KeysRemove(a, 0, key);
      assert a[..0] + a[1..] == a[1..];
    }
  }

  /** Removing one copy of the same element from two sequences with equal multisets
      leaves equal multisets. */
  lemma RemoveSame<T>(a: seq<T>, b: seq<T>, j: nat)
    requires a != [] && j < |b| && b[j] == a[0] && multiset(a) == multiset(b)
    ensures multiset(a[1..]) == multiset(b[..j] + b[j + 1..])
  {
    MultisetRemove(b, j);
    assert a == [a[0]] + a[1..];
    Cancel(a[0], multiset(a[1..]), multiset(b[..j] + b[j + 1..]));
  }

  lemma Cancel<T>(v: T, a: multiset<T>, b: multiset<T>)
    requires multiset{v} + a == multiset{v} + b
    ensures a == b
  {
    forall w ensures a[w] == b[w] {
      assert (multiset{v} + a)[w] == (multiset{v} + b)[w];
    }
  }

  /** Removing the element at j removes one copy of it. */
  lemma MultisetRemove<T>(s: seq<T>, j: nat)
    requires j < |s|
    ensures multiset(s) == multiset{s[j]} + multiset(s[..j] + s[j + 1..])
  {
    assert s == s[..j] + [s[j]] + s[j + 1..];
  }

  lemma KeysRemove<T>(s: seq<T>, j: nat, key: T -> int)
    requires j < |s|
    ensures multiset(Keys(s, key)) == multiset{key(s[j])} + multiset(Keys(s[..j] + s[j + 1..], key))
  {
    var k := Keys(s, key);
    assert Keys(s[..j] + s[j + 1..], key) == k[..j] + k[j + 1..];
    MultisetRemove(k, j);
  }

  /** Each element is at most the next one. */
  predicate Ascending(x: seq<int>)
    decreases |x|
  {
    |x| <= 1 || (x[0] <= x[1] && Ascending(x[1..]))
  }

  /** The first element of an ascending sequence is its least element. */
  lemma {:induction false} AscendingHeadLeast(x: seq<int>, v: int)
    requires x != [] && Ascending(x) && v in x
    ensures x[0] <= v
    decreases |x|
  {
    if v != x[0] {
      assert v in x[1..];
      AscendingHeadLeast(x[1..], v);
    }
  }

  /** The keys of a sequence sorted by key ascend. */
  lemma {:induction false} SortedKeysAscend<T>(s: seq<T>, key: T -> int)
    requires SortedBy(s, key)
    ensures Ascending(Keys(s, key))
    decreases |s|
  {
    if |s| > 1 {
      assert SortedBy(s[1..], key) by {
        forall i, j | 0 <= i < j < |s| - 1 ensures key(s[1..][i]) <= key(s[1..][j]) {
          assert s[1..][i] == s[i + 1] && s[1..][j] == s[j + 1];
        }
      }
      SortedKeysAscend(s[1..], key);
      assert Keys(s, key)[1..] == Keys(s[1..], key);
    }
  }

  /** Two ascending integer sequences with the same elements are equal. */
  lemma {:induction false} AscendingUnique(x: seq<int>, y: seq<int>)
    requires multiset(x) == multiset(y)
    requires Ascending(x) && Ascending(y)
    ensures x == y
    decreases |x|
  {
    if x == [] {
      assert |multiset(y)| == 0;
    } else {
      assert y != [] by { assert x[0] in multiset(y); }
      assert y[0] in multiset(x) && x[0] in multiset(y);
      AscendingHeadLeast(x, y[0]);
      AscendingHeadLeast(y, x[0]);
      RemoveSame(x, y, 0);
      assert y[..0] + y[1..] == y[1..];
      AscendingUnique(x[1..], y[1..]);
      assert x == [x[0]] + x[1..];
      assert y == [y[0]] + y[1..];
    }
  }

  /** However ties are broken, sorting a multiset of elements by key yields one key
      sequence. */
  lemma SortedKeysUnique<T>(a: seq<T>, b: seq<T>, key: T -> int)
    requires multiset(a) == multiset(b)
    requires SortedBy(a, key) && SortedBy(b, key)
    ensures Keys(a, key) == Keys(b, key)
  {
    KeysMultiset(a, b, key);
    SortedKeysAscend(a, key);
    SortedKeysAscend(b, key);
    AscendingUnique(Keys(a, key), Keys(b, key));
  }
}

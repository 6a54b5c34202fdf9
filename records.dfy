/** Sequences of records identified by an integer key, as the two in-memory
    stores keep them: lookup by key (`find`/`findIndex`), removal at an index
    (`splice`), and ordering by a timestamp key (`sort`). */
module Records {

  datatype Option<+T> = None | Some(value: T)

  /** No two records of `s` share a key. */
  ghost predicate KeysDistinct<T>(s: seq<T>, key: T -> int) {
    forall i, j :: 0 <= i < j < |s| ==> key(s[i]) != key(s[j])
  }

  /** Every key in `s` lies in [1, bound). */
  ghost predicate KeysInRange<T>(s: seq<T>, key: T -> int, bound: int) {
    forall x :: x in s ==> 1 <= key(x) < bound
  }

  /** No element occurs twice in `s`. */
  ghost predicate NoDuplicates<T>(s: seq<T>) {
    forall i, j :: 0 <= i < j < |s| ==> s[i] != s[j]
  }

  /** `s` is ordered from the largest key to the smallest. */
  ghost predicate SortedDesc<T>(s: seq<T>, key: T -> int) {
    forall i, j :: 0 <= i < j < |s| ==> key(s[i]) >= key(s[j])
  }

  /** Position of the first record whose key is `k`, or -1 (`findIndex`). */
  function IndexOfKey<T>(s: seq<T>, key: T -> int, k: int): (i: int)
    ensures -1 <= i < |s|
    ensures 0 <= i ==> key(s[i]) == k && forall j :: 0 <= j < i ==> key(s[j]) != k
    ensures i == -1 <==> forall j :: 0 <= j < |s| ==> key(s[j]) != k
  {
    if s == [] then -1
    else if key(s[0]) == k then 0
    else
      var i := IndexOfKey(s[1..], key, k);
      if i == -1 then -1 else i + 1
  }

  /** The first record whose key is `k`, if any (`find`). */
  function FindByKey<T>(s: seq<T>, key: T -> int, k: int): (r: Option<T>)
    ensures r.Some? <==> exists x :: x in s && key(x) == k
    ensures r.Some? ==> r.value in s && key(r.value) == k
    ensures r.Some? ==>
      exists i :: 0 <= i < |s| && s[i] == r.value && forall j :: 0 <= j < i ==> key(s[j]) != k
  {
    var i := IndexOfKey(s, key, k);
    if i < 0 then None else Some(s[i])
  }

  /** The linear scan behind `findIndex`. */
  method FindIndex<T>(s: seq<T>, key: T -> int, k: int) returns (i: int)
    ensures i == IndexOfKey(s, key, k)
  {
    i := 0;
    while i < |s| && key(s[i]) != k
      invariant 0 <= i <= |s|
      invariant forall j :: 0 <= j < i ==> key(s[j]) != k
    {
      i := i + 1;
    }
    if i == |s| {
      i := -1;
    }
  }

  /** Position of the first occurrence of `x`, or -1 (`indexOf`). */
  function IndexOf<T(==)>(s: seq<T>, x: T): (i: int)
    ensures -1 <= i < |s|
    ensures 0 <= i ==> s[i] == x && x !in s[..i]
    ensures i == -1 <==> x !in s
  {
    if s == [] then -1
    else if s[0] == x then 0
    else
      var i := IndexOf(s[1..], x);
      assert 0 <= i ==> s[..i + 1] == [s[0]] + s[1..][..i];
      if i == -1 then -1 else i + 1
  }

  /** `s` without its element at `k` (`splice(k, 1)`). */
  function RemoveAt<T>(s: seq<T>, k: nat): (r: seq<T>)
    requires k < |s|
    ensures |r| == |s| - 1
    ensures forall i :: 0 <= i < k ==> r[i] == s[i]
    ensures forall i :: k <= i < |r| ==> r[i] == s[i + 1]
    ensures multiset(r) == multiset(s) - multiset{s[k]}
  {
    assert s == s[..k] + [s[k]] + s[k + 1..];
    s[..k] + s[k + 1..]
  }

  /** Removing one element keeps keys distinct, and the removed key is gone. */
  lemma RemoveAtKeysDistinct<T>(s: seq<T>, key: T -> int, k: nat)
    requires k < |s| && KeysDistinct(s, key)
    ensures KeysDistinct(RemoveAt(s, k), key)
    ensures forall x :: x in RemoveAt(s, k) ==> x in s && key(x) != key(s[k])
  {
    var r := RemoveAt(s, k);
    forall i, j | 0 <= i < j < |r| ensures key(r[i]) != key(r[j]) {
      var i' := if i < k then i else i + 1;
      var j' := if j < k then j else j + 1;
      assert r[i] == s[i'] && r[j] == s[j'] && i' < j';
    }
    forall x | x in r ensures x in s && key(x) != key(s[k]) {
      var i :| 0 <= i < |r| && r[i] == x;
      if i < k {
        assert r[i] == s[i];
      } else {
        assert r[i] == s[i + 1];
      }
    }
  }

  /** Appending a record whose key is the current bound keeps keys distinct
      and raises the bound by one. */
  lemma AppendFreshKey<T>(s: seq<T>, key: T -> int, x: T, bound: int)
    requires KeysDistinct(s, key) && KeysInRange(s, key, bound) && 1 <= key(x) == bound
    ensures KeysDistinct(s + [x], key) && KeysInRange(s + [x], key, bound + 1)
  {
    var r := s + [x];
    forall i, j | 0 <= i < j < |r| ensures key(r[i]) != key(r[j]) {
      assert r[i] == s[i] && s[i] in s;
      if j < |s| {
        assert r[j] == s[j];
      }
    }
    assert forall y :: y in r ==> y in s || y == x;
  }

  /** Removing one element from a duplicate-free sequence leaves it
      duplicate-free and without that element. */
  lemma RemoveAtNoDuplicates<T>(s: seq<T>, k: nat)
    requires k < |s| && NoDuplicates(s)
    ensures NoDuplicates(RemoveAt(s, k))
    ensures s[k] !in RemoveAt(s, k)
  {
    var r := RemoveAt(s, k);
    forall i, j | 0 <= i < j < |r| ensures r[i] != r[j] {
      var i' := if i < k then i else i + 1;
      var j' := if j < k then j else j + 1;
      assert r[i] == s[i'] && r[j] == s[j'] && i' < j';
    }
    forall i | 0 <= i < |r| ensures r[i] != s[k] {
      if i < k {
        assert r[i] == s[i];
      } else {
        assert r[i] == s[i + 1];
      }
    }
  }

  /** A permutation of a sequence with distinct keys has distinct keys. */
  lemma {:induction false} PermutationKeepsKeysDistinct<T>(a: seq<T>, b: seq<T>, key: T -> int)
    requires multiset(a) == multiset(b) && KeysDistinct(a, key)
    ensures KeysDistinct(b, key)
  {
    if b != [] {
      var n := |b| - 1;
      var y, b' := b[n], b[..n];
      assert b == b' + [y];
      assert y in multiset(a);
      var i :| 0 <= i < |a| && a[i] == y;
      var a' := RemoveAt(a, i);
      RemoveAtKeysDistinct(a, key, i);
      assert multiset(a') == multiset(b');
      PermutationKeepsKeysDistinct(a', b', key);
      forall j | 0 <= j < n ensures key(b'[j]) != key(y) {
        assert b'[j] in multiset(a');
      }
      forall j, m | 0 <= j < m < |b| ensures key(b[j]) != key(b[m]) {
        assert b[j] == b'[j];
        if m < n {
          assert b[m] == b'[m];
        }
      }
    }
  }

  /** Sequences that are permutations of each other with distinct keys find
      the same record for every key: lookup does not depend on order. */
  lemma FindByKeyPermutation<T>(a: seq<T>, b: seq<T>, key: T -> int, k: int)
    requires multiset(a) == multiset(b) && KeysDistinct(a, key)
    ensures FindByKey(a, key, k) == FindByKey(b, key, k)
  {
    var i, j := IndexOfKey(a, key, k), IndexOfKey(b, key, k);
    if 0 <= i {
      assert a[i] in multiset(b);
    }
    if 0 <= j {
      assert b[j] in multiset(a);
      var m :| 0 <= m < |a| && a[m] == b[j];
      assert key(a[m]) == k;
    }
  }

  /** With distinct keys, the record found for a key is the one record of
      `s` that has it. */
  lemma FindByKeyUnique<T>(s: seq<T>, key: T -> int, x: T)
    requires KeysDistinct(s, key) && x in s
    ensures FindByKey(s, key, key(x)) == Some(x)
  {
    var i := IndexOfKey(s, key, key(x));
    var m :| 0 <= m < |s| && s[m] == x;
    assert key(s[m]) == key(x);
  }

  /** Places `x` after every record whose key is at least `key(x)`: one step
      of a stable insertion sort into non-increasing order. */
  function InsertDesc<T>(x: T, s: seq<T>, key: T -> int): (r: seq<T>)
    ensures multiset(r) == multiset(s) + multiset{x}
    ensures SortedDesc(s, key) ==> SortedDesc(r, key)
  {
    if s == [] || key(s[0]) < key(x) then [x] + s
    else
      var rest := InsertDesc(x, s[1..], key);
      assert s == [s[0]] + s[1..];
      HeadBoundsInsert(s[0], x, s[1..], rest, key);
      [s[0]] + rest
  }

  /** Helper for InsertDesc: a head that bounds `x` and the tail bounds
      the tail with `x` inserted. */
  lemma HeadBoundsInsert<T>(h: T, x: T, t: seq<T>, rest: seq<T>, key: T -> int)
    requires multiset(rest) == multiset(t) + multiset{x}
    requires key(x) <= key(h)
    ensures SortedDesc([h] + t, key) && SortedDesc(rest, key) ==> SortedDesc([h] + rest, key)
  {
    if SortedDesc([h] + t, key) && SortedDesc(rest, key) {
      forall y | y in rest ensures key(y) <= key(h) {
        assert y in multiset(rest);
        if y != x {
          var m :| 0 <= m < |t| && t[m] == y;
          assert ([h] + t)[0] == h && ([h] + t)[m + 1] == y;
        }
      }
      forall i, j | 0 <= i < j < |rest| + 1
        ensures key(([h] + rest)[i]) >= key(([h] + rest)[j])
      {
        assert ([h] + rest)[j] == rest[j - 1];
        if 0 < i {
          assert ([h] + rest)[i] == rest[i - 1];
        }
      }
    }
  }

  /** The records of `s` from the largest key to the smallest (`sort` with a
      descending comparator). */
  function SortDesc<T>(s: seq<T>, key: T -> int): (r: seq<T>)
    ensures multiset(r) == multiset(s)
    ensures SortedDesc(r, key)
  {
    if s == [] then []
    else
      var n := |s| - 1;
      assert s == s[..n] + [s[n]];
      InsertDesc(s[n], SortDesc(s[..n], key), key)
  }

  /** A record whose key is larger than every other comes first in any
      ordering of the records from the largest key to the smallest, such as
      the one `SortDesc` or a store's listing produces. */
  lemma NewestFirst<T>(s: seq<T>, x: T, r: seq<T>, key: T -> int)
    requires forall y :: y in s ==> key(y) < key(x)
    requires multiset(r) == multiset(s + [x]) && SortedDesc(r, key)
    ensures |r| > 0 && r[0] == x
  {
    assert x in multiset(r);
    var j :| 0 <= j < |r| && r[j] == x;
    assert key(r[0]) >= key(x);
    assert r[0] in multiset(s + [x]);
    assert r[0] in s + [x];
  }
}

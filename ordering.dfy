/**
 * Listing the values of an id-keyed table and sorting them newest-first.
 *
 * The store's tables are JavaScript Maps whose keys are inserted once each, in
 * increasing order (the seeded ids, then the counter's ids), and `Map.set` on a key
 * already present keeps its place. Iterating such a Map therefore yields its values
 * in ascending key order, which is what `TableOrder` and `ValuesAt` produce.
 */
module Ordering {

  /** The keys of `keys` that lie in [1, n), in ascending order. */
  function KeysBelow(keys: set<int>, n: int): (r: seq<int>)
    ensures forall i, j :: 0 <= i < j < |r| ==> r[i] < r[j]
    ensures forall k :: k in r <==> k in keys && 1 <= k < n
    decreases n
  {
    if n <= 1 then
      []
    else
      var prefix := KeysBelow(keys, n - 1);
      assert forall i :: 0 <= i < |prefix| ==> prefix[i] in prefix && prefix[i] < n - 1;
      prefix + (if n - 1 in keys then [n - 1] else [])
  }

  /** `KeysBelow` lists each key of the range exactly once. */
  lemma {:induction false} KeysBelowCount(keys: set<int>, n: int)
    ensures |KeysBelow(keys, n)| == |KeysInRange(keys, n)|
    decreases n
  {
    if n <= 1 {
      assert KeysInRange(keys, n) == {};
    } else {
      KeysBelowCount(keys, n - 1);
      KeysBelowStep(keys, n);
    }
  }

  /** The keys of `keys` that lie in [1, n). */
  ghost function KeysInRange(keys: set<int>, n: int): set<int> {
    set k | k in keys && 1 <= k < n
  }

  /** Raising the bound from n - 1 to n adds at most the key n - 1. */
  lemma KeysBelowStep(keys: set<int>, n: int)
    requires n > 1
    ensures KeysInRange(keys, n) ==
            KeysInRange(keys, n - 1) + (if n - 1 in keys then {n - 1} else {})
    ensures n - 1 !in KeysInRange(keys, n - 1)
  {
  }

  /** The values stored under `ks`, in the order of `ks`. */
  function ValuesAt<V>(m: map<int, V>, ks: seq<int>): (r: seq<V>)
    requires forall i :: 0 <= i < |ks| ==> ks[i] in m
    ensures |r| == |ks|
    ensures forall i :: 0 <= i < |ks| ==> r[i] == m[ks[i]]
  {
    seq(|ks|, i requires 0 <= i < |ks| => m[ks[i]])
  }

  /**
   * The keys of a table whose keys all lie in [1, n), in ascending order: the order
   * in which the table's values are iterated. Each key is listed exactly once.
   */
  function TableOrder(keys: set<int>, n: int): (ks: seq<int>)
    requires forall k :: k in keys ==> 1 <= k < n
    ensures |ks| == |keys|
    ensures forall i :: 0 <= i < |ks| ==> ks[i] in keys
    ensures forall k :: k in keys ==> k in ks
    ensures forall i, j :: 0 <= i < j < |ks| ==> ks[i] < ks[j]
  {
    var ks := KeysBelow(keys, n);
    KeysBelowCount(keys, n);
    assert KeysInRange(keys, n) == keys;
    assert forall i :: 0 <= i < |ks| ==> ks[i] in ks;
    ks
  }

  /** `s` is ordered newest-first (non-increasing) by `key`. */
  ghost predicate SortedDesc<T>(s: seq<T>, key: T -> int) {
    forall i, j :: 0 <= i < j < |s| ==> key(s[i]) >= key(s[j])
  }

  /**
   * Inserts `x` into the newest-first list `s`, in front of the first element that is
   * not newer than `x`.
   */
  function InsertDesc<T(!new)>(x: T, s: seq<T>, key: T -> int): (r: seq<T>)
    requires SortedDesc(s, key)
    ensures SortedDesc(r, key)
    ensures multiset(r) == multiset(s) + multiset{x}
    ensures forall y :: y in r <==> y == x || y in s
    ensures |r| == |s| + 1 && (r[0] == x || (s != [] && r[0] == s[0]))
    decreases |s|
  {
    if s == [] || key(s[0]) <= key(x) then [x] + s
    else
      var rest := InsertDesc(x, s[1..], key);
      assert key(rest[0]) <= key(s[0]);
      assert s == [s[0]] + s[1..];
      [s[0]] + rest
  }

  /**
   * A stable sort of `s` into non-increasing `key` order, as `Array.prototype.sort`
   * does with the comparator `(a, b) => key(b) - key(a)`.
   */
  function SortDesc<T(!new)>(s: seq<T>, key: T -> int): (r: seq<T>)
    ensures SortedDesc(r, key)
    ensures multiset(r) == multiset(s) && |r| == |s|
    ensures forall y :: y in r <==> y in s
    decreases |s|
  {
    if s == [] then []
    else
      assert s == [s[0]] + s[1..];
      InsertDesc(s[0], SortDesc(s[1..], key), key)
  }

  /** An element strictly newer than every other element of a sorted list is its head. */
  lemma {:induction false} NewestIsFirst<T>(s: seq<T>, key: T -> int, x: T)
    requires SortedDesc(s, key) && x in s
    requires forall y :: y in s && y != x ==> key(y) < key(x)
    ensures s[0] == x
  {
    var j :| 0 <= j < |s| && s[j] == x;
    assert key(s[0]) >= key(s[j]);
  }
}

/**
 * Python list operations the folder conversion uses: a list comprehension with
 * a condition, and `sorted(xs, key=k)` for an integer key, which is a stable
 * sort (elements with equal keys keep the order they had in `xs`).
 */
module PyList {

  // ---------------------------------------------------------------- [x for x in s if p(x)]

  /** `[x for x in s if p(x)]`. */
  function Filter<T>(s: seq<T>, p: T -> bool): (r: seq<T>)
    ensures |r| <= |s|
    ensures forall i :: 0 <= i < |r| ==> p(r[i])
  {
    if s == [] then []
    else (if p(s[0]) then [s[0]] else []) + Filter(s[1..], p)
  }

  /** Each element is kept as often as it occurs in `s` if `p` holds of it, and never otherwise. */
  lemma {:induction false} FilterCount<T(!new)>(s: seq<T>, p: T -> bool)
    ensures forall x :: multiset(Filter(s, p))[x] == if p(x) then multiset(s)[x] else 0
  {
    if s != [] {
      FilterCount(s[1..], p);
      assert s == [s[0]] + s[1..];
    }
  }

  /** The comprehension keeps the order of `s`: it distributes over concatenation. */
  lemma {:induction false} FilterAppend<T>(a: seq<T>, b: seq<T>, p: T -> bool)
    ensures Filter(a + b, p) == Filter(a, p) + Filter(b, p)
  {
    if a == [] {
      assert a + b == b;
    } else {
      assert (a + b)[0] == a[0] && (a + b)[1..] == a[1..] + b;
      var head := if p(a[0]) then [a[0]] else [];
      FilterAppend(a[1..], b, p);
      assert Filter(a + b, p) == head + Filter(a[1..] + b, p);
      assert Filter(a, p) == head + Filter(a[1..], p);
    }
  }

  /** The index of the first element on which `p` fails, or |s| when it holds throughout. */
  function FirstFailing<T>(s: seq<T>, p: T -> bool): (k: nat)
    ensures k <= |s|
    ensures forall i :: 0 <= i < k ==> p(s[i])
    ensures k < |s| ==> !p(s[k])
  {
    if s == [] || !p(s[0]) then 0
    else 1 + FirstFailing(s[1..], p)
  }

  // ---------------------------------------------------------------- sorted(s, key=key)

  /** The keys never decrease along `s`. */
  predicate IsSortedBy<T>(s: seq<T>, key: T -> int)
  {
    forall i, j :: 0 <= i < j < |s| ==> key(s[i]) <= key(s[j])
  }

  /** The elements of `s` whose key is `k`, in the order of `s`. */
  function WithKey<T>(s: seq<T>, key: T -> int, k: int): seq<T>
  {
    if s == [] then [] else (if key(s[0]) == k then [s[0]] else []) + WithKey(s[1..], key, k)
  }

  /** Puts `x` before the first element whose key is not smaller than its own. */
  function Insert<T>(x: T, s: seq<T>, key: T -> int): (r: seq<T>)
    ensures multiset(r) == multiset(s) + multiset{x}
    ensures |r| == |s| + 1 && (r[0] == x || (s != [] && r[0] == s[0]))
  {
    if s == [] || key(x) <= key(s[0]) then [x] + s
    else
      assert s == [s[0]] + s[1..];
      [s[0]] + Insert(x, s[1..], key)
  }

  lemma {:induction false} InsertKeepsSorted<T>(x: T, s: seq<T>, key: T -> int)
    requires IsSortedBy(s, key)
    ensures IsSortedBy(Insert(x, s, key), key)
  {
    if s != [] && key(s[0]) < key(x) {
      var rest := Insert(x, s[1..], key);
      InsertKeepsSorted(x, s[1..], key);
      assert key(s[0]) <= key(rest[0]);
      var r := [s[0]] + rest;
      forall i, j | 0 <= i < j < |r|
        ensures key(r[i]) <= key(r[j])
      {
        if i > 0 {
          assert r[i] == rest[i - 1] && r[j] == rest[j - 1];
        } else if j > 1 {
          assert r[j] == rest[j - 1] && key(rest[0]) <= key(rest[j - 1]);
        }
      }
    }
  }

  /** `sorted(s, key=key)`. */
  function SortedBy<T>(s: seq<T>, key: T -> int): (r: seq<T>)
    ensures multiset(r) == multiset(s)
    ensures IsSortedBy(r, key)
  {
    if s == [] then []
    else
      assert s == [s[0]] + s[1..];
      InsertKeepsSorted(s[0], SortedBy(s[1..], key), key);
      Insert(s[0], SortedBy(s[1..], key), key)
  }

  lemma {:induction false} InsertWithKey<T>(x: T, s: seq<T>, key: T -> int, k: int)
    ensures WithKey(Insert(x, s, key), key, k) == (if key(x) == k then [x] else []) + WithKey(s, key, k)
  {
    var mine: seq<T> := if key(x) == k then [x] else [];
    var r := Insert(x, s, key);
    if s == [] || key(x) <= key(s[0]) {
      assert r[0] == x && r[1..] == s;
    } else {
      var rest := Insert(x, s[1..], key);
      var head: seq<T> := if key(s[0]) == k then [s[0]] else [];
      var tail := WithKey(s[1..], key, k);
      assert WithKey(r, key, k) == head + WithKey(rest, key, k) by {
        assert r[0] == s[0] && r[1..] == rest;
      }
      assert WithKey(rest, key, k) == mine + tail by {
        InsertWithKey(x, s[1..], key, k);
      }
      assert WithKey(s, key, k) == head + tail;
      if key(x) == k {
        assert head == [];
      } else {
        assert mine == [];
      }
    }
  }

  /** Stability: for every key, the elements carrying it appear in their original order. */
  lemma {:induction false} SortedByKeepsTies<T>(s: seq<T>, key: T -> int)
    ensures forall k :: WithKey(SortedBy(s, key), key, k) == WithKey(s, key, k)
  {
    if s != [] {
      SortedByKeepsTies(s[1..], key);
      forall k
        ensures WithKey(SortedBy(s, key), key, k) == WithKey(s, key, k)
      {
        InsertWithKey(s[0], SortedBy(s[1..], key), key, k);
      }
    }
  }
}

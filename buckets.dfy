/**
  Selecting the elements of a sequence by key, for the map of buckets that
  GroupVersions in internal/version/version.go fills: `Select(s, key, ks)` is
  what a bucket (or several buckets together) hold after appending the
  elements of `s` in order.
*/
module Buckets {

  /** The elements of `s` whose key is in `keys`, in the order of `s`. */
  function Select<T, K(==)>(s: seq<T>, key: T -> K, keys: set<K>): seq<T>
    decreases |s|
  {
    if s == [] then []
    else
      var last := s[|s| - 1];
      Select(s[..|s| - 1], key, keys) + (if key(last) in keys then [last] else [])
  }

  /** The keys that occur in `s`. */
  function KeysOf<T(==), K(==)>(s: seq<T>, key: T -> K): set<K> {
    set x | x in s :: key(x)
  }

  /** Appending one element appends it to its own bucket and to no other. */
  lemma SelectSnoc<T, K>(s: seq<T>, x: T, key: T -> K, keys: set<K>)
    ensures Select(s + [x], key, keys) == Select(s, key, keys) + (if key(x) in keys then [x] else [])
    ensures KeysOf(s + [x], key) == KeysOf(s, key) + {key(x)}
  {
    assert (s + [x])[..|s|] == s;
  }

  /** What is selected comes from `s` and has a selected key. */
  lemma {:induction false} SelectMembers<T, K>(s: seq<T>, key: T -> K, keys: set<K>)
    ensures forall x :: x in Select(s, key, keys) ==> x in s && key(x) in keys
    decreases |s|
  {
    if s != [] {
      var init, last := s[..|s| - 1], s[|s| - 1];
      assert s == init + [last];
      SelectMembers(init, key, keys);
    }
  }

  lemma {:induction false} SelectNone<T, K>(s: seq<T>, key: T -> K)
    ensures Select(s, key, {}) == []
    decreases |s|
  {
    if s != [] {
      SelectNone(s[..|s| - 1], key);
    }
  }

  /** Selecting every key that occurs keeps every element, in order. */
  lemma {:induction false} SelectAll<T, K>(s: seq<T>, key: T -> K, keys: set<K>)
    requires KeysOf(s, key) <= keys
    ensures Select(s, key, keys) == s
    decreases |s|
  {
    if s != [] {
      var init, last := s[..|s| - 1], s[|s| - 1];
      assert s == init + [last];
      SelectSnoc(init, last, key, keys);
      SelectAll(init, key, keys);
    }
  }

  /** A key that does not occur selects nothing. */
  lemma {:induction false} SelectAbsent<T, K>(s: seq<T>, key: T -> K, k: K)
    requires k !in KeysOf(s, key)
    ensures Select(s, key, {k}) == []
    decreases |s|
  {
    if s != [] {
      var init, last := s[..|s| - 1], s[|s| - 1];
      assert s == init + [last];
      SelectSnoc(init, last, key, {k});
      SelectAbsent(init, key, k);
    }
  }

  /** A key that occurs selects something. */
  lemma {:induction false} SelectPresent<T, K>(s: seq<T>, key: T -> K, k: K)
    requires k in KeysOf(s, key)
    ensures Select(s, key, {k}) != []
    decreases |s|
  {
    var init, last := s[..|s| - 1], s[|s| - 1];
    assert s == init + [last];
    SelectSnoc(init, last, key, {k});
    if key(last) != k {
      SelectPresent(init, key, k);
    }
  }

  /** Adding one key to the selection adds exactly that key's bucket. */
  lemma {:induction false} SelectAdd<T, K>(s: seq<T>, key: T -> K, keys: set<K>, k: K)
    requires k !in keys
    ensures multiset(Select(s, key, keys + {k}))
         == multiset(Select(s, key, keys)) + multiset(Select(s, key, {k}))
    decreases |s|
  {
    if s != [] {
      var init, last := s[..|s| - 1], s[|s| - 1];
      assert s == init + [last];
      SelectSnoc(init, last, key, keys + {k});
      SelectSnoc(init, last, key, keys);
      SelectSnoc(init, last, key, {k});
      SelectAdd(init, key, keys, k);
    }
  }
}

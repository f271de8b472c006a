/** `LinearSearch<K>::upper_bound`: the search policy the hot tier is
    parameterised with. The iterator range `[first, last)` is modelled as a
    pair of positions into a sequence of keys, and `get_key(it)` as
    `keys[it]`; the unused `hint` is left out. */
module LinearSearch {
  import opened Types

  /** The keys of `s` are in non-decreasing order. */
  ghost predicate Sorted(s: seq<Key>)
  {
    forall i, j :: 0 <= i < j < |s| ==> s[i] <= s[j]
  }

  /** The number of keys of `s` that are at most `key`: the offset of the
      standard upper bound in a sorted range, defined independently of any
      search. */
  function CountAtMost(s: seq<Key>, key: Key): nat
  {
    if s == [] then 0
    else (if s[0] <= key then 1 else 0) + CountAtMost(s[1..], key)
  }

  /** In a sorted range, a position that splits the keys into "at most key"
      and "greater than key" is exactly the number of keys at most `key`. */
  lemma {:induction false} SplitPointIsCount(s: seq<Key>, key: Key, q: nat)
    requires Sorted(s)
    requires q <= |s|
    requires forall i :: 0 <= i < q ==> s[i] <= key
    requires q == |s| || s[q] > key
    ensures CountAtMost(s, key) == q
  {
    if s != [] {
      assert Sorted(s[1..]) by {
        forall i, j | 0 <= i < j < |s[1..]| ensures s[1..][i] <= s[1..][j] {
          assert s[1..][i] == s[i + 1] && s[1..][j] == s[j + 1];
        }
      }
      if q > 0 {
        SplitPointIsCount(s[1..], key, q - 1);
      } else {
        assert |s| > 1 ==> s[1..][0] == s[1] >= s[0];
        SplitPointIsCount(s[1..], key, 0);
      }
    }
  }

  /** Scans forward from `first` and stops at the first key greater than
      `key`, or at `last`. */
  method UpperBound(keys: seq<Key>, first: nat, last: nat, key: Key) returns (it: nat)
    requires first <= last <= |keys|
    ensures first <= it <= last
    ensures forall i :: first <= i < it ==> keys[i] <= key
    ensures it == last || keys[it] > key
    ensures Sorted(keys[first..last]) ==> forall i :: it <= i < last ==> keys[i] > key
    ensures Sorted(keys[first..last]) ==> it == first + CountAtMost(keys[first..last], key)
  {
    it := first;
    while it != last && keys[it] <= key
      invariant first <= it <= last
      invariant forall i :: first <= i < it ==> keys[i] <= key
      decreases last - it
    {
      it := it + 1;
    }
    if Sorted(keys[first..last]) {
      var range := keys[first..last];
      forall i | it <= i < last ensures keys[i] > key {
        assert range[it - first] <= range[i - first];
      }
      SplitPointIsCount(range, key, it - first);
    }
  }
}

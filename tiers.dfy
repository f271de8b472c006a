/** The two tiers of the hybrid index, seen from the coordination layer.
    Both the hot tier (`DynamicPGMIndex`) and the cold tier (`LIPP`) are
    modelled as finite maps from key to value; their internal structures are
    not part of this model. */
module Tiers {
  import opened Types

  /** One key/value pair (`KeyValue<KeyType>`). */
  datatype Entry = Entry(key: Key, value: Value)

  /** A tier's equality lookup: the stored value, or `None` for NOT_FOUND. */
  function Find(m: map<Key, Value>, key: Key): Option<Value>
  {
    if key in m then Some(m[key]) else None
  }

  /** Inserts the entries into `m` one after the other.
      ASSUMPTION: a single cold-tier insert (`LIPP::Insert`) behaves as a map
      update, so a key that is already present takes the inserted value. The
      cold tier's behaviour on duplicate keys is not part of this model. */
  function InsertAll(m: map<Key, Value>, es: seq<Entry>): map<Key, Value>
  {
    if es == [] then m
    else
      var last := es[|es| - 1];
      InsertAll(m, es[..|es| - 1])[last.key := last.value]
  }

  /** The map that a sequence of entries describes (a later entry wins). */
  function ToMap(es: seq<Entry>): map<Key, Value>
  {
    InsertAll(map[], es)
  }

  /** Inserting one more entry of a batch extends the prefix inserted so far. */
  lemma InsertAllPrefix(m: map<Key, Value>, es: seq<Entry>, i: nat)
    requires i < |es|
    ensures InsertAll(m, es[..i + 1]) == InsertAll(m, es[..i])[es[i].key := es[i].value]
  {
    assert es[..i + 1][..i] == es[..i];
  }

  /** Inserting a batch one entry at a time gives the union of the old map
      and the batch, with the batch's values winning on shared keys. */
  lemma {:induction false} InsertAllIsUnion(m: map<Key, Value>, es: seq<Entry>)
    ensures InsertAll(m, es) == m + ToMap(es)
  {
    if es != [] {
      InsertAllIsUnion(m, es[..|es| - 1]);
    }
  }

  /** Updating the shadowing map and then taking the union is the same as
      updating the union. */
  lemma UnionUpdate(cold: map<Key, Value>, hot: map<Key, Value>, key: Key, value: Value)
    ensures cold + hot[key := value] == (cold + hot)[key := value]
  {
  }

  /** A single-key update adds at most one key. */
  lemma UpdateSize(m: map<Key, Value>, key: Key, value: Value)
    ensures |m[key := value]| <= |m| + 1
  {
  }

  /** An empty hot tier shadows nothing. */
  lemma UnionEmpty(cold: map<Key, Value>)
    ensures cold + map[] == cold
  {
  }

  /** The keys of `es` are strictly increasing: the order in which an ordered
      container hands out its entries. */
  ghost predicate StrictlyAscending(es: seq<Entry>)
  {
    forall i, j :: 0 <= i < j < |es| ==> es[i].key < es[j].key
  }

  /** `k` is at most every key of `s`. */
  ghost predicate IsLeast(k: Key, s: set<Key>)
  {
    forall x :: x in s ==> k <= x
  }

  /** Every non-empty finite set of keys has a least element. */
  lemma {:induction false} MinimumExists(s: set<Key>)
    requires s != {}
    ensures exists k :: k in s && IsLeast(k, s)
    decreases s
  {
    var y :| y in s;
    var s' := s - {y};
    if s' == {} {
      forall x | x in s ensures y <= x {
        assert x !in s';
      }
      assert IsLeast(y, s);
    } else {
      MinimumExists(s');
      var z :| z in s' && IsLeast(z, s');
      var least := if y <= z then y else z;
      forall x | x in s ensures least <= x {
        if x != y { assert x in s'; }
      }
      assert IsLeast(least, s);
    }
  }

  /** One step of `ListEntries`, order part: appending the least remaining
      key keeps the listing ascending and below every key still remaining. */
  lemma ListStepOrder(rest: set<Key>, es: seq<Entry>, e: Entry)
    requires e.key in rest
    requires forall x :: x in rest ==> e.key <= x
    requires StrictlyAscending(es)
    requires forall i, x :: 0 <= i < |es| && x in rest ==> es[i].key < x
    ensures StrictlyAscending(es + [e])
    ensures forall i, x :: 0 <= i < |es| + 1 && x in rest - {e.key} ==> (es + [e])[i].key < x
  {
  }

  /** One step of `ListEntries`, content part: the appended entry moves its
      key from the remainder to the listed map. */
  lemma ListStepMap(m: map<Key, Value>, rest: set<Key>, es: seq<Entry>, k: Key)
    requires k in rest && rest <= m.Keys
    requires ToMap(es) == m - rest
    ensures ToMap(es + [Entry(k, m[k])]) == m - (rest - {k})
  {
    var es' := es + [Entry(k, m[k])];
    assert es'[..|es'| - 1] == es;
    var done, done' := m - rest, m - (rest - {k});
    assert done'.Keys == done.Keys + {k};
    assert done' == done[k := m[k]];
  }

  /** The hot tier's in-order iteration (`begin()` to `end()`): lists every
      entry of `m` exactly once, in ascending key order. */
  method ListEntries(m: map<Key, Value>) returns (es: seq<Entry>)
    ensures StrictlyAscending(es)
    ensures ToMap(es) == m
    ensures |es| == |m|
  {
    es := [];
    var rest := m.Keys;
    while rest != {}
      invariant rest <= m.Keys
      invariant StrictlyAscending(es)
      invariant forall i, x :: 0 <= i < |es| && x in rest ==> es[i].key < x
      invariant ToMap(es) == m - rest
      invariant |es| + |rest| == |m|
      decreases rest
    {
      MinimumExists(rest);
      var k :| k in rest && forall x :: x in rest ==> k <= x;
      ListStepOrder(rest, es, Entry(k, m[k]));
      ListStepMap(m, rest, es, k);
      es := es + [Entry(k, m[k])];
      rest := rest - {k};
    }
    assert m - rest == m;
  }
}

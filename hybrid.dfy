/** `HybridPGMLIPP`: a hot tier (the Dynamic PGM index) that takes every
    insert, a cold tier (LIPP) that it is flushed into, and the two counters
    that drive the flush threshold. */
module Hybrid {
  import opened Types
  import opened Tiers

  /** The flush rule `pgm_key_count_ >= total_key_count_ * FLUSH_THRESHOLD`
      with the threshold 0.05 taken as the exact rational 1/20. */
  function ShouldFlush(pgmCount: nat, totalCount: nat): (r: bool)
    ensures r <==> pgmCount as real >= totalCount as real * 0.05
  {
    20 * pgmCount >= totalCount
  }

  class HybridPgmLipp {
    /** Hot tier (`pgm_index_`). */
    var pgmIndex: map<Key, Value>
    /** Cold tier (`lipp_index_`). */
    var lippIndex: map<Key, Value>
    /** Number of `Insert` calls since the last flush (`pgm_key_count_`). */
    var pgmKeyCount: nat
    /** Number of `Insert` calls ever made (`total_key_count_`). */
    var totalKeyCount: nat

    /** The counters bound each other and the hot tier: the counter counts
        calls, not distinct keys, so it is only an upper bound on the hot
        tier's size. */
    ghost predicate CountersBounded()
      reads this
    {
      |pgmIndex| <= pgmKeyCount <= totalKeyCount
    }

    /** The object invariant: the counters are bounded, and between calls the
        hot tier is either freshly flushed or below the threshold. */
    ghost predicate Valid()
      reads this
    {
      && CountersBounded()
      && (pgmKeyCount == 0 || !ShouldFlush(pgmKeyCount, totalKeyCount))
    }

    /** What a lookup sees: the cold tier, shadowed by the hot tier. */
    ghost function Contents(): map<Key, Value>
      reads this
    {
      lippIndex + pgmIndex
    }

    /** `HybridPGMLIPP() = default`: both tiers empty, both counters 0. */
    constructor ()
      ensures Valid()
      ensures pgmIndex == map[] && lippIndex == map[]
      ensures pgmKeyCount == 0 && totalKeyCount == 0
      ensures Contents() == map[]
    {
      pgmIndex := map[];
      lippIndex := map[];
      pgmKeyCount := 0;
      totalKeyCount := 0;
    }

    /** Inserts into the hot tier, counts the call in both counters, and
        flushes when the hot tier reaches the threshold. */
    method Insert(key: Key, value: Value)
      requires Valid()
      modifies this
      ensures Valid()
      ensures totalKeyCount == old(totalKeyCount) + 1
      ensures Contents() == old(Contents())[key := value]
      ensures ShouldFlush(old(pgmKeyCount) + 1, totalKeyCount) ==>
        && pgmIndex == map[] && pgmKeyCount == 0
        && lippIndex == old(lippIndex) + old(pgmIndex)[key := value]
      ensures !ShouldFlush(old(pgmKeyCount) + 1, totalKeyCount) ==>
        && pgmIndex == old(pgmIndex)[key := value]
        && pgmKeyCount == old(pgmKeyCount) + 1
        && lippIndex == old(lippIndex)
      ensures pgmKeyCount == 0 || 20 * pgmKeyCount < totalKeyCount
      ensures totalKeyCount <= 20 ==> pgmKeyCount == 0 && pgmIndex == map[]
    {
      UnionUpdate(lippIndex, pgmIndex, key, value);
      UpdateSize(pgmIndex, key, value);
      pgmIndex := pgmIndex[key := value];
      pgmKeyCount := pgmKeyCount + 1;
      totalKeyCount := totalKeyCount + 1;
      if ShouldFlush(pgmKeyCount, totalKeyCount) {
        FlushToLIPP();
      }
    }

    /** Looks the key up in the hot tier first and falls back to the cold
        tier only when the hot tier reports NOT_FOUND. */
    method EqualityLookup(key: Key) returns (result: Option<Value>)
      ensures key in pgmIndex ==> result == Some(pgmIndex[key])
      ensures key !in pgmIndex ==> result == Find(lippIndex, key)
      ensures result.Some? <==> key in Contents()
      ensures result.Some? ==> result.value == Contents()[key]
    {
      result := Find(pgmIndex, key);
      if result.Some? {
        return;
      }
      result := Find(lippIndex, key);
    }

    /** The range query is a stub: it reports 0 for every range. */
    method RangeQuery(loKey: Key, hiKey: Key) returns (r: u64)
      ensures r == 0
    {
      r := 0;
    }

    /** Lists the hot tier in ascending key order, inserts every entry into
        the cold tier, then replaces the hot tier by an empty one and resets
        its counter. */
    method FlushToLIPP()
      modifies this
      ensures Valid()
      ensures pgmIndex == map[] && pgmKeyCount == 0
      ensures totalKeyCount == old(totalKeyCount)
      ensures lippIndex == old(lippIndex) + old(pgmIndex)
      ensures Contents() == old(Contents())
    {
      var keysToFlush := ListEntries(pgmIndex);
      var i := 0;
      while i < |keysToFlush|
        invariant 0 <= i <= |keysToFlush|
        invariant lippIndex == InsertAll(old(lippIndex), keysToFlush[..i])
        invariant pgmIndex == old(pgmIndex) && pgmKeyCount == old(pgmKeyCount)
        invariant totalKeyCount == old(totalKeyCount)
      {
        var kv := keysToFlush[i];
        InsertAllPrefix(old(lippIndex), keysToFlush, i);
        lippIndex := lippIndex[kv.key := kv.value];
        i := i + 1;
      }
      assert keysToFlush[..i] == keysToFlush;
      InsertAllIsUnion(old(lippIndex), keysToFlush);
      UnionEmpty(lippIndex);
      pgmIndex := map[];
      pgmKeyCount := 0;
    }
  }

  /** A client of the index: on a fresh index the first insert already
      reaches the threshold (1 >= 1 * 0.05) and is flushed to the cold tier;
      a second insert of the same key after that flush boundary is flushed
      as well (1 >= 2 * 0.05), and the lookup returns the newer value. */
  method ShadowingAcrossFlush(key: Key, first: Value, second: Value) returns (found: Option<Value>)
    ensures found == Some(second)
  {
    var index := new HybridPgmLipp();
    index.Insert(key, first);
    assert index.pgmKeyCount == 0 && index.pgmIndex == map[];
    assert index.lippIndex == map[key := first];
    index.Insert(key, second);
    assert index.lippIndex == map[key := second];
    found := index.EqualityLookup(key);
  }
}

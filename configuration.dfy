/**
 * `OperatorConfiguration` (mock.go): an unstructured configuration, a map from
 * string keys to values the agent never inspects (here the type parameter V),
 * and its merge with a delta retrieved from the service.
 *
 * The pure functions AddedAll, UpdatedExisting and Merged give the map each
 * operation leaves behind; the methods of the class do the work in place, one
 * key at a time, as the Go loops `for key, value := range other` do, and are
 * proved to leave exactly that map.
 */
module Configuration {
  import KeyOrder

  /** addAll's result: every key of the delta takes the delta's value, the others keep theirs. */
  function AddedAll<V>(c: map<string, V>, delta: map<string, V>): (r: map<string, V>)
    ensures r.Keys == c.Keys + delta.Keys
    ensures forall k :: k in delta ==> r[k] == delta[k]
    ensures forall k :: k in c && k !in delta ==> r[k] == c[k]
  {
    c + delta
  }

  /**
   * updateExisting's result: the key set is unchanged; a key that is also in
   * the delta takes the delta's value; delta keys not already present are dropped.
   */
  function UpdatedExisting<V>(c: map<string, V>, delta: map<string, V>): (r: map<string, V>)
    ensures r.Keys == c.Keys
    ensures forall k :: k in c && k in delta ==> r[k] == delta[k]
    ensures forall k :: k in c && k !in delta ==> r[k] == c[k]
  {
    map k | k in c :: if k in delta then delta[k] else c[k]
  }

  /**
   * mergeWith's result: bootstrap union when empty, steady-state update
   * otherwise. The key set is the delta's when the configuration was empty and
   * its own otherwise, so a new key in a steady-state delta is dropped; every
   * remaining key holds the delta's value if it has one and its old value if not.
   */
  function Merged<V>(c: map<string, V>, delta: map<string, V>): (r: map<string, V>)
    ensures r.Keys == if |c| == 0 then delta.Keys else c.Keys
    ensures forall k :: k in r && k in delta ==> r[k] == delta[k]
    ensures forall k :: k in r && k !in delta ==> r[k] == c[k]
  {
    if |c| == 0 then AddedAll(c, delta) else UpdatedExisting(c, delta)
  }

  /** The part of a delta whose keys the configuration already has. */
  function Restrict<V>(delta: map<string, V>, keys: set<string>): (r: map<string, V>)
    ensures r.Keys == delta.Keys * keys
    ensures forall k :: k in r ==> r[k] == delta[k]
  {
    map k | k in delta && k in keys :: delta[k]
  }

  /** Merging into an empty configuration makes it equal to the delta. */
  lemma MergeIntoEmpty<V>(delta: map<string, V>)
    ensures Merged(map[], delta) == delta
  {
  }

  /** A non-empty configuration stays non-empty through a merge. */
  lemma MergeKeepsNonEmpty<V>(c: map<string, V>, delta: map<string, V>)
    requires |c| != 0
    ensures |Merged(c, delta)| != 0
  {
    assert Merged(c, delta).Keys == c.Keys;
  }

  /**
   * Steady state is the union with only the part of the delta whose keys are
   * already present: bootstrap union, then intersection.
   */
  lemma MergeIsRestrictedUnion<V>(c: map<string, V>, delta: map<string, V>)
    requires |c| != 0
    ensures Merged(c, delta) == c + Restrict(delta, c.Keys)
  {
  }

  /** Merging the same delta twice gives the configuration merging it once gives. */
  lemma MergeIdempotent<V>(c: map<string, V>, delta: map<string, V>)
    ensures Merged(Merged(c, delta), delta) == Merged(c, delta)
  {
    var once := Merged(c, delta);
    if |c| == 0 {
      assert once == delta;
      if |delta| != 0 {
        assert Merged(once, delta) == UpdatedExisting(delta, delta);
      }
    } else {
      MergeKeepsNonEmpty(c, delta);
    }
  }

  /** Merging an empty delta changes nothing, whether the configuration is empty or not. */
  lemma MergeEmptyDelta<V>(c: map<string, V>)
    ensures Merged(c, map[]) == c
  {
  }

  /** A merge from empty, and a merge into {a:1,b:2} that drops the new key c. */
  lemma MergeExamples()
    ensures Merged(map[], map["a" := 1, "b" := 2]) == map["a" := 1, "b" := 2]
    ensures Merged(map["a" := 1, "b" := 2], map["a" := 9, "c" := 3]) == map["a" := 9, "b" := 2]
  {
    var c := map["a" := 1, "b" := 2];
    assert |c| != 0 by {
      assert "a" in c;
    }
  }

  class OperatorConfiguration<V> {
    var entries: map<string, V>

    /** NewOperatorConfiguration: an empty configuration. */
    constructor ()
      ensures entries == map[]
    {
      entries := map[];
    }

    /** addAll: copies every key/value pair of `other` in. */
    method AddAll(other: map<string, V>)
      modifies this
      ensures entries == AddedAll(old(entries), other)
    {
      var remaining := other.Keys;
      while remaining != {}
        invariant remaining <= other.Keys
        invariant entries == old(entries) + Restrict(other, other.Keys - remaining)
        decreases remaining
      {
        var key :| key in remaining;
        entries := entries[key := other[key]];
        remaining := remaining - {key};
      }
      assert Restrict(other, other.Keys - {}) == other;
    }

    /** updateExisting: overwrites only the keys already present. */
    method UpdateExisting(other: map<string, V>)
      modifies this
      ensures entries == UpdatedExisting(old(entries), other)
    {
      var remaining := other.Keys;
      while remaining != {}
        invariant remaining <= other.Keys
        invariant entries == old(entries) + Restrict(other, (other.Keys - remaining) * old(entries).Keys)
        decreases remaining
      {
        var key :| key in remaining;
        if key in entries {
          entries := entries[key := other[key]];
        }
        remaining := remaining - {key};
      }
      assert entries == UpdatedExisting(old(entries), other);
    }

    /** mergeWith: union into an empty configuration, update of existing keys otherwise. */
    method MergeWith(other: map<string, V>)
      modifies this
      ensures entries == Merged(old(entries), other)
    {
      if |entries| == 0 {
        AddAll(other);
      } else {
        UpdateExisting(other);
      }
    }

    /**
     * The key order of `print`: the keys are gathered into a slice one by one
     * and then sorted, so each key is listed exactly once, in ascending order.
     */
    method PrintOrder() returns (keys: seq<string>)
      ensures forall k :: k in keys <==> k in entries
      ensures |keys| == |entries|
      ensures KeyOrder.StrictlySorted(keys)
    {
      if |entries| == 0 {
        return [];
      }
      keys := [];
      var remaining := entries.Keys;
      while remaining != {}
        invariant remaining <= entries.Keys
        invariant forall k :: k in keys <==> k in entries && k !in remaining
        invariant KeyOrder.NoDuplicates(keys)
        invariant |keys| + |remaining| == |entries|
        decreases remaining
      {
        var key :| key in remaining;
        keys := keys + [key];
        remaining := remaining - {key};
      }
      var gathered := keys;
      keys := KeyOrder.Sort(gathered);
      assert |keys| == |multiset(keys)| == |multiset(gathered)| == |gathered|;
      forall k ensures k in keys <==> k in gathered {
        assert k in keys <==> k in multiset(keys);
        assert k in gathered <==> k in multiset(gathered);
      }
    }
  }
}

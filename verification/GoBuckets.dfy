/** The Go buckets: values that are copied by every operation. */
module GoBuckets {
  import opened NodeIds
  import opened Contacts

  /** The entries whose bit at `bit` has the given value, in order. */
  function WithBit(s: seq<Contact>, bit: nat, value: bool): seq<Contact>
    requires bit < ID_BITS
  {
    if s == [] then []
    else
      var rest := WithBit(s[..|s| - 1], bit, value);
      var c := s[|s| - 1];
      if IsBitSet(c.id, bit) == value then rest + [c] else rest
  }

  lemma {:induction false} WithBitContents(s: seq<Contact>, bit: nat, value: bool)
    requires bit < ID_BITS
    ensures forall c :: c in WithBit(s, bit, value) <==> c in s && IsBitSet(c.id, bit) == value
    ensures |WithBit(s, bit, value)| <= |s|
  {
    if s != [] {
      WithBitContents(s[..|s| - 1], bit, value);
      assert forall c :: c in s <==> c in s[..|s| - 1] || c == s[|s| - 1];
    }
  }

  lemma {:induction false} WithBitDistinct(s: seq<Contact>, bit: nat, value: bool)
    requires bit < ID_BITS && DistinctIds(s)
    ensures DistinctIds(WithBit(s, bit, value))
  {
    if s != [] {
      var t := s[..|s| - 1];
      WithBitDistinct(t, bit, value);
      WithBitContents(t, bit, value);
      forall c | c in WithBit(t, bit, value) ensures c.id != s[|s| - 1].id {
        assert c in t;
      }
    }
  }

  /** The two halves together hold every entry exactly as often as before. */
  lemma {:induction false} WithBitConserves(s: seq<Contact>, bit: nat)
    requires bit < ID_BITS
    ensures multiset(WithBit(s, bit, false)) + multiset(WithBit(s, bit, true)) == multiset(s)
  {
    if s != [] {
      var t, c := s[..|s| - 1], s[|s| - 1];
      WithBitConserves(t, bit);
      assert s == t + [c];
      assert multiset(WithBit(s, bit, IsBitSet(c.id, bit))) == multiset(WithBit(t, bit, IsBitSet(c.id, bit))) + multiset{c};
      assert WithBit(s, bit, !IsBitSet(c.id, bit)) == WithBit(t, bit, !IsBitSet(c.id, bit));
    }
  }

  /** One more entry for the half it belongs to is a new id there. */
  lemma WithBitStep(s: seq<Contact>, n: nat, bit: nat, value: bool)
    requires bit < ID_BITS && n < |s| && DistinctIds(s)
    ensures WithBit(s[..n + 1], bit, value)
         == WithBit(s[..n], bit, value) + if IsBitSet(s[n].id, bit) == value then [s[n]] else []
    ensures s[n].id !in Ids(WithBit(s[..n], bit, value))
    ensures |WithBit(s[..n], bit, value)| <= n
  {
    assert s[..n + 1][..n] == s[..n];
    WithBitContents(s[..n], bit, value);
    forall c | c in WithBit(s[..n], bit, value) ensures c.id != s[n].id {
      assert c in s[..n];
    }
  }

  /** Among contacts sharing k bits with `own`, bit k decides who shares k + 1. */
  lemma {:induction false} BitDecidesPrefix(own: NodeId, s: seq<Contact>, k: nat)
    requires k < ID_BITS
    requires forall c :: c in s ==> PrefixLength(own, c.id) >= k
    ensures WithBit(s, k, !IsBitSet(own, k)) == Between(own, s, k, k + 1)
    ensures WithBit(s, k, IsBitSet(own, k)) == Between(own, s, k + 1, ID_BITS + 1)
  {
    if s != [] {
      BitDecidesPrefix(own, s[..|s| - 1], k);
      var c := s[|s| - 1];
      PrefixLengthUnique(own, c.id, PrefixLength(own, c.id));
    }
  }

  datatype Bucket = Bucket(bucketSize: nat, entries: seq<Contact>) {

    /** What newBucket and addEntry establish: at most bucketSize entries, no id twice. */
    ghost predicate Valid() {
      |entries| <= bucketSize && DistinctIds(entries)
    }

    method ContainsNodeId(id: NodeId) returns (found: bool)
      ensures found <==> id in Ids(entries)
    {
      for i := 0 to |entries|
        invariant forall j :: 0 <= j < i ==> entries[j].id != id
      {
        if entries[i].id == id {
          return true;
        }
      }
      return false;
    }

    method AddEntry(entry: Contact) returns (updated: Bucket, success: bool)
      requires Valid()
      ensures success <==> entry.id in Ids(entries) || |entries| < bucketSize
      ensures updated.bucketSize == bucketSize && updated.Valid()
      ensures updated.entries == if success && entry.id !in Ids(entries) then entries + [entry] else entries
    {
      var found := ContainsNodeId(entry.id);
      if found {
        return this, true;
      }
      if |entries| >= bucketSize {
        return this, false;
      }
      updated := this.(entries := entries + [entry]);
      success := true;
    }

    method GetEntryByIdOrReturnAll(id: NodeId) returns (result: seq<Contact>, exactMatch: bool)
      ensures exactMatch <==> id in Ids(entries)
      ensures exactMatch ==> |result| == 1 && result[0].id == id && result[0] in entries
      ensures !exactMatch ==> result == entries
    {
      for i := 0 to |entries|
        invariant forall j :: 0 <= j < i ==> entries[j].id != id
      {
        if entries[i].id == id {
          return entries[i..i + 1], true;
        }
      }
      return entries, false;
    }

    /** Although it re-adds the entries through AddEntry, a split of a valid bucket loses none. */
    method SplitAt(bitPosition: nat) returns (zeroBucket: Bucket, oneBucket: Bucket)
      requires Valid()
      requires bitPosition < ID_BITS
      ensures zeroBucket == Bucket(bucketSize, WithBit(entries, bitPosition, false))
      ensures oneBucket == Bucket(bucketSize, WithBit(entries, bitPosition, true))
      ensures zeroBucket.Valid() && oneBucket.Valid()
      ensures multiset(zeroBucket.entries) + multiset(oneBucket.entries) == multiset(entries)
    {
      zeroBucket := Bucket(bucketSize, []);
      oneBucket := Bucket(bucketSize, []);
      for i := 0 to |entries|
        invariant zeroBucket == Bucket(bucketSize, WithBit(entries[..i], bitPosition, false))
        invariant oneBucket == Bucket(bucketSize, WithBit(entries[..i], bitPosition, true))
        invariant zeroBucket.Valid() && oneBucket.Valid()
      {
        var entry := entries[i];
        WithBitStep(entries, i, bitPosition, false);
        WithBitStep(entries, i, bitPosition, true);
        var success;
        if IsBitSet(entry.id, bitPosition) {
          oneBucket, success := oneBucket.AddEntry(entry);
        } else {
          zeroBucket, success := zeroBucket.AddEntry(entry);
        }
      }
      assert entries[..|entries|] == entries;
      WithBitConserves(entries, bitPosition);
    }
  }
}

/** The Go routing table as the object the program mutates. Its history of offers is a ghost
    field; the representation invariant says that the table is the closed form of that history. */
module GoRoutingTable {
  import opened NodeIds
  import opened Contacts
  import opened GoBuckets
  import opened GoTableHistory
  import opened Lookup
  import opened LookupOrder

  class RoutingTable {
    const thisNodeInfo: Contact
    const bucketSize: nat
    var table: seq<Bucket>
    ghost var offered: seq<Contact>

    ghost predicate Valid()
      reads this
    {
      && Storable(thisNodeInfo.id, bucketSize, offered)
      && table == Canonical(thisNodeInfo.id, bucketSize, offered)
    }

    constructor (bucketSize: nat, thisNodeInfo: Contact)
      ensures Valid() && offered == []
      ensures this.bucketSize == bucketSize && this.thisNodeInfo == thisNodeInfo
    {
      this.bucketSize := bucketSize;
      this.thisNodeInfo := thisNodeInfo;
      table := [Bucket(bucketSize, [])];
      offered := [];
      new;
      DepthUnique(thisNodeInfo.id, bucketSize, [], 0);
    }

    /** Panics, in splitAt, exactly when a table of bucket size 0 is offered its own id. */
    method AddEntry(entry: Contact) returns (panicked: bool)
      requires Valid()
      modifies this
      ensures panicked <==> bucketSize == 0 && entry.id == thisNodeInfo.id
      ensures !panicked ==> Valid() && offered == old(offered) + [entry]
    {
      InsertionStarts(thisNodeInfo.id, bucketSize, offered, entry);
      panicked := AddEntryRec(entry);
      offered := offered + [entry];
    }

    method AddEntryRec(entry: Contact) returns (panicked: bool)
      requires Inserting(thisNodeInfo.id, bucketSize, offered, entry, table)
      modifies this`table
      ensures panicked <==> bucketSize == 0 && entry.id == thisNodeInfo.id
      ensures !panicked ==> Storable(thisNodeInfo.id, bucketSize, offered + [entry])
      ensures !panicked ==> table == Canonical(thisNodeInfo.id, bucketSize, offered + [entry])
      decreases ID_BITS + 1 - |table|
    {
      hide Inserting, WithBit, Canonical, Ids, DistinctIds, IsBitSet, PrefixLength;
      InsertionBucket(thisNodeInfo.id, bucketSize, offered, entry, table);
      var currentMaxPrefixLength := |table| - 1;
      var prefixLength := CommonPrefixLength(thisNodeInfo.id, entry.id);
      var bucketIndex := if prefixLength < currentMaxPrefixLength then prefixLength else currentMaxPrefixLength;
      var bucket := table[bucketIndex];

      assert bucketIndex == BucketIndex(thisNodeInfo.id, entry.id, currentMaxPrefixLength);
      var updatedBucket, success := bucket.AddEntry(entry);
      if success {
        InsertionEnds(thisNodeInfo.id, bucketSize, offered, entry, table);
        table := table[bucketIndex := updatedBucket];
        return false;
      }
      if prefixLength < currentMaxPrefixLength {
        InsertionEnds(thisNodeInfo.id, bucketSize, offered, entry, table);
        return false;
      }
      if bucketIndex > 159 {
        InsertionPanics(thisNodeInfo.id, bucketSize, offered, entry, table);
        return true;
      }
      var zeroBucket, oneBucket := bucket.SplitAt(bucketIndex);
      ghost var next := Deepened(thisNodeInfo.id, bucketSize, table);
      InsertionDescends(thisNodeInfo.id, bucketSize, offered, entry, table);
      if IsBitSet(thisNodeInfo.id, bucketIndex) {
        table := table[bucketIndex := zeroBucket];
        table := table + [oneBucket];
      } else {
        table := table[bucketIndex := oneBucket];
        table := table + [zeroBucket];
      }
      assert table == next;
      panicked := AddEntryRec(entry);
    }

    /** Bucket 0 is empty, or it is not the start bucket and either further from it than the last bucket
        or behind enough contacts to fill the answer. */
    ghost predicate LeavesOutBucketZero(targetId: NodeId)
      requires |table| > 0
      reads this
    {
      var start := BucketIndex(thisNodeInfo.id, targetId, |table| - 1);
      || table[0].entries == []
      || (start > 0 && (2 * start > |table| - 1 || Population(Rows(table), 1, 2 * start) >= bucketSize))
    }

    lemma BucketZero(targetId: NodeId)
      requires Valid()
      ensures |table| > 0
      ensures Disjoint(Answer(thisNodeInfo.id, bucketSize, Rows(table), targetId, 1), Rows(table)[0])
         <==> LeavesOutBucketZero(targetId)
    {
      CanonicalIsSound(thisNodeInfo.id, bucketSize, offered);
      BucketZeroLeftOut(thisNodeInfo.id, bucketSize, Rows(table), targetId);
    }

    /** What the search does with one bucket: an exact match replaces everything collected so
        far, otherwise as many entries as still fit are added. */
    method VisitBucket(i: nat, targetId: NodeId, collected: seq<Contact>, ghost visited: seq<nat>)
      returns (result: seq<Contact>, exactMatch: bool)
      requires i < |table| && IndicesBelow(visited, |table|)
      requires collected == Take(Concat(Rows(table), visited), bucketSize)
      ensures exactMatch <==> targetId in Ids(Rows(table)[i])
      ensures exactMatch ==> |result| == 1 && result[0].id == targetId && Stored(Rows(table), result[0]) && targetId in StoredIds(Rows(table))
      ensures IndicesBelow(visited + [i], |table|)
      ensures !exactMatch ==> result == Take(Concat(Rows(table), visited + [i]), bucketSize)
    {
      var entries;
      entries, exactMatch := table[i].GetEntryByIdOrReturnAll(targetId);
      if exactMatch {
        StoredAt(Rows(table), i, entries[0]);
        return entries, true;
      }
      CollectBucket(Rows(table), visited, i, bucketSize, collected);
      var maxSpaceLeft := bucketSize - |collected|;
      var entriesToAppend := if maxSpaceLeft < |entries| then maxSpaceLeft else |entries|;
      result := collected + entries[..entriesToAppend];
    }

    /** The id is looked for in its own bucket first; anything else is collected in visiting order. */
    method FindNodeWithoutSelf(targetId: NodeId) returns (result: seq<Contact>, exactMatch: bool)
      requires Valid()
      ensures |table| > 0
      ensures exactMatch <==> targetId in StoredIds(Rows(table))
      ensures exactMatch ==> |result| == 1 && result[0].id == targetId && Stored(Rows(table), result[0])
      ensures !exactMatch ==> result == Answer(thisNodeInfo.id, bucketSize, Rows(table), targetId, 1)
    {
      hide Canonical, DistinctIds, PrefixLength, Storable, Visits, VisitsFrom, Concat, Stored, StoredIds, Ids, Sound, IndicesBelow;
      ghost var rows := Rows(table);
      CanonicalIsSound(thisNodeInfo.id, bucketSize, offered);
      StoredInOwnBucket(thisNodeInfo.id, bucketSize, rows, targetId);
      var currentMaxPrefixLength := |table| - 1;
      var prefixLength := CommonPrefixLength(thisNodeInfo.id, targetId);
      var startBucketIndex := if prefixLength < currentMaxPrefixLength then prefixLength else currentMaxPrefixLength;
      assert startBucketIndex == BucketIndex(thisNodeInfo.id, targetId, currentMaxPrefixLength);
      result := [];

      ghost var visited: seq<nat> := [];
      NothingVisited(rows, startBucketIndex, currentMaxPrefixLength, 1);
      var offset := 0;
      while startBucketIndex - offset > 0 || startBucketIndex + offset <= currentMaxPrefixLength
        invariant IndicesBelow(visited, |table|)
        invariant visited + VisitsFrom(startBucketIndex, currentMaxPrefixLength, 1, offset)
               == Visits(startBucketIndex, currentMaxPrefixLength, 1)
        invariant result == Take(Concat(rows, visited), bucketSize)
        invariant offset > 0 ==> targetId !in Ids(rows[startBucketIndex])
        decreases currentMaxPrefixLength + 1 - offset
      {
        RoundStep(startBucketIndex, currentMaxPrefixLength, 1, offset, visited);
        ghost var before := visited;
        var i := startBucketIndex - offset;
        if i >= 0 {
          var found;
          result, found := VisitBucket(i, targetId, result, visited);
          if found {
            return result, true;
          }
          visited := visited + [i];
        }

        i := startBucketIndex + offset;
        if offset > 0 && i <= currentMaxPrefixLength {
          var found;
          result, found := VisitBucket(i, targetId, result, visited);
          if found {
            return result, true;
          }
          visited := visited + [i];
        }
        assert visited == before + Round(startBucketIndex, currentMaxPrefixLength, offset);

        if |result| >= bucketSize {
          SearchFull(rows, visited, VisitsFrom(startBucketIndex, currentMaxPrefixLength, 1, offset + 1), bucketSize);
          return result, false;
        }
        offset := offset + 1;
      }
      AllVisited(startBucketIndex, currentMaxPrefixLength, 1, offset, visited);
      return result, false;
    }

    method FindNode(targetId: NodeId) returns (result: seq<Contact>, exactMatch: bool)
      requires Valid()
      ensures |table| > 0
      ensures exactMatch <==> targetId == thisNodeInfo.id || targetId in StoredIds(Rows(table))
      ensures exactMatch ==> |result| == 1 && result[0].id == targetId && (result[0] == thisNodeInfo || Stored(Rows(table), result[0]))
      ensures !exactMatch ==> result == Answer(thisNodeInfo.id, bucketSize, Rows(table), targetId, 1)
      ensures !exactMatch ==> (Disjoint(result, Rows(table)[0]) <==> LeavesOutBucketZero(targetId))
      ensures targetId == thisNodeInfo.id ==> result == [thisNodeInfo]
    {
      hide Canonical, Answer, LeavesOutBucketZero, Disjoint, StoredIds, Stored;
      BucketZero(targetId);
      if thisNodeInfo.id == targetId {
        return [thisNodeInfo], true;
      }
      result, exactMatch := FindNodeWithoutSelf(targetId);
    }
  }
}

/** The Rust routing table as the object the program mutates: buckets of fixed-capacity vectors
    that are updated, drained and split in place. Its ghost field `model` is the table value of
    RatedTable, and every update is proved to be that module's update step. */
module RustRoutingTable {
  import opened NodeIds
  import opened Contacts
  import opened FixedVecs
  import opened Lookup
  import opened Options
  import opened RatedTable

  datatype Bucket = Bucket(entries: FixedVec<RoutingEntry>, lo: nat, hi: nat)

  datatype NodeMatch = Exact(node: Contact) | Closest(nodes: FixedVec<Contact>)

  class RoutingTable {
    const referenceId: NodeId
    var buckets: seq<Bucket>
    ghost var model: seq<BucketValue>
    ghost var repr: set<object>

    /** The buckets' vectors are separate objects and hold what the model says. */
    ghost predicate Represents()
      reads this, repr
    {
      |buckets| == |model| && Separate() && forall i :: 0 <= i < |buckets| ==> model[i] == ValueOf(buckets[i])
    }

    ghost predicate Separate()
      reads this, repr
    {
      && (forall i :: 0 <= i < |buckets| ==>
            buckets[i].entries in repr && buckets[i].entries.data in repr && buckets[i].entries.Valid())
      && (forall i, j :: 0 <= i < j < |buckets| ==>
            buckets[i].entries != buckets[j].entries && buckets[i].entries.data != buckets[j].entries.data)
    }

    static ghost function ValueOf(b: Bucket): BucketValue
      requires b.entries.Valid()
      reads b.entries, b.entries.data
    {
      BucketValue(b.lo, b.hi, b.entries.Contents())
    }

    /** As Represents, but the model need not know yet what is in bucket i. */
    ghost predicate Pending(i: nat)
      reads this, repr
    {
      |buckets| == |model| && Separate() && forall k :: 0 <= k < |buckets| && k != i ==> model[k] == ValueOf(buckets[k])
    }

    /** After the vector of one bucket was changed in place, the model follows. */
    ghost method Follow(i: nat)
      requires Pending(i) && i < |buckets|
      modifies this`model
      ensures Represents() && model == old(model)[i := ValueOf(buckets[i])]
    {
      model := model[i := ValueOf(buckets[i])];
    }

    ghost predicate Valid()
      reads this, repr
    {
      this !in repr && Represents() && TableInvariant(referenceId, model)
    }

    constructor (referenceId: NodeId)
      ensures Valid() && fresh(repr)
      ensures this.referenceId == referenceId && model == InitialTable()
    {
      var entries := new FixedVec<RoutingEntry>();
      this.referenceId := referenceId;
      buckets := [Bucket(entries, 0, ID_BITS)];
      model := InitialTable();
      repr := {entries, entries.data};
    }

    /** The linear search for the bucket whose bounds contain a prefix length. */
    method FindBucket(prefixLen: nat, ghost id: NodeId) returns (bucketIndex: nat)
      requires Valid() && id != referenceId && prefixLen == PrefixLength(referenceId, id)
      ensures bucketIndex < |buckets| && bucketIndex == BucketIndex(referenceId, id, |buckets| - 1)
    {
      OneBucketPerId(referenceId, model, id);
      bucketIndex := 0;
      while !(buckets[bucketIndex].lo <= prefixLen < buckets[bucketIndex].hi)
        invariant bucketIndex <= BucketIndex(referenceId, id, |buckets| - 1)
        decreases |buckets| - bucketIndex
      {
        assert model[bucketIndex].lo == buckets[bucketIndex].lo && model[bucketIndex].hi == buckets[bucketIndex].hi;
        bucketIndex := bucketIndex + 1;
      }
      assert model[bucketIndex].lo == buckets[bucketIndex].lo && model[bucketIndex].hi == buckets[bucketIndex].hi;
    }

    method Position(entries: FixedVec<RoutingEntry>, id: NodeId) returns (position: nat)
      requires entries.Valid()
      ensures position == PositionOf(entries.Contents(), id)
    {
      position := 0;
      while position < entries.length && entries.At(position).node.id != id
        invariant position <= PositionOf(entries.Contents(), id)
        decreases entries.length - position
      {
        position := position + 1;
      }
    }

    method BadPosition(entries: FixedVec<RoutingEntry>, clock: Clock) returns (position: nat)
      requires entries.Valid()
      ensures position == FirstBad(entries.Contents(), clock)
    {
      position := 0;
      while position < entries.length && entries.At(position).Rating(clock.rated(position)) != Bad
        invariant position <= FirstBad(entries.Contents(), clock)
        decreases entries.length - position
      {
        position := position + 1;
      }
    }

    /** Moves the entries with prefix lengths in [cut, hi) out of a vector, in place. */
    method DrainUpper(entries: FixedVec<RoutingEntry>, cut: nat, hi: nat) returns (drained: FixedVec<RoutingEntry>)
      requires entries.Valid()
      modifies entries, entries.data
      ensures entries.Valid() && drained.Valid() && fresh(drained) && fresh(drained.data)
      ensures var r := Drain(referenceId, old(entries.Contents()), cut, hi, 0);
              entries.Contents() == r.0 && drained.Contents() == r.1
    {
      hide PrefixLength, SwapRemoved;
      ghost var result := Drain(referenceId, entries.Contents(), cut, hi, 0);
      drained := new FixedVec<RoutingEntry>();
      var i := 0;
      while i != entries.length
        invariant entries.Valid() && drained.Valid() && fresh(drained) && fresh(drained.data)
        invariant i <= entries.length && entries.length + drained.length <= CAPACITY
        invariant result.0 == Drain(referenceId, entries.Contents(), cut, hi, i).0
        invariant result.1 == drained.Contents() + Drain(referenceId, entries.Contents(), cut, hi, i).1
        decreases entries.length - i
      {
        DrainStep(referenceId, entries.Contents(), cut, hi, i, drained.Contents());
        hide Drain;
        var prefixLen := CommonPrefixLengthByDistance(referenceId, entries.At(i).node.id);
        if cut <= prefixLen < hi {
          var entry := entries.SwapRemove(i);
          drained.Push(entry);
        } else {
          i := i + 1;
        }
      }
      DrainDone(referenceId, entries.Contents(), cut, hi, drained.Contents());
    }

    /** Overwrites one entry of a bucket. */
    method PutEntry(i: nat, position: nat, entry: RoutingEntry)
      requires Represents() && this !in repr && i < |buckets| && position < buckets[i].entries.length
      modifies this`model, buckets[i].entries.data
      ensures Represents() && model == old(model)[i := old(model)[i].(entries := old(model)[i].entries[position := entry])]
    {
      buckets[i].entries.Put(position, entry);
      Follow(i);
    }

    /** Adds an entry to a bucket with an open slot. */
    method PushEntry(i: nat, entry: RoutingEntry)
      requires Represents() && this !in repr && i < |buckets| && buckets[i].entries.IsNotFull()
      modifies this`model, buckets[i].entries, buckets[i].entries.data
      ensures Represents() && model == old(model)[i := old(model)[i].(entries := old(model)[i].entries + [entry])]
    {
      buckets[i].entries.Push(entry);
      Follow(i);
    }

    /** Drains bucket i from `cut` on. */
    method DrainBucket(i: nat, cut: nat) returns (drained: FixedVec<RoutingEntry>)
      requires Represents() && i < |buckets|
      modifies buckets[i].entries, buckets[i].entries.data
      ensures Pending(i) && drained.Valid() && fresh(drained) && fresh(drained.data)
      ensures buckets[i].entries.Valid()
      ensures var r := Drain(referenceId, model[i].entries, cut, buckets[i].hi, 0);
              buckets[i].entries.Contents() == r.0 && drained.Contents() == r.1
    {
      hide Drain;
      drained := DrainUpper(buckets[i].entries, cut, buckets[i].hi);
    }

    /** Ends the bounds of bucket i at `cut` and inserts a bucket with the rest of them behind it. */
    method DivideBucket(i: nat, cut: nat, upper: FixedVec<RoutingEntry>)
      requires Pending(i) && i < |buckets| && this !in repr
      requires upper.Valid() && upper !in repr && upper.data !in repr
      modifies this
      ensures Represents() && repr == old(repr) + {upper, upper.data}
      ensures old(buckets)[i].entries.Valid()
      ensures var b := old(buckets)[i];
              model == old(model)[..i] + [BucketValue(b.lo, cut, b.entries.Contents()), BucketValue(cut, b.hi, upper.Contents())] + old(model)[i + 1..]
    {
      var bucket := buckets[i];
      var lowerBucket, upperBucket := bucket.(hi := cut), Bucket(upper, cut, bucket.hi);
      buckets := buckets[..i] + [lowerBucket, upperBucket] + buckets[i + 1..];
      repr := repr + {upper, upper.data};
      model := model[..i] + [ValueOf(lowerBucket), ValueOf(upperBucket)] + model[i + 1..];
    }

    /** The drained entries in a bucket of their own; the append is to an empty vector. */
    method UpperHalf(drained: FixedVec<RoutingEntry>) returns (upper: FixedVec<RoutingEntry>)
      requires drained.Valid()
      ensures upper.Valid() && fresh(upper) && fresh(upper.data) && upper.Contents() == drained.Contents()
    {
      upper := new FixedVec<RoutingEntry>();
      upper.Append(drained);
    }

    method PushLower(i: nat, entry: RoutingEntry)
      requires Pending(i) && i < |buckets| && this !in repr
      requires buckets[i].entries.Valid() && buckets[i].entries.IsNotFull()
      modifies buckets[i].entries, buckets[i].entries.data
      ensures Pending(i) && buckets[i].entries.Valid()
      ensures buckets[i].entries.Contents() == old(buckets[i].entries.Contents()) + [entry]
    {
      buckets[i].entries.Push(entry);
    }

    /** Gives the drained entries a bucket of their own and the new entry to one of the halves. */
    method SplitInto(i: nat, cut: nat, drained: FixedVec<RoutingEntry>, entry: RoutingEntry, intoLower: bool)
      requires Pending(i) && i < |buckets| == |model| && this !in repr && buckets[i].entries.Valid() && drained.Valid()
      requires drained !in repr && drained.data !in repr
      requires if intoLower then buckets[i].entries.IsNotFull() else drained.IsNotFull()
      modifies this, buckets[i].entries, buckets[i].entries.data
      ensures Represents() && this !in repr && fresh(repr - old(repr))
      ensures var b, kept, moved := old(buckets)[i], old(buckets[i].entries.Contents()), old(drained.Contents());
              model == old(model)[..i]
                     + [BucketValue(b.lo, cut, if intoLower then kept + [entry] else kept),
                        BucketValue(cut, b.hi, if intoLower then moved else moved + [entry])]
                     + old(model)[i + 1..]
    {
      hide Represents, Separate, Pending;
      var upper := UpperHalf(drained);
      if intoLower {
        PushLower(i, entry);
      } else {
        upper.Push(entry);
      }
      DivideBucket(i, cut, upper);
    }

    /** Puts drained entries back; the caller knows that nothing was drained or nothing was left. */
    method PutBack(i: nat, drained: FixedVec<RoutingEntry>)
      requires Pending(i) && i < |buckets| && this !in repr
      requires buckets[i].entries.Valid() && drained.Valid() && drained !in repr && drained.data !in repr
      requires buckets[i].entries.EmptySlots() >= drained.length
      requires buckets[i].entries.length == 0 || drained.length == 0
      modifies buckets[i].entries, buckets[i].entries.data
      ensures Pending(i) && buckets[i].entries.Valid()
      ensures buckets[i].entries.Contents() == old(buckets[i].entries.Contents()) + drained.Contents()
    {
      buckets[i].entries.Append(drained);
    }

    /** Splits a full bucket to make room for an entry, or puts the drained entries back. Every
        append has an empty side, so none of them overwrites an entry. */
    method SplitForEntry(i: nat, entry: RoutingEntry)
      requires Represents() && this !in repr && i < |buckets| == |model|
      requires buckets[i].entries.Valid() && model[i] == ValueOf(buckets[i]) && buckets[i].entries.IsFull()
      requires model[i].lo + 1 < model[i].hi
      requires model[i].lo <= PrefixLength(referenceId, entry.node.id) < model[i].hi
      modifies this, buckets[i].entries, buckets[i].entries.data
      ensures Represents() && this !in repr && fresh(repr - old(repr))
      ensures model == old(model)[..i] + SplitBucket(referenceId, old(model)[i], entry) + old(model)[i + 1..]
    {
      hide Drain, PrefixLength, BucketInvariant, Represents, Separate, Pending, SplitBucket;
      var bucket := buckets[i];
      ghost var b, before := model[i], model;
      var prefixLen := CommonPrefixLengthByDistance(referenceId, entry.node.id);
      var cut := bucket.lo + 1;
      var drained := DrainBucket(i, cut);
      SplitCases(referenceId, b, entry, bucket.entries.Contents(), drained.Contents());
      var lowerHasSlot := bucket.entries.IsNotFull();
      var upperHasSlot := drained.IsNotFull();

      if lowerHasSlot && bucket.lo <= prefixLen < cut {
        SplitInto(i, cut, drained, entry, true);
      } else if upperHasSlot && cut <= prefixLen < bucket.hi {
        SplitInto(i, cut, drained, entry, false);
      } else {
        PutBack(i, drained);
        Follow(i);
        assert model == before[..i] + SplitBucket(referenceId, b, entry) + before[i + 1..];
      }
    }

    /** The bucket does not have the node yet; it is added if there is or can be made room for it. */
    method AddNode(bucketIndex: nat, node: Contact, seenIn: SeenIn, clock: Clock)
      requires Represents() && this !in repr && bucketIndex < |buckets| == |model|
      requires buckets[bucketIndex].entries.Valid() && model[bucketIndex] == ValueOf(buckets[bucketIndex])
      requires model[bucketIndex].lo <= PrefixLength(referenceId, node.id) < model[bucketIndex].hi
      requires PositionOf(model[bucketIndex].entries, node.id) == |model[bucketIndex].entries|
      modifies this, buckets[bucketIndex].entries, buckets[bucketIndex].entries.data
      ensures Represents() && this !in repr && fresh(repr - old(repr))
      ensures model == old(model)[..bucketIndex] + UpdatedBucket(referenceId, old(model)[bucketIndex], node, seenIn, clock) + old(model)[bucketIndex + 1..]
    {
      hide PositionOf, FirstBad, PrefixLength, SplitBucket, Separate, Represents;
      var bucket := buckets[bucketIndex];
      var newEntry := RoutingEntry(node, None, None).Updated(seenIn, clock.recorded);

      if bucket.entries.IsNotFull() {
        PushEntry(bucketIndex, newEntry);
        return;
      }

      var badNode := BadPosition(bucket.entries, clock);
      if badNode < bucket.entries.length {
        PutEntry(bucketIndex, badNode, newEntry);
        return;
      }

      if bucket.hi - bucket.lo > 1 {
        SplitForEntry(bucketIndex, newEntry);
      }
    }

    /** Updates the node's entry if its bucket has one, and tries to add the node otherwise. */
    method UpdateBucket(bucketIndex: nat, node: Contact, seenIn: SeenIn, clock: Clock)
      requires Represents() && this !in repr && bucketIndex < |buckets| == |model|
      requires buckets[bucketIndex].entries.Valid() && model[bucketIndex] == ValueOf(buckets[bucketIndex])
      requires model[bucketIndex].lo <= PrefixLength(referenceId, node.id) < model[bucketIndex].hi
      modifies this, buckets[bucketIndex].entries, buckets[bucketIndex].entries.data
      ensures Represents() && this !in repr && fresh(repr - old(repr))
      ensures model == old(model)[..bucketIndex] + UpdatedBucket(referenceId, old(model)[bucketIndex], node, seenIn, clock) + old(model)[bucketIndex + 1..]
    {
      hide PositionOf, FirstBad, SplitBucket, PrefixLength, Represents, Separate;
      var entries := buckets[bucketIndex].entries;

      var entryPosition := Position(entries, node.id);
      if entryPosition < entries.length {
        PutEntry(bucketIndex, entryPosition, entries.At(entryPosition).Updated(seenIn, clock.recorded));
      } else {
        AddNode(bucketIndex, node, seenIn, clock);
      }
    }

    method Update(node: Contact, seenIn: SeenIn, clock: Clock)
      requires Valid() && node.id != referenceId
      modifies this, repr
      ensures Valid() && fresh(repr - old(repr))
      ensures model == UpdatedTable(referenceId, old(model), node, seenIn, clock)
    {
      UpdateKeepsInvariant(referenceId, model, node, seenIn, clock);
      TargetBucket(referenceId, model, node.id);
      hide TableInvariant, PrefixLength, BucketInvariant, UpdatedTable, UpdatedBucket;
      var prefixLen := CommonPrefixLengthByDistance(referenceId, node.id);
      var bucketIndex := FindBucket(prefixLen, node.id);
      UpdatedByParts(referenceId, model, node, seenIn, clock, bucketIndex);
      assert model[bucketIndex] == ValueOf(buckets[bucketIndex]);
      assert buckets[bucketIndex].entries in repr && buckets[bucketIndex].entries.data in repr;
      assert buckets[bucketIndex].entries.Valid();
      hide Represents, Separate;
      UpdateBucket(bucketIndex, node, seenIn, clock);
    }

    /** Adds the nodes of one bucket until the result is full. */
    method CollectNodes(result: FixedVec<Contact>, entries: FixedVec<RoutingEntry>)
      requires result.Valid() && entries.Valid() && result.IsNotFull() && entries.data as object != result.data
      modifies result, result.data
      ensures result.Valid() && result.Contents() == Take(old(result.Contents()) + Nodes(entries.Contents()), CAPACITY)
    {
      ghost var before, nodes := result.Contents(), Nodes(entries.Contents());
      for i := 0 to entries.length
        invariant result.Valid() && result.IsNotFull() && entries.Valid() && nodes == Nodes(entries.Contents())
        invariant i <= |nodes| && result.Contents() == before + nodes[..i]
      {
        result.Push(entries.At(i).node);
        assert result.Contents() == before + nodes[..i + 1];
        if result.IsFull() {
          return;
        }
      }
    }

    /** Looks for an id in its own bucket, collecting the other nodes of it. */
    method SearchOwnBucket(result: FixedVec<Contact>, entries: FixedVec<RoutingEntry>, nodeId: NodeId) returns (position: nat)
      requires result.Valid() && result.Contents() == [] && entries.Valid() && entries.data as object != result.data
      modifies result, result.data
      ensures entries.Valid() && position <= entries.length && result.Valid()
      ensures position < entries.length ==> entries.At(position).node.id == nodeId
      ensures position == entries.length <==> nodeId !in Ids(Nodes(entries.Contents()))
      ensures position == entries.length ==> result.Contents() == Nodes(entries.Contents())
    {
      ghost var nodes := Nodes(entries.Contents());
      position := 0;
      while position < entries.length
        invariant position <= entries.length && result.Valid() && entries.Valid() && nodes == Nodes(entries.Contents())
        invariant result.Contents() == nodes[..position]
        invariant forall j :: 0 <= j < position ==> nodes[j].id != nodeId
      {
        if entries.At(position).node.id == nodeId {
          assert nodes[position] in nodes;
          return;
        }
        result.Push(entries.At(position).node);
        position := position + 1;
      }
    }

    /** Collects from bucket i, unless the result is full. */
    method VisitBucket(result: FixedVec<Contact>, i: nat, ghost visited: seq<nat>)
      requires Represents() && i < |buckets| && IndicesBelow(visited, |model|)
      requires result.Valid() && result !in repr && result.data !in repr
      requires result.Contents() == Take(Concat(Rows(model), visited), CAPACITY)
      modifies result, result.data
      ensures Represents() && result.Valid() && IndicesBelow(visited + [i], |model|)
      ensures result.Contents() == Take(Concat(Rows(model), visited + [i]), CAPACITY)
    {
      hide Concat, IndicesBelow;
      assert model[i] == ValueOf(buckets[i]);
      if result.IsNotFull() {
        CollectAndCut(Rows(model), visited, i, CAPACITY);
        CollectNodes(result, buckets[i].entries);
      } else {
        FullAlready(Rows(model), visited, i, CAPACITY);
      }
    }

    /** The loop around the start bucket, whose nodes the result already holds. */
    method CollectAround(result: FixedVec<Contact>, bucketIndex: nat)
      requires Represents() && bucketIndex < |buckets| == |model| && |Rows(model)[bucketIndex]| <= CAPACITY
      requires result.Valid() && result !in repr && result.data !in repr
      requires result.Contents() == Rows(model)[bucketIndex]
      modifies result, result.data
      ensures result.Valid()
      ensures result.Contents() == Take(Concat(Rows(model), Visits(bucketIndex, |model| - 1, 0)), CAPACITY)
    {
      hide Represents, Separate, Rows, Concat, Visits, VisitsFrom, IndicesBelow;
      ghost var rows, max := Rows(model), |model| - 1;
      RowCount(model);
      FirstRound(rows, bucketIndex, max, 0, CAPACITY);
      ghost var visited: seq<nat> := [bucketIndex];
      var offset: nat := 1;
      while result.IsNotFull() && (bucketIndex >= offset || bucketIndex + offset < |buckets|)
        invariant Represents() && result.Valid() && IndicesBelow(visited, |model|) && offset > 0
        invariant result.Contents() == Take(Concat(rows, visited), CAPACITY)
        invariant visited + VisitsFrom(bucketIndex, max, 0, offset) == Visits(bucketIndex, max, 0)
        decreases max + 1 - offset
      {
        RoundStep(bucketIndex, max, 0, offset, visited);
        ghost var before := visited;
        if bucketIndex >= offset {
          VisitBucket(result, bucketIndex - offset, visited);
          visited := visited + [bucketIndex - offset];
        }
        if bucketIndex + offset < |buckets| {
          VisitBucket(result, bucketIndex + offset, visited);
          visited := visited + [bucketIndex + offset];
        }
        assert visited == before + Round(bucketIndex, max, offset);
        offset := offset + 1;
      }
      if result.IsFull() {
        SearchFull(rows, visited, VisitsFrom(bucketIndex, max, 0, offset), CAPACITY);
      } else {
        AllVisited(bucketIndex, max, 0, offset, visited);
      }
    }

    /** The bucket of an id, and that a lookup need not look for the id anywhere else. */
    method OwnBucket(nodeId: NodeId) returns (bucketIndex: nat)
      requires Valid() && nodeId != referenceId
      ensures bucketIndex < |buckets| == |model| && bucketIndex == BucketIndex(referenceId, nodeId, |model| - 1)
      ensures var entries := buckets[bucketIndex].entries;
              && entries in repr && entries.data in repr && entries.Valid()
              && Rows(model)[bucketIndex] == Nodes(entries.Contents())
      ensures nodeId in StoredIds(Rows(model)) <==> nodeId in Ids(Rows(model)[bucketIndex])
    {
      hide PrefixLength, StoredIds, Ids, Sound, BucketInvariant;
      InvariantIsSound(referenceId, model);
      StoredInOwnBucket(referenceId, CAPACITY, Rows(model), nodeId);
      var prefixLen := CommonPrefixLengthByDistance(referenceId, nodeId);
      bucketIndex := FindBucket(prefixLen, nodeId);
      assert model[bucketIndex] == ValueOf(buckets[bucketIndex]);
    }

    method Find(nodeId: NodeId) returns (found: NodeMatch)
      requires Valid() && nodeId != referenceId
      ensures |model| > 0
      ensures found.Exact? <==> nodeId in StoredIds(Rows(model))
      ensures found.Exact? ==> found.node.id == nodeId && Stored(Rows(model), found.node)
      ensures found.Closest? ==> found.nodes.Valid()
      ensures found.Closest? ==>
                found.nodes.Contents() == Answer(referenceId, CAPACITY, Rows(model), nodeId, 0)
      ensures found.Closest? ==>
                var nodes, stored := found.nodes.Contents(), |StoredIds(Rows(model))|;
                && |nodes| == (if stored < 8 then stored else 8)
                && DistinctIds(nodes) && forall c :: c in nodes ==> Stored(Rows(model), c)
    {
      hide TableInvariant, Concat, Visits, Ids, StoredIds, Stored, BucketIndex, DistinctIds;
      AnswerIsAsLargeAsPossible(referenceId, model, nodeId);
      var bucketIndex := OwnBucket(nodeId);
      var entries := buckets[bucketIndex].entries;
      var result := new FixedVec<Contact>();
      var position := SearchOwnBucket(result, entries, nodeId);
      if position < entries.length {
        StoredAt(Rows(model), bucketIndex, Nodes(entries.Contents())[position]);
        return Exact(entries.At(position).node);
      }
      CollectAround(result, bucketIndex);
      return Closest(result);
    }
  }
}

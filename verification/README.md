# A Dafny model of two mainline DHT nodes

The repository holds two independent programs for the BitTorrent DHT, one in Go and one in Rust. This project models
the parts of them in which state and arithmetic interact, and proves what those parts are for:

* **Routing tables** (the "Routing Table" section of BEP 5). Both tables keep contacts by the length of the prefix their
  id shares with the own id. The Go table splits its last bucket, recursively, until a new contact fits or must be
  dropped; the Rust table has explicit bounds, rates entries by the age of their last messages, replaces bad ones,
  splits at most once per update and drains a vector of eight slots in place. Node ids are 20 bytes; prefix lengths,
  single bits and the XOR metric are proved to be three views of the same thing.
* **Bencoding** (the "bencoding" section of BEP 3). Two recursive-descent decoders over a mutable position, and two
  encoders. Both decoders are proved against one grammar with a dialect for each program, and the grammar's unambiguity
  gives round trips, normalisation and the exact inputs on which the two programs differ.
* **KRPC** (the "KRPC Protocol" section of BEP 5). The messages on top of bencoding, and the map of pending requests
  under every interleaving of callers, timeouts and the receiver, with random transaction ids that may collide.

## How the files belong together

| files | contents |
|---|---|
| `NodeIds`, `Contacts` | bits, prefix lengths, the XOR metric, the byte loops of both programs; sequences of contacts |
| `Lookup`, `LookupOrder` | the search around a start bucket, over the contacts of any sound table, which both programs' loops refine; when its order is that of common prefixes |
| `GoBuckets`, `GoTableHistory`, `GoRoutingTable`, `GoLookupExamples` | buckets as values; the table as a closed form of all offers; the class that is updated; two reachable tables on which the search falls short |
| `FixedVecs`, `RatedTable`, `RustRoutingTable`, `EntryTimes`, `NeedlessDrops` | the vector of eight slots; one update and runs of updates on values; the class that is updated in place; what entries record; when one split is not enough |
| `Bencode`, `BencodeGrammar`, `BencodeParser`, `BencodeTheorems`, `BencodeNormal` | values, syntax trees, the parsing function and the theorems |
| `RustDecoder`, `GoDecoder`, `BencodeExamples` | the decoders and encoders of the two programs; encodings and messages byte for byte |
| `KrpcMessages`, `KrpcRuntime` | messages; pending requests |
| `Options` | values that may be missing |

Every class or method with loops and updates is proved to compute a function of its inputs and its old state; what the
programs promise is then proved about those functions, for all inputs and whole runs. `dafny verify dfyconfig.toml`
verifies everything.

## What the code does that its documents do not say

* The Go search (`go/routing_table.go:89`) does not ask for bucket 0 on its lower side. `Lookup.AnswerIsComplete` says
  exactly when that makes an answer too short, `GoLookupExamples.MissedBucketExample` is a reachable table where it does,
  and `Lookup.AnswersAgree` says exactly when the Go and the Rust search answer alike on the same table.
* Nodes are returned in the order in which buckets are visited, which is not the order of XOR distance:
  `GoLookupExamples.FartherContactExample` is a reachable table whose lookup returns a contact although strictly closer
  ones are stored. `LookupOrder.NearestFirstExactly` says for every table and target, by the sizes of the buckets, when
  no contact is returned in place of one that shares more bits with the target. What always holds is in
  `Lookup.OwnBucketIsNearest`, `Lookup.FullBucketIsClosest` and `Lookup.LastBucketAnswer`.
* The Rust program counts whole minutes up to and including 15, so a response keeps a node good for 960 seconds and not
  for the 900 of BEP 5. A node that only ever sent queries is bad at once, although the comment speaks of inactivity.
  `RatedTable.RatingExactly` has the exact rule, `RatedTable.RatingExamples` an entry for each of these cases.
* The Rust program splits once per update. `RatedTable.HeardNodeIsStored` says exactly when a node is dropped,
  `NeedlessDrops.DroppedNeedlessly` exactly when it is dropped although the same split, repeated on the half that
  everything falls into, would have taken it in, and `NeedlessDrops.NeedlessDropExample` is a run in which that happens.
  The Go program keeps splitting and drops a node only for want of room in the bucket of its prefix length
  (`GoTableHistory.DroppedExactly`).
* `FixedVec::append` writes from slot 0 (`rust/src/fixed_vec.rs:73`). It is a concatenation only if one side is empty
  (`FixedVecs.AppendIsConcatenation`), which the callers in `update` guarantee.
* The Go decoder rejects -2^63 although its encoder writes it, and it accepts a sign before the length of every byte
  string; the Rust decoder accepts a sign only before the lengths of dictionary keys. `BencodeTheorems.RustThenGo` and
  `BencodeTheorems.GoThenRust` say exactly on which inputs the decoders differ, `BencodeTheorems.LeastIntExample` and
  `BencodeTheorems.SignedStringExample` are such inputs.
* A transaction id that is drawn again while the earlier call is still in the map takes that call's place, and no
  continuation answers it any more. `KrpcRuntime.LostExactlyByCollision` says exactly when a step loses a call,
  `KrpcRuntime.CollisionExample` is a run that loses one, and `KrpcRuntime.AnswerableIffReachable` says what that means.
  A comment in `generateTransactionId` asks for the uniqueness that is missing there.
* A call whose send fails returns without cancelling. If it is still in the map then, its entry outlives it until the id
  is drawn again, answered, or cancelled by another call: `KrpcRuntime.OrphanedExactly` and
  `KrpcRuntime.OrphanRemovedExactly` say exactly which steps leave such an entry and which remove it, and
  `KrpcRuntime.OrphanExample` is a run that leaves one. No other entry outlives its call (`KrpcRuntime.OutlivingEntry`).

## Model

| member | source | states |
|---|---|---|
| NodeIds.PrefixLengthUnique | go/node_info.go:16-39 | the prefix length is the only position up to which two ids agree bit by bit and at which they differ |
| NodeIds.CommonPrefixLength | go/node_info.go:29-39 | the Go byte loop computes the index of the first differing bit, 160 for equal ids |
| NodeIds.Distance | rust/src/main.rs:469-477 | the distance array is the bytewise exclusive or of the ids |
| NodeIds.CommonPrefixLengthByDistance | rust/src/main.rs:479-492 | the Rust loop over the distance bytes computes the same prefix length as the Go loop |
| NodeIds.FullPrefixIsEquality | go/node_info.go:20-22 | two ids share all 160 bits if and only if they are equal |
| NodeIds.PrefixUltrametric | go/node_info.go:29-39 | of three prefix lengths the two shorter ones are equal, and two ids that leave a third at the same bit share strictly more with each other |
| NodeIds.PrefixIsMagnitude | rust/src/main.rs:469-492 | a prefix of p bits is the same as an XOR distance in [2^(159-p), 2^(160-p)); only an id itself has distance 0 |
| NodeIds.LongerPrefixIsCloser | rust/src/main.rs:469-492 | an id that shares more bits with a target is strictly closer to it |
| NodeIds.PrefixClassSize | go/routing_table.go:16-18 | at most 2^(160-k) distinct ids share k bits with a given id: the count behind the comment on table size |
| Contacts.BetweenBound | go/routing_table.go:16-18 | the same bound for distinct contacts of a bucket |
| Lookup.StoredInOwnBucket | go/routing_table.go:80-122 | in a sound table an id is stored anywhere if and only if it is in the one bucket of its prefix length |
| Lookup.VisitOrder | go/routing_table.go:89-107 | the search visits no bucket twice, in order of distance from the start bucket with the lower side first, and reaches every bucket except bucket 0 exactly where the guard of the Go program misses it |
| Lookup.ConcatOrder | go/routing_table.go:98-115 | the contacts of buckets visited in that order are distinct and keep the order |
| Lookup.OwnBucketIsNearest | go/routing_table.go:80-122 | every contact of the target's own bucket is strictly closer to the target, by XOR distance, than every contact of any other bucket |
| Lookup.FullBucketIsClosest | rust/src/main.rs:289-299 | a full own bucket is the whole answer, and all of it is strictly closer than everything omitted |
| Lookup.LastBucketAnswer | go/routing_table.go:80-122 | for a target of the last bucket, no omitted contact shares more bits with the target than a returned one |
| Lookup.AnswerOrder | go/routing_table.go:80-122 | an answer has distinct stored contacts, starts with the whole own bucket, and prefers no later visited bucket to an earlier one |
| Lookup.CandidateCount | go/routing_table.go:89 | the search collects everything stored, without bucket 0 where the guard does not reach it |
| Lookup.AnswerIsComplete | go/routing_table.go:89 | the answer has min(bucket size, number stored) contacts if and only if bucket 0 is reached, or empty, or not needed |
| Lookup.AnswersAgree | rust/src/main.rs:298-300 | with the guard of the Go program the answer is that of the Rust program if and only if the same condition holds |
| LookupOrder.ReturnedFromBelow | go/routing_table.go:90-102 | a bucket below the target's contributes to the answer if and only if it is reached, not empty, and the buckets nearer to the target's hold fewer contacts than fit |
| LookupOrder.OmittedFromAbove | go/routing_table.go:104-115 | a bucket above the target's is not returned in full if and only if it is not empty and, with the nearer buckets and the lower one at its distance, holds more contacts than fit |
| LookupOrder.NearestFirstExactly | go/routing_table.go:80-122 | every returned contact shares at least as many bits with the target as every omitted one if and only if no bucket below the target's contributes or every bucket above it is returned in full |
| LookupOrder.CandidateBlocks | go/routing_table.go:98-115 | every bucket that is reached is collected in one piece and in its own order, so an answer cut off within a bucket has its first contacts |
| LookupOrder.BucketZeroLeftOut | go/routing_table.go:89 | the Go search returns no contact of bucket 0 if and only if it is empty, or it is not the start bucket and is further from it than the last one or behind enough contacts to fill the answer |
| GoLookupExamples.MissedBucketExample | go/routing_table.go:89 | a reachable table of three contacts and size 2 whose lookup returns one contact |
| GoLookupExamples.FartherContactExample | go/routing_table.go:89-120 | a reachable table whose lookup returns a contact of bucket 0 and omits two strictly closer ones of a higher bucket |
| GoBuckets.WithBitConserves | go/routing_bucket.go:53-70 | the two halves by any bit hold every entry exactly as often as the whole |
| GoBuckets.BitDecidesPrefix | go/routing_bucket.go:61-67 | among entries that share k bits with the own id, bit k separates those with exactly k from those with more, in order |
| GoBuckets.Bucket.ContainsNodeId | go/routing_bucket.go:33-41 | true if and only if some entry has the id |
| GoBuckets.Bucket.AddEntry | go/routing_bucket.go:20-31 | succeeds if and only if the id is known or there is room; appends only a new id; the bucket stays within its size and without duplicates |
| GoBuckets.Bucket.GetEntryByIdOrReturnAll | go/routing_bucket.go:43-51 | an exact match if and only if the id is there, and then just its entry; otherwise all entries |
| GoBuckets.Bucket.SplitAt | go/routing_bucket.go:53-70 | the halves by the bit, in order, valid, and together all entries, although each goes through an insertion that could refuse it |
| GoTableHistory.InsertionStarts | go/routing_table.go:29-40 | the table after any history is a state from which an insertion can proceed |
| GoTableHistory.InsertionEnds | go/routing_table.go:42-53 | an insertion that fits, is known, or falls short of a full bucket before the last one ends in the closed form of the longer history |
| GoTableHistory.InsertionDescends | go/routing_table.go:55-69 | otherwise the split at an existing bit leads to a deeper state of the same insertion, so the recursion ends |
| GoTableHistory.InsertionPanics | go/routing_bucket.go:54-56 | a split past bit 159 means bucket size 0 and the own id |
| GoTableHistory.FullBeyondLastBit | go/routing_bucket.go:54-56 | a full bucket of ids with 160 common bits that lacks another such id has size 0, and that id is the own one |
| GoTableHistory.SplitLayout | go/routing_table.go:58-67 | splitting the last bucket and appending the half of the own id gives the closed form with one more bucket |
| GoTableHistory.NewOffer | go/routing_table.go:38-53 | at any depth, a new id is appended to the bucket of its prefix length unless that is full and not the last |
| GoTableHistory.KnownOffer | go/routing_bucket.go:21-23 | an id that was offered before changes nothing, even if it was dropped |
| GoTableHistory.Shape | go/routing_table.go:36-70 | the last bucket is the least k with at most b offered ids of prefix k or more and holds all of those; each bucket p before it holds min(b, number of offered ids of prefix p) |
| GoTableHistory.OrderIndependence | go/routing_table.go:36-70 | runs that offer the same ids, in any order and however often, end in tables of the same shape with the same last bucket |
| GoTableHistory.SizeBound | go/routing_table.go:16-18 | bucket k is split only if 2^(160-k) exceeds the bucket size; with size 8 there are never more than 158 buckets |
| GoTableHistory.DroppedExactly | go/routing_table.go:47-53 | an offered id is missing if and only if its bucket is not the last and b other ids of its prefix length came first |
| GoTableHistory.CanonicalIsSound | go/routing_table.go:36-70 | after every run: exact prefixes before the last bucket, at least its index in the last, no id twice, no bucket too large |
| GoTableHistory.FoundExactly | go/routing_table.go:36-122 | an id can be found after a run if and only if it was offered and not dropped |
| GoRoutingTable.RoutingTable.constructor | go/routing_table.go:15-27 | one empty bucket is the closed form of no offers |
| GoRoutingTable.RoutingTable.AddEntry | go/routing_table.go:29-34 | after the insertion the table is the closed form of the history with one more offer; it panics if and only if the bucket size is 0 and the entry has the own id |
| GoRoutingTable.RoutingTable.AddEntryRec | go/routing_table.go:36-70 | the same from every state of the recursion, which terminates |
| GoRoutingTable.RoutingTable.VisitBucket | go/routing_table.go:90-115 | one bucket of the search: an exact match replaces everything, otherwise as much is added as fits |
| GoRoutingTable.RoutingTable.FindNodeWithoutSelf | go/routing_table.go:80-122 | an exact match if and only if the id is stored in any bucket; otherwise the first b contacts in visiting order |
| GoRoutingTable.RoutingTable.FindNode | go/routing_table.go:72-78 | as above; the own id is an exact match with the own contact whatever is stored; and when a result has no contact of bucket 0, by index and bucket sizes |
| FixedVecs.SwapRemovedContents | rust/src/fixed_vec.rs:52-67 | a swapping removal takes out one occurrence of one element and keeps all others |
| FixedVecs.AppendIsConcatenation | rust/src/fixed_vec.rs:70-77 | copying to slot 0 is a concatenation for all contents if and only if one of the vectors is empty |
| FixedVecs.FixedVec.Push | rust/src/fixed_vec.rs:34-38 | the contents grow by the item at the end |
| FixedVecs.FixedVec.Put | rust/src/fixed_vec.rs:102-107 | assignment through an index replaces that element alone |
| FixedVecs.FixedVec.SwapRemove | rust/src/fixed_vec.rs:52-67 | returns the element and leaves the last one in its place |
| FixedVecs.FixedVec.Append | rust/src/fixed_vec.rs:70-77 | all slots after the copy; a concatenation if one side is empty |
| FixedVecs.FixedVec.AppendVec | rust/src/fixed_vec.rs:79-90 | a concatenation for all contents |
| RatedTable.RatingExactly | rust/src/main.rs:195-214 | at each of its two clock readings: good if and only if the node ever responded and its response or its query is less than 960 seconds old; questionable if and only if nothing was heard from it; bad otherwise |
| RatedTable.RatingExamples | rust/src/main.rs:195-214 | a node known by a referral alone is questionable and one known by a query alone is bad, at every reading; one that responded is good after 959 seconds and bad after 960 |
| RatedTable.OneBucketPerId | rust/src/main.rs:276-284 | the bounds of exactly one bucket contain an id's prefix length, and those of none contain the own id's |
| RatedTable.InvariantIsSound | rust/src/main.rs:271-333 | a table that keeps the invariant is sound, so all results about lookups apply |
| RatedTable.AnswerIsAsLargeAsPossible | rust/src/main.rs:289-332 | a lookup without exact match gives min(8, number stored) distinct stored nodes |
| RatedTable.DrainConserves | rust/src/main.rs:399-410 | draining with swapping removals loses and duplicates nothing |
| RatedTable.DrainSeparates | rust/src/main.rs:399-410 | what is drained belongs to the upper half, what stays to the lower |
| RatedTable.KeptInPlace | rust/src/main.rs:399-410 | an entry that stays keeps its place, unless that is past the end of what stays |
| RatedTable.AllDrained | rust/src/main.rs:399-410 | when everything is drained, the first entry comes first and the others in reverse, which is the order a reverted split leaves |
| RatedTable.SplitCases | rust/src/main.rs:421-442 | which branch is taken for which number of drained entries; entries are put back only if one side is empty |
| RatedTable.SplitOutcome | rust/src/main.rs:387-443 | the halves keep the bucket invariant and all entries, and the new one comes in, unless all nine entries fall into the same half |
| RatedTable.RefusedSplit | rust/src/main.rs:439-442 | a reverted split changes at most the order of the entries |
| RatedTable.BucketOutcome | rust/src/main.rs:352-443 | for every case of an update: the new bounds, the invariant, and the exact multiset of entries |
| RatedTable.EntriesInPlace | rust/src/main.rs:352-384 | without a split, every other entry keeps its place, and a new one takes the place of the bad one or the end |
| RatedTable.InitialInvariant | rust/src/main.rs:258-269 | the table with one bucket for 0..160 keeps the invariant |
| RatedTable.UpdateKeepsInvariant | rust/src/main.rs:335-444 | contiguous bounds over 0..160 with widths of one before the last bucket, entries within bounds, no id twice, at most eight entries |
| RatedTable.UpdateConserves | rust/src/main.rs:335-444 | the entries afterwards are those before, without the updated or replaced one, with the updated or new one |
| EntryTimes.OtherEntryUnchanged | rust/src/main.rs:335-444 | an update changes no entry of another node |
| EntryTimes.HeardEntry | rust/src/main.rs:216-222 | the heard node's entry keeps its contact and has the new time for a response or a query, none for a referral, and the old or no time for the rest |
| EntryTimes.EntryOfRun | rust/src/main.rs:335-444 | after every run an entry has the contact it came in with, and exactly the times of the last response and the last query heard from the node since it was last not stored |
| RatedTable.StoredOnce | rust/src/main.rs:335-444 | no entry is stored twice in the whole table |
| RatedTable.HasIsKnown | rust/src/main.rs:335-356 | a node has an entry in the table if and only if the one bucket it is looked for in knows it |
| RatedTable.HasIsFindable | rust/src/main.rs:271-333 | the nodes lookups can find are those that have an entry |
| RatedTable.RetainedUnlessEvicted | rust/src/main.rs:371-384 | another node's entry disappears if and only if it is the first bad one of a full bucket the heard node is new to |
| RatedTable.HeardNodeIsStored | rust/src/main.rs:352-443 | the heard node is stored afterwards if and only if it is not new to a full bucket without bad entries that is one wide or has all entries on the node's side |
| RatedTable.ResponseIsRecorded | rust/src/main.rs:216-222 | a node stored after its response has that response on record |
| RatedTable.QueryIsRecorded | rust/src/main.rs:216-222 | a stored node that has ever responded stays, with its query on record |
| RatedTable.GoodStays | rust/src/main.rs:335-444 | an update that rates entries within 960 seconds keeps a node that responded since then, or that has ever responded and responded or queried since then |
| RatedTable.RunKeepsInvariant | rust/src/main.rs:335-444 | the invariant holds after every run of updates |
| RatedTable.GoodNodeStays | rust/src/main.rs:195-214 | by either rule for good nodes, such a node is in the table after every run of updates of whatever nodes in those 960 seconds |
| RatedTable.ResponsiveNodeStays | rust/src/main.rs:203-205 | a node in the table right after a response recorded at t is in it, with that response or a later one, through every run of updates whose clock readings are from t to before t + 960 seconds |
| RatedTable.QueryingNodeStays | rust/src/main.rs:206-207 | a stored node that has ever responded and queries at t is in the table, with a response on record and that query or something later, through every such run |
| NeedlessDrops.SplitOnOutcome | rust/src/main.rs:412-419 | repeating the program's split on the half that everything falls into keeps every entry of a full bucket, and takes the new one in if and only if some entry has another prefix length |
| NeedlessDrops.SplittingOnMakesRoom | rust/src/main.rs:412-419 | that is, if and only if there is a depth at which the node's bucket would not hold all the entries |
| NeedlessDrops.RoomIfMixed | rust/src/main.rs:412-419 | where one split does not help, repeated splits do if and only if the node and all entries fall into the upper half with different prefix lengths |
| NeedlessDrops.DroppedNeedlessly | rust/src/main.rs:412-442 | a node is dropped although repeated splits would have taken it in if and only if it is new to a full bucket without bad entries and falls with all of them into the upper half, not all with one prefix length |
| NeedlessDrops.NeedlessDropExample | rust/src/main.rs:412-442 | a run of eight responses of prefix length 1 after which a node of prefix length 2 is dropped, the initial bucket staying unsplit with the same entries, although repeated splits would take it in |
| RustRoutingTable.RoutingTable.constructor | rust/src/main.rs:258-269 | one empty bucket with bounds 0..160 |
| RustRoutingTable.RoutingTable.FindBucket | rust/src/main.rs:273-284 | the linear search finds the bucket of the id and its `expect` never fails |
| RustRoutingTable.RoutingTable.Position | rust/src/main.rs:352-356 | the index of the node's entry, or none |
| RustRoutingTable.RoutingTable.BadPosition | rust/src/main.rs:377-380 | the index of the first bad entry, or none |
| RustRoutingTable.RoutingTable.DrainUpper | rust/src/main.rs:399-410 | the in-place loop computes the drain of the old contents; no push overflows |
| RustRoutingTable.RoutingTable.UpperHalf | rust/src/main.rs:425-427 | the append to a fresh bucket moves exactly the drained entries |
| RustRoutingTable.RoutingTable.SplitInto | rust/src/main.rs:423-438 | two buckets with the cut bounds in place of one, the new entry in the half of its prefix |
| RustRoutingTable.RoutingTable.PutBack | rust/src/main.rs:439-442 | reverting restores the drained entries behind the kept ones, given that one side is empty |
| RustRoutingTable.RoutingTable.SplitForEntry | rust/src/main.rs:387-443 | the bucket becomes what the split prescribes; every append has an empty side |
| RustRoutingTable.RoutingTable.AddNode | rust/src/main.rs:362-443 | the three cases for a node that is not in its bucket |
| RustRoutingTable.RoutingTable.UpdateBucket | rust/src/main.rs:352-443 | what an update does to the one bucket of the node, all others unchanged |
| RustRoutingTable.RoutingTable.Update | rust/src/main.rs:335-444 | the table becomes the update of its old value, with a clock reading for the record and two for every entry that is rated, and the object's invariant is kept |
| RustRoutingTable.RoutingTable.OwnBucket | rust/src/main.rs:272-284 | the id is stored anywhere if and only if it is in the bucket that the search finds |
| RustRoutingTable.RoutingTable.SearchOwnBucket | rust/src/main.rs:286-296 | finds the id in its own bucket or collects all nodes of it |
| RustRoutingTable.RoutingTable.CollectAround | rust/src/main.rs:298-330 | the first eight nodes in visiting order, bucket 0 included, without a push to a full vector |
| RustRoutingTable.RoutingTable.Find | rust/src/main.rs:271-333 | exact if and only if the id is stored in any bucket; otherwise min(8, number stored) distinct stored nodes, the first ones in visiting order |
| Bencode.Decimal | rust/src/bencode.rs:226-240 | the digits of a number have its value and no leading zero |
| Bencode.DecimalIsShortest | rust/src/bencode.rs:226-240 | no digits of the same value are shorter, and only digits without leading zeros are as written |
| Bencode.AtMostIsBytewise | go/bencode.go:125 | one key is not after another if and only if it is a prefix of it or has a smaller byte where they first differ |
| Bencode.SortedKeysAscend | go/bencode.go:120-125 | the keys of a dictionary are written in strictly ascending byte order |
| Bencode.AscendingIsSorted | go/bencode.go:120-125 | a strictly ascending sequence is the one sorted order of its elements |
| BencodeParser.RunEndUnique | go/bencode.go:44-52 | the run of digits at a position has one end |
| BencodeParser.ParseNumberAt | rust/src/bencode.rs:54-91 | a number written up to a non-digit or the end of the input is read if and only if its value is in range, and is oversized otherwise |
| BencodeParser.ParseValueAt | rust/src/bencode.rs:93-189 | a tree of a decoder's dialect is read to its end, whatever stands behind it |
| BencodeParser.ParsedNumber | rust/src/bencode.rs:54-91 | what is read as a number is a written number in range |
| BencodeGrammar.IntegerDenotes | rust/src/bencode.rs:54-91 | a written integer denotes the value of its digits, negated if and only if its sign is a minus sign |
| BencodeParser.ParsedInteger | go/bencode.go:158-186 | what is read as an integer is an `i`, a sign or none, a run of digits and an `e`, with that value |
| BencodeParser.ParsedValue | rust/src/bencode.rs:93-189 | what is read is a tree of the dialect and its written form is what was consumed |
| BencodeTheorems.ParsesExactly | rust/src/bencode.rs:93-189 | reading returns a tree if and only if the dialect accepts it and it is written there |
| BencodeTheorems.Unambiguous | rust/src/bencode.rs:93-189 | at one position at most one tree is written, even across dialects |
| BencodeTheorems.RustThenGo | go/bencode.go:158-277 | on what the Rust decoder accepts, the Go decoder gives the same tree and position if no integer is -2^63, and fails otherwise |
| BencodeTheorems.GoThenRust | go/bencode.go:158-277 | on what the Go decoder accepts, the Rust decoder gives the same unless a byte string other than a key has a signed length, and fails then |
| BencodeTheorems.LeastIntExample | go/bencode.go:170-171 | the encoding of -2^63 is read by the Rust decoder and rejected by the Go decoder |
| BencodeTheorems.SignedStringExample | rust/src/bencode.rs:93-101 | the string of length 1 written with a plus sign is read by the Go decoder and rejected by the Rust decoder |
| BencodeTheorems.CanonAccepted | rust/src/bencode.rs:222-258 | a decoder reads a value's encoding if and only if the value's numbers are representable for it |
| BencodeTheorems.DenoteCanon | rust/src/bencode.rs:222-258 | the tree an encoder writes denotes the value |
| BencodeTheorems.RoundTrip | rust/src/bencode.rs:217-258 | anywhere in an input and with anything behind it, the encoding of a representable value is read to exactly its end and denotes the value |
| BencodeTheorems.UnrepresentableFails | go/bencode.go:170-171 | the encoding of a value that is not representable is rejected |
| BencodeTheorems.EncodingPrefixFree | rust/src/bencode.rs:222-258 | no encoding is the start of another value's encoding |
| BencodeNormal.CanonIsCanonical | rust/src/bencode.rs:222-258 | encoders write no plus sign, negative zero or leading zero, and strictly ascending keys |
| BencodeNormal.CanonicalIsCanon | rust/src/bencode.rs:222-258 | every canonical tree is what the encoder writes for its value |
| BencodeNormal.NeverLonger | rust/src/bencode.rs:222-258 | encoding what was read never takes more bytes than were read, duplicate keys included |
| BencodeNormal.DenotesRepresentable | rust/src/bencode.rs:93-189 | what a decoder reads it can read again after encoding |
| BencodeNormal.EncodingOfCanonical | rust/src/bencode.rs:222-258 | encoding reproduces a written tree if and only if the tree is canonical |
| BencodeNormal.Normalisation | rust/src/bencode.rs:54-258 | for every accepted input: the re-encoding, whatever follows it, is read to its end and denotes the same value, is not longer than the consumed bytes, and equals them if and only if they were canonical |
| RustDecoder.Cursor.Advance | rust/src/bencode.rs:27-30 | moves by the count, but not past the end |
| RustDecoder.Cursor.TakeByte | rust/src/bencode.rs:32-36 | the next byte or the end of the stream; the position never passes the end |
| RustDecoder.ReadStep | rust/src/bencode.rs:75-87 | a checked step that overflows shows that the whole number is out of range |
| RustDecoder.Decoder.ReadDigits | rust/src/bencode.rs:71-90 | the value of the maximal digit run if and only if it is in [-2^63, 2^63), oversized otherwise; no intermediate step fails for a value in range |
| RustDecoder.Decoder.ParseSignedInt | rust/src/bencode.rs:54-91 | the parse of a number, with the exact error |
| RustDecoder.Decoder.DecodeInt | rust/src/bencode.rs:103-115 | the parse of an integer, with the exact error; the value is that of the digits read, negated after a minus sign only |
| RustDecoder.Decoder.DecodeBytestring | rust/src/bencode.rs:117-133 | the parse of a byte string with a possibly signed length; a negative one is too large after the cast |
| RustDecoder.Decoder.DecodeValue | rust/src/bencode.rs:93-101 | value, position and error are those of the parse |
| RustDecoder.Decoder.DecodeList | rust/src/bencode.rs:135-155 | the same for lists |
| RustDecoder.Decoder.DecodeDict | rust/src/bencode.rs:157-189 | the same for dictionaries, where later duplicates win |
| RustDecoder.Decode | rust/src/bencode.rs:218-220 | succeeds if and only if the input starts with a tree of the dialect, and then gives its value |
| RustDecoder.Encode | rust/src/bencode.rs:222-258 | writes the canonical tree of the value |
| RustDecoder.EncodeList | rust/src/bencode.rs:238-246 | the items one after the other |
| RustDecoder.EncodeDict | rust/src/bencode.rs:247-256 | the entries by ascending keys |
| GoDecoder.Scanner.Next | go/bencode.go:16-25 | the next byte, or the end without moving |
| GoDecoder.Scanner.AcceptSingle | go/bencode.go:35-42 | moves past one byte if and only if it is among the accepted ones |
| GoDecoder.Scanner.AcceptMultiple | go/bencode.go:44-52 | consumes exactly the maximal run of accepted bytes |
| GoDecoder.Scanner.AcceptRun | go/bencode.go:54-63 | consumes the given number of bytes if there are as many, and nothing otherwise |
| GoDecoder.ParseInteger | go/bencode.go:158-172 | the parse of a number: digits up to 2^63 - 1 and then the sign, so not -2^63 |
| GoDecoder.DecodeInteger | go/bencode.go:174-186 | value and position are those of the parse, or failure; the value is that of the digits read, negated after a minus sign only |
| GoDecoder.DecodeString | go/bencode.go:188-202 | the parse of a byte string; negative lengths fail |
| GoDecoder.DecodeList | go/bencode.go:204-223 | the same for lists |
| GoDecoder.DecodeDict | go/bencode.go:225-249 | the same for dictionaries, where later duplicates win |
| GoDecoder.DecodeScannerBencodeValue | go/bencode.go:256-272 | the same for any value |
| GoDecoder.DecodeBencodeDict | go/bencode.go:251-254 | the dictionary the input starts with, whatever follows it |
| GoDecoder.DecodeBencodeValue | go/bencode.go:274-277 | the value the input starts with |
| GoDecoder.SortedOnce | go/bencode.go:120-125 | sorting the keys of a map, in whatever order they were collected, gives its one ascending key sequence |
| GoDecoder.Encode | go/bencode.go:75-101 | writes the same canonical tree as the Rust encoder |
| GoDecoder.EncodeString | go/bencode.go:83-85 | the shortest length, a colon and the bytes |
| GoDecoder.EncodeList | go/bencode.go:91-101 | the items one after the other |
| GoDecoder.EncodeDict | go/bencode.go:116-134 | the entries by ascending keys, although map iteration has no order |
| BencodeExamples.IntegerExample | rust/src/bencode.rs:321-327 | -123 is written i-123e |
| BencodeExamples.ListExample | rust/src/bencode.rs:337-343 | the list of 4 and qwe is written li4e3:qwee |
| BencodeExamples.AscendingExample | go/bencode.go:116-134 | the dictionary with a = 1 and b = 2 is written d1:ai1e1:bi2ee |
| BencodeExamples.NumberForms | rust/src/bencode.rs:54-91 | both decoders read i+5e, i-5e, i05e and i-0e as 5, -5, 5 and 0 |
| BencodeExamples.ErrorExamples | rust/src/bencode.rs:93-189 | inputs for the errors before any number |
| BencodeExamples.ErrorsInNumbers | rust/src/bencode.rs:54-133 | inputs for the errors in and behind numbers |
| BencodeExamples.Bounds | rust/src/bencode.rs:71-87 | the bounds of integers are -2^63 and 2^63 - 1 |
| KrpcMessages.EncodeMessage | go/krpc_message.go:44-89 | the canonical encoding of the message's fields |
| BencodeExamples.PingExample | go/krpc_message.go:44-53 | the bytes of the ping query of BEP 5, for every node id |
| BencodeExamples.ResponseExample | go/krpc_message.go:63-71 | the bytes of the response to it, for every node id |
| BencodeExamples.ErrorMessageExample | go/krpc_message.go:81-89 | the bytes of an error message |
| KrpcMessages.DecodesWhatIsCarried | go/krpc_message.go:99-154 | a dictionary is decoded to a message if and only if it has all the fields of that message, whatever else it has |
| KrpcMessages.DecodeInput | go/krpc_runtime.go:98-109 | a packet is decoded as a dictionary and that as a message, and fails if either fails |
| KrpcMessages.MessageRoundTrip | go/krpc_message.go:44-154 | with anything behind it in the packet, an encoded message comes back with type, transaction id and payload if it is representable, and is rejected otherwise |
| KrpcMessages.RepresentableMessage | go/krpc_message.go:44-89 | which messages that are: field by field, no integer -2^63 and no length beyond 2^63 - 1 |
| KrpcRuntime.Runtime.EnqueuePendingRequest | go/krpc_runtime.go:39-47 | a fresh channel under the drawn id, replacing any earlier one |
| KrpcRuntime.Runtime.CancelPendingRequest | go/krpc_runtime.go:49-54 | removes whatever has the id |
| KrpcRuntime.Runtime.DequeuePendingRequest | go/krpc_runtime.go:56-63 | takes out the channel of the id, if any |
| KrpcRuntime.NextKeepsInvariant | go/krpc_runtime.go:65-136 | every step of every caller and of the receiver keeps: each channel is listed, in hand or sent to, at most one of these and at most once, and carries only its own id |
| KrpcRuntime.DeliveryNeverBlocks | go/krpc_runtime.go:124-126 | the receiver's send always finds an empty channel that was never sent to, even under collisions |
| KrpcRuntime.RunKeepsInvariant | go/krpc_runtime.go:65-136 | in every interleaving from the start no channel is sent to twice |
| KrpcRuntime.ReachesExactly | go/krpc_runtime.go:74-76 | a message reaches a call if and only if the receiver takes it for the channel under its id, and then for good and unchanged |
| KrpcRuntime.DeliveredExactly | go/krpc_runtime.go:123-126 | in every interleaving a message is in the receiver's hand for a call, in its channel or in its result if and only if it was received earlier while the call's channel was in the map under its id |
| KrpcRuntime.ReturnsExactly | go/krpc_runtime.go:69-80 | a call returns the message in its channel when it receives, a timeout when it cancels and an error when its send fails, and at no other step |
| KrpcRuntime.ReturnedForGood | go/krpc_runtime.go:65-81 | a returned call is not touched again |
| KrpcRuntime.WaitingCanTimeOut | go/krpc_runtime.go:77-79 | a waiting call can return with a timeout in every state, and its id is not in the map afterwards |
| KrpcRuntime.NextKeepsUndisturbed | go/krpc_runtime.go:65-136 | while ids are distinct among calls that have not returned, no step makes a waiting call unreachable or gives its entry to another |
| KrpcRuntime.RunUndisturbed | go/krpc_runtime.go:65-136 | so in every such run every call that still waits has its channel in the map, in the receiver's hand or holding a message |
| KrpcRuntime.CancelRemovesOwnEntry | go/krpc_runtime.go:77-79 | in such a run, whatever a timed-out call's cancel removes is its own entry, and every other entry stays |
| KrpcRuntime.OrphanedExactly | go/krpc_runtime.go:69-72 | a step leaves the entry of a returned call in the map if and only if it is the failed send of a call that is still in the map |
| KrpcRuntime.OrphanRemovedExactly | go/krpc_runtime.go:43-61 | such an entry goes away if and only if its id is drawn again, answered, or cancelled by another call |
| KrpcRuntime.OrphanExample | go/krpc_runtime.go:66-72 | a run of two steps that leaves such an entry, for every id |
| KrpcRuntime.OutlivingEntry | go/krpc_runtime.go:69-72 | in every interleaving the call of an entry has returned if and only if its send failed |
| KrpcRuntime.LostExactlyByCollision | go/krpc_runtime.go:43-53 | a step makes a reachable call that goes on unreachable if and only if the call is in the map and another call enqueues its id or cancels it |
| KrpcRuntime.CollisionExample | go/krpc_runtime.go:43-46 | a run of three steps after which a waiting call can never be answered, for every id |
| KrpcRuntime.UnreachableIsNeverAnswered | go/krpc_runtime.go:65-136 | and then no continuation answers it |
| KrpcRuntime.AnswerableIffReachable | go/krpc_runtime.go:65-136 | a waiting call has a continuation that answers it if and only if it is reachable: with every message under its id while it is in the map, and otherwise with nothing but a message that has reached it |

## Left out

- RustRoutingTable.RoutingTable.Update: requires an id other than the own one, for which the program's `expect` fails (OneBucketPerId shows that it does for that id and no other).
- RustRoutingTable.RoutingTable.Find: requires an id other than the own one, for the same reason.
- RustDecoder.Decoder.DecodeValue: says nothing about the position after an error, as no caller reads it; the input is at most 2^63 - 1 bytes, as every Rust slice is.
- GoDecoder.DecodeScannerBencodeValue: says that decoding fails, not with which error text, and nothing about the position then.
- GoDecoder.Scanner.AcceptRun: adds position and length as mathematical integers, without the wrap-around for lengths near 2^63.
- GoRoutingTable.RoutingTable.AddEntry: bucket sizes are natural numbers; a negative one makes the Go program panic when it allocates.
- KrpcRuntime.NextKeepsInvariant: a locked section is one step, channels are numbered by their calls, and random ids are any ids; the receiver is one, as `start` makes one.
- The Go `int` has 64 bits in the model.
- Go slices are values: what is shared between a copied bucket and its original is not modelled; every original is overwritten right after the copy.
- Library functions (decimal formatting, `strconv.Atoi`, `sort.Strings`, leading zeros of a byte, iteration over a `BTreeMap`) are functions with their documented meaning.
- Uninitialised memory, raw pointers, `Drop` and moves in `FixedVec`; an array of eight and a length stand for them, and the vector's equality and debug output are not modelled.
- UDP sockets, goroutines and threads, timers themselves, standard input, the text interface and the lookup of the own address: input and output.
- `go/dht_client.go`: a dispatcher without state of its own; the queries it answers and the bootstrap calls it makes are callers of the operations modelled here.
- The setting of a transaction id on a message, and the replies to queries in `receiveMessages`, which do not touch the map of pending requests.
- Printing of values, ids, buckets and messages, hexadecimal conversion and the 26-byte compact node info: they would add easy members.
- `FindNodeResponse` and the `krpc_*` handlers in `rust/src/main.rs`: unfinished or printing only.
- The stack depth that nested lists and dictionaries need.

/** When the Rust table drops a node although splitting its bucket further would have made room:
    an update splits at most once. */
module NeedlessDrops {
  import opened NodeIds
  import opened Contacts
  import opened FixedVecs
  import opened RatedTable

  // ------------------------------------------------------------------ splitting on

  /** What an update would do to a full bucket if it went on splitting the half that everything falls
      into, as the comment in the program suggests. */
  function SplitOn(own: NodeId, b: BucketValue, e: RoutingEntry): seq<BucketValue>
    decreases b.hi - b.lo
  {
    if b.hi <= b.lo + 1 then [b]
    else
      var r := SplitBucket(own, b, e);
      if |r| == 1 && PrefixLength(own, e.node.id) > b.lo
      then [BucketValue(b.lo, b.lo + 1, [])] + SplitOn(own, BucketValue(b.lo + 1, b.hi, r[0].entries), e)
      else r
  }

  ghost predicate OtherPrefix(own: NodeId, entries: seq<RoutingEntry>, node: Contact) {
    exists x :: x in entries && PrefixLength(own, x.node.id) != PrefixLength(own, node.id)
  }

  /** A full bucket without the node. */
  ghost predicate FullWithout(own: NodeId, b: BucketValue, node: Contact) {
    && BucketInvariant(own, b) && |b.entries| == CAPACITY
    && b.lo <= PrefixLength(own, node.id) < b.hi
    && forall x :: x in b.entries ==> x.node.id != node.id
  }

  lemma SameElements(s: seq<RoutingEntry>, t: seq<RoutingEntry>)
    requires multiset(s) == multiset(t)
    ensures |s| == |t| && forall x :: x in s <==> x in t
  {
    assert |s| == |multiset(s)| && |t| == |multiset(t)|;
    forall x ensures x in s <==> x in t {
      assert x in s <==> x in multiset(s);
      assert x in t <==> x in multiset(t);
    }
  }

  /** The upper half of a bucket that is empty below. */
  lemma UpperHalfFull(own: NodeId, b: BucketValue, node: Contact, entries: seq<RoutingEntry>)
    requires FullWithout(own, b, node) && OneSided(own, b, node) && PrefixLength(own, node.id) > b.lo
    requires BucketInvariant(own, b.(entries := entries)) && multiset(entries) == multiset(b.entries)
    ensures FullWithout(own, BucketValue(b.lo + 1, b.hi, entries), node)
    ensures OtherPrefix(own, entries, node) <==> OtherPrefix(own, b.entries, node)
  {
    hide PrefixLength, DistinctNodes;
    SameElements(entries, b.entries);
  }

  lemma OneWide(own: NodeId, b: BucketValue, node: Contact)
    requires FullWithout(own, b, node)
    ensures b.hi <= b.lo + 1 || (OneSided(own, b, node) && PrefixLength(own, node.id) == b.lo) ==> !OtherPrefix(own, b.entries, node)
    ensures b.hi > b.lo + 1 && !OneSided(own, b, node) ==> OtherPrefix(own, b.entries, node)
  {
    hide PrefixLength, DistinctNodes;
  }

  /** Splitting on keeps every entry, and takes the new one in exactly if some entry has another prefix length. */
  lemma {:induction false} SplitOnOutcome(own: NodeId, b: BucketValue, e: RoutingEntry)
    requires FullWithout(own, b, e.node)
    ensures EntriesOf(SplitOn(own, b, e))
         == multiset(b.entries) + if OtherPrefix(own, b.entries, e.node) then multiset{e} else multiset{}
    decreases b.hi - b.lo
  {
    hide PrefixLength, BucketInvariant, OneSided, SplitBucket, EntriesOf, OtherPrefix;
    OneWide(own, b, e.node);
    if b.hi <= b.lo + 1 {
      EntriesOfFew(b, b);
    } else {
      SplitOutcome(own, b, e);
      var r := SplitBucket(own, b, e);
      EntriesOfFew(r[0], r[0]);
      if OneSided(own, b, e.node) && PrefixLength(own, e.node.id) > b.lo {
        var empty, upper := BucketValue(b.lo, b.lo + 1, []), BucketValue(b.lo + 1, b.hi, r[0].entries);
        assert r == [r[0]] && r[0] == b.(entries := r[0].entries);
        UpperHalfFull(own, b, e.node, r[0].entries);
        SplitOnOutcome(own, upper, e);
        EntriesOfConcat([empty], SplitOn(own, upper, e));
        EntriesOfFew(empty, empty);
      } else if OneSided(own, b, e.node) {
        assert r == [r[0]];
      }
    }
  }

  // ------------------------------------------------------------------ where there is room

  /** The bucket a prefix length belongs to, after splits that leave one-wide buckets below k. */
  function Cut(p: nat, k: nat): nat {
    if p < k then p else k
  }

  /** Buckets that are one wide up to k, within the bounds, separate some entry from the node. */
  ghost predicate RoomAt(own: NodeId, b: BucketValue, node: Contact, k: nat) {
    && b.lo < k < b.hi
    && exists e :: e in b.entries && Cut(PrefixLength(own, e.node.id), k) != Cut(PrefixLength(own, node.id), k)
  }

  lemma RoomIfOtherPrefix(own: NodeId, b: BucketValue, node: Contact)
    requires InBounds(own, b) && b.lo <= PrefixLength(own, node.id) < b.hi
    ensures (exists k :: RoomAt(own, b, node, k)) <==> OtherPrefix(own, b.entries, node)
  {
    hide PrefixLength;
    var p := PrefixLength(own, node.id);
    if OtherPrefix(own, b.entries, node) {
      var e :| e in b.entries && PrefixLength(own, e.node.id) != p;
      var q := PrefixLength(own, e.node.id);
      assert RoomAt(own, b, node, if p < q then q else p);
    }
    if k :| RoomAt(own, b, node, k) {
      var e :| e in b.entries && Cut(PrefixLength(own, e.node.id), k) != Cut(p, k);
      assert PrefixLength(own, e.node.id) != p;
    }
  }

  /** Splitting on takes the new entry in exactly if there is a depth at which the bucket of its node
      does not hold all the others. */
  lemma SplittingOnMakesRoom(own: NodeId, b: BucketValue, e: RoutingEntry)
    requires FullWithout(own, b, e.node)
    ensures e in EntriesOf(SplitOn(own, b, e)) <==> exists k :: RoomAt(own, b, e.node, k)
  {
    hide PrefixLength, EntriesOf, SplitOn, RoomAt, OtherPrefix, DistinctNodes;
    RoomIfOtherPrefix(own, b, e.node);
    SplitOnOutcome(own, b, e);
    assert e !in b.entries;
  }

  // ------------------------------------------------------------------ needless drops

  /** The node and all entries fall into the upper half, though not all have the same prefix length. */
  ghost predicate MixedUpperHalf(own: NodeId, b: BucketValue, node: Contact) {
    && b.hi > b.lo + 1
    && PrefixLength(own, node.id) > b.lo
    && (forall e :: e in b.entries ==> PrefixLength(own, e.node.id) > b.lo)
    && exists e :: e in b.entries && PrefixLength(own, e.node.id) != PrefixLength(own, node.id)
  }

  /** For a one-sided bucket, splitting on makes room exactly if that side is a mixed upper half. */
  lemma RoomIfMixed(own: NodeId, b: BucketValue, e: RoutingEntry)
    requires FullWithout(own, b, e.node)
    requires b.hi == b.lo + 1 || OneSided(own, b, e.node)
    ensures e in EntriesOf(SplitOn(own, b, e)) <==> MixedUpperHalf(own, b, e.node)
  {
    hide PrefixLength, EntriesOf, SplitOn, DistinctNodes;
    SplitOnOutcome(own, b, e);
    assert e !in b.entries;
    assert MixedUpperHalf(own, b, e.node) <==> OtherPrefix(own, b.entries, e.node);
  }

  lemma CrowdedIsFull(own: NodeId, t: seq<BucketValue>, node: Contact, clock: Clock)
    requires TableInvariant(own, t) && node.id != own && Crowded(BucketFor(own, t, node.id), node, clock)
    ensures FullWithout(own, BucketFor(own, t, node.id), node)
  {
    hide PrefixLength, FirstBad, TableInvariant, DistinctNodes;
    TargetBucket(own, t, node.id);
    Unknown(BucketFor(own, t, node.id), node);
  }

  /** A node is dropped although splitting on would have taken it in if and only if it is new to a
      full bucket without bad entries that can be split, and the node and all entries fall into the
      upper half without all having the same prefix length. */
  lemma DroppedNeedlessly(own: NodeId, t: seq<BucketValue>, node: Contact, seenIn: SeenIn, clock: Clock)
    requires TableInvariant(own, t) && node.id != own
    ensures var b, e := BucketFor(own, t, node.id), NewEntry(node, seenIn, clock.recorded);
            !Has(UpdatedTable(own, t, node, seenIn, clock), node.id) && e in EntriesOf(SplitOn(own, b, e))
            <==> Crowded(b, node, clock) && MixedUpperHalf(own, b, node)
  {
    hide Has, UpdatedTable, TableInvariant, Crowded, PrefixLength, SplitOn, EntriesOf, FullWithout;
    TargetBucket(own, t, node.id);
    var b, e := BucketFor(own, t, node.id), NewEntry(node, seenIn, clock.recorded);
    HeardNodeIsStored(own, t, node, seenIn, clock);
    if Crowded(b, node, clock) {
      CrowdedIsFull(own, t, node, clock);
      if b.hi == b.lo + 1 || OneSided(own, b, node) {
        RoomIfMixed(own, b, e);
      }
    }
  }

  // ------------------------------------------------------------------ a needless drop

  function Responses(nodes: seq<Contact>, clock: Clock): seq<Event> {
    seq(|nodes|, i requires 0 <= i < |nodes| => Event(nodes[i], Response, clock))
  }

  function NewEntries(nodes: seq<Contact>, clock: Clock): seq<RoutingEntry> {
    seq(|nodes|, i requires 0 <= i < |nodes| => NewEntry(nodes[i], Response, clock.recorded))
  }

  /** Up to eight nodes stay in the first bucket. */
  lemma {:induction false} FirstNodes(own: NodeId, nodes: seq<Contact>, clock: Clock)
    requires |nodes| <= CAPACITY && DistinctIds(nodes)
    ensures Run(own, InitialTable(), Responses(nodes, clock)) == [BucketValue(0, ID_BITS, NewEntries(nodes, clock))]
  {
    hide UpdatedTable, Run;
    if nodes == [] {
      NothingHeard(own, clock);
    } else {
      var less, node := nodes[..|nodes| - 1], nodes[|nodes| - 1];
      FirstNodes(own, less, clock);
      assert Responses(nodes, clock) == Responses(less, clock) + [Event(node, Response, clock)];
      RunStep(own, Responses(less, clock), Event(node, Response, clock));
      assert NewEntries(nodes, clock) == NewEntries(less, clock) + [NewEntry(node, Response, clock.recorded)];
      AddedToFirst(own, NewEntries(less, clock), node, clock);
    }
  }

  lemma NothingHeard(own: NodeId, clock: Clock)
    ensures Run(own, InitialTable(), Responses([], clock)) == [BucketValue(0, ID_BITS, NewEntries([], clock))]
  {
    assert Responses([], clock) == [] && NewEntries([], clock) == [];
  }

  lemma AddedToFirst(own: NodeId, entries: seq<RoutingEntry>, node: Contact, clock: Clock)
    requires |entries| < CAPACITY && forall i :: 0 <= i < |entries| ==> entries[i].node.id != node.id
    ensures UpdatedTable(own, [BucketValue(0, ID_BITS, entries)], node, Response, clock)
         == [BucketValue(0, ID_BITS, entries + [NewEntry(node, Response, clock.recorded)])]
  {
    hide PrefixLength, SplitBucket, FirstBad;
  }

  // A clock that stands still.
  const STILL: Clock := Clock(0, _ => Reading(0, 0))

  const FIRST_BYTES: seq<bv8> := [0x40, 0x41, 0x42, 0x43, 0x44, 0x45, 0x46, 0x47]

  /** Eight contacts with prefix length 1 to the id of zeros. */
  function Eight(): (s: seq<Contact>)
    ensures |s| == CAPACITY
  {
    seq(8, i requires 0 <= i < 8 => ContactOf(FIRST_BYTES[i]))
  }

  lemma EightFacts()
    ensures DistinctIds(Eight())
    ensures forall i :: 0 <= i < 8 ==> PrefixLength(IdOf(0), Eight()[i].id) == 1 && Eight()[i].id != IdOf(0x20)
  {
    hide IdOf, PrefixLength;
    forall i, j | 0 <= i < j < 8 ensures Eight()[i].id != Eight()[j].id {
      assert FIRST_BYTES[i] != FIRST_BYTES[j];
      PrefixOfFirstBytes(FIRST_BYTES[i], FIRST_BYTES[j]);
    }
    forall i | 0 <= i < 8 ensures PrefixLength(IdOf(0), Eight()[i].id) == 1 && Eight()[i].id != IdOf(0x20) {
      PrefixOfFirstBytes(0, FIRST_BYTES[i]);
      PrefixOfFirstBytes(0x20, FIRST_BYTES[i]);
    }
  }

  /** The bucket the eight fill does not know another node and has no bad entry. */
  lemma EightCrowd(b: BucketValue, node: Contact)
    requires b.entries == NewEntries(Eight(), STILL)
    requires forall i :: 0 <= i < 8 ==> Eight()[i].id != node.id
    ensures Crowded(b, node, STILL)
  {
    hide Eight;
    forall i: nat | i < 8 ensures b.entries[i].Rating(STILL.rated(i)) == Good {
      RatingExactly(b.entries[i], STILL.rated(i));
    }
  }

  /** The bucket stays in one, if the split of it is refused. */
  lemma RefusedTable(own: NodeId, b: BucketValue, node: Contact, clock: Clock)
    requires BucketInvariant(own, b) && b.lo <= PrefixLength(own, node.id) < b.hi
    requires Crowded(b, node, clock) && OneSided(own, b, node)
    ensures var t := UpdatedTable(own, [b], node, Response, clock);
            |t| == 1 && t[0].lo == b.lo && t[0].hi == b.hi && EntriesOf(t) == EntriesOf([b])
  {
    hide PrefixLength, BucketInvariant, Crowded, OneSided, UpdatedBucket, EntriesOf;
    BucketOutcome(own, b, node, Response, clock);
    CrowdedCase(own, b, node, Response, clock);
    EntriesOfFew(b, b);
    UpdatedByParts(own, [b], node, Response, clock, 0);
    assert [b][..0] == [] && [b][1..] == [];
    var r := UpdatedBucket(own, b, node, Response, clock);
    assert [] + r + [] == r;
  }

  /** After eight nodes of prefix length 1, which fill the first bucket, a node of prefix length 2 is
      dropped, with the one bucket still unsplit, although splitting on would take it in. */
  lemma NeedlessDropExample()
    ensures var own, node, events := IdOf(0), ContactOf(0x20), Responses(Eight(), STILL);
            var t, t' := Run(own, InitialTable(), events), Run(own, InitialTable(), events + [Event(node, Response, STILL)]);
            var b, e := BucketFor(own, t, node.id), NewEntry(node, Response, STILL.recorded);
            && t == [BucketValue(0, ID_BITS, NewEntries(Eight(), STILL))]
            && |t'| == 1 && t'[0].lo == 0 && t'[0].hi == ID_BITS && EntriesOf(t') == EntriesOf(t)
            && !Has(t', node.id) && e in EntriesOf(SplitOn(own, b, e))
  {
    hide IdOf, PrefixLength, Eight, Run, TableInvariant, Has, UpdatedTable, Crowded, SplitOn, EntriesOf;
    var own, node, events := IdOf(0), ContactOf(0x20), Responses(Eight(), STILL);
    var t := Run(own, InitialTable(), events);
    EightFacts();
    PrefixOfFirstBytes(0, 0x20);
    FullPrefixIsEquality(own, node.id);
    FirstNodes(own, Eight(), STILL);
    OtherIds(own);
    RunKeepsInvariant(own, events);
    var b := BucketFor(own, t, node.id);
    assert b == BucketValue(0, ID_BITS, NewEntries(Eight(), STILL));
    EightCrowd(b, node);
    assert b.entries[0] in b.entries;
    assert MixedUpperHalf(own, b, node);
    DroppedNeedlessly(own, t, node, Response, STILL);
    RunStep(own, events, Event(node, Response, STILL));
    TargetBucket(own, t, node.id);
    RefusedTable(own, b, node, STILL);
  }

  lemma OtherIds(own: NodeId)
    requires forall i :: 0 <= i < 8 ==> PrefixLength(own, Eight()[i].id) == 1
    ensures forall e :: e in Responses(Eight(), STILL) ==> e.node.id != own
  {
    hide Eight, PrefixLength;
    FullPrefixIsEquality(own, own);
  }
}

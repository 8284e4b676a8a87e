/** The Rust routing table on values: explicit prefix bounds per bucket, entries that are rated
    by the time of their last messages, and one update step. The step is what the class in
    RustRoutingTable is proved to do; its properties over steps and over whole runs are here. */
module RatedTable {
  import opened NodeIds
  import opened Contacts
  import opened FixedVecs
  import opened Lookup
  import opened Options

  // ------------------------------------------------------------------ entries

  // Points in time, in nanoseconds of a monotone clock.
  type Instant = nat

  const SECOND: nat := 1_000_000_000

  datatype SeenIn = Query | Response | Referral

  datatype NodeRating = Good | Questionable | Bad

  /** A rating reads the clock for the age of the last query and again for that of the last response. */
  datatype Reading = Reading(query: Instant, response: Instant)

  /** All readings of the clock during one update: when the message is recorded, and when the entry
      at each position of a bucket is rated. */
  datatype Clock = Clock(recorded: Instant, rated: nat -> Reading)

  function MinutesSince(t: Instant, now: Instant): nat {
    (if now >= t then now - t else 0) / SECOND / 60
  }

  datatype RoutingEntry = RoutingEntry(node: Contact, lastResponse: Option<Instant>, lastQuery: Option<Instant>) {

    function Rating(at: Reading): NodeRating {
      if lastResponse.Some? && MinutesSince(lastResponse.value, at.response) <= 15 then Good
      else if lastQuery.Some? && MinutesSince(lastQuery.value, at.query) <= 15 && lastResponse.Some? then Good
      else if lastQuery.None? && lastResponse.None? then Questionable
      else Bad
    }

    function Updated(seenIn: SeenIn, now: Instant): RoutingEntry {
      match seenIn
      case Query => this.(lastQuery := Some(now))
      case Response => this.(lastResponse := Some(now))
      case Referral => this
    }
  }

  function NewEntry(node: Contact, seenIn: SeenIn, now: Instant): RoutingEntry {
    RoutingEntry(node, None, None).Updated(seenIn, now)
  }

  /** The event is less than 960 seconds old: ages are compared in whole minutes, up to 15 of them. */
  predicate Recent(seen: Option<Instant>, now: Instant) {
    seen.Some? && now < seen.value + 960 * SECOND
  }

  lemma RecentInMinutes(t: Instant, now: Instant)
    ensures MinutesSince(t, now) <= 15 <==> now < t + 960 * SECOND
  {
    var d := if now >= t then now - t else 0;
    assert d / SECOND < 960 <==> d < 960 * SECOND;
  }

  /** The rating in terms of ages: good after a recent response, or a recent query of a node that
      ever responded; questionable if nothing was ever heard from it; bad otherwise, so that a node
      known by its queries alone is bad at once. */
  lemma RatingExactly(e: RoutingEntry, at: Reading)
    ensures e.Rating(at) == Good <==> e.lastResponse.Some? && (Recent(e.lastResponse, at.response) || Recent(e.lastQuery, at.query))
    ensures e.Rating(at) == Questionable <==> e.lastResponse.None? && e.lastQuery.None?
  {
    if e.lastResponse.Some? { RecentInMinutes(e.lastResponse.value, at.response); }
    if e.lastQuery.Some? { RecentInMinutes(e.lastQuery.value, at.query); }
  }

  /** A node that was only referred to is questionable; one that was only heard querying is bad even at
      once; one that responded 959 seconds ago is good, and bad after 960 seconds without a query. */
  lemma RatingExamples(node: Contact, t: Instant, at: Reading)
    ensures NewEntry(node, Referral, t).Rating(at) == Questionable
    ensures NewEntry(node, Query, t).Rating(at) == Bad
    ensures at.response == t + 959 * SECOND ==> NewEntry(node, Response, t).Rating(at) == Good
    ensures at.response == t + 960 * SECOND ==> NewEntry(node, Response, t).Rating(at) == Bad
  {
    RatingExactly(NewEntry(node, Referral, t), at);
    RatingExactly(NewEntry(node, Query, t), at);
    RatingExactly(NewEntry(node, Response, t), at);
  }

  // ------------------------------------------------------------------ tables

  datatype BucketValue = BucketValue(lo: nat, hi: nat, entries: seq<RoutingEntry>)

  function Nodes(entries: seq<RoutingEntry>): seq<Contact> {
    seq(|entries|, i requires 0 <= i < |entries| => entries[i].node)
  }

  function Rows(t: seq<BucketValue>): seq<seq<Contact>> {
    seq(|t|, i requires 0 <= i < |t| => Nodes(t[i].entries))
  }

  lemma RowCount(t: seq<BucketValue>)
    ensures |Rows(t)| == |t|
  {
  }

  /** The bounds partition 0..160; every bucket but the last covers one prefix length. */
  ghost predicate Partition(t: seq<BucketValue>) {
    && 1 <= |t| <= ID_BITS
    && forall i :: 0 <= i < |t| ==> t[i].lo == i && t[i].hi == if i < |t| - 1 then i + 1 else ID_BITS
  }

  ghost predicate InBounds(own: NodeId, b: BucketValue) {
    forall e :: e in b.entries ==> b.lo <= PrefixLength(own, e.node.id) < b.hi
  }

  ghost predicate DistinctNodes(entries: seq<RoutingEntry>) {
    forall i, j :: 0 <= i < j < |entries| ==> entries[i].node.id != entries[j].node.id
  }

  ghost predicate BucketInvariant(own: NodeId, b: BucketValue) {
    |b.entries| <= CAPACITY && DistinctNodes(b.entries) && InBounds(own, b)
  }

  ghost predicate TableInvariant(own: NodeId, t: seq<BucketValue>) {
    Partition(t) && forall i :: 0 <= i < |t| ==> BucketInvariant(own, t[i])
  }

  function InitialTable(): seq<BucketValue> {
    [BucketValue(0, ID_BITS, [])]
  }

  /** Exactly one bucket's bounds contain the prefix length of an id other than the own one, and none that of the own id. */
  lemma OneBucketPerId(own: NodeId, t: seq<BucketValue>, id: NodeId)
    requires Partition(t)
    ensures forall i :: 0 <= i < |t| ==>
              (t[i].lo <= PrefixLength(own, id) < t[i].hi <==> id != own && i == BucketIndex(own, id, |t| - 1))
  {
    FullPrefixIsEquality(own, id);
  }

  /** Lookups see a sound table. */
  lemma InvariantIsSound(own: NodeId, t: seq<BucketValue>)
    requires TableInvariant(own, t)
    ensures Sound(own, CAPACITY, Rows(t))
  {
    var rows := Rows(t);
    forall i, c: Contact | 0 <= i < |rows| && c in rows[i] ensures BucketIndex(own, c.id, |rows| - 1) == i {
      var j :| 0 <= j < |rows[i]| && rows[i][j] == c;
      assert t[i].entries[j] in t[i].entries;
      OneBucketPerId(own, t, c.id);
    }
  }

  /** A lookup that does not find the id itself returns as many distinct stored nodes as there are, up to 8. */
  lemma AnswerIsAsLargeAsPossible(own: NodeId, t: seq<BucketValue>, target: NodeId)
    requires TableInvariant(own, t)
    ensures var answer, stored := Answer(own, CAPACITY, Rows(t), target, 0), |StoredIds(Rows(t))|;
            && DistinctIds(answer) && (forall c :: c in answer ==> Stored(Rows(t), c))
            && |answer| == if stored < CAPACITY then stored else CAPACITY
  {
    InvariantIsSound(own, t);
    AnswerOrder(own, CAPACITY, Rows(t), target, 0);
    AnswerIsComplete(own, CAPACITY, Rows(t), target, 0);
  }

  // ------------------------------------------------------------------ one update

  /** The index of the entry of a node, or the number of entries. */
  function PositionOf(entries: seq<RoutingEntry>, id: NodeId): (i: nat)
    ensures i <= |entries|
    ensures i < |entries| ==> entries[i].node.id == id
    ensures forall j :: 0 <= j < i ==> entries[j].node.id != id
  {
    if entries == [] || entries[0].node.id == id then 0 else 1 + PositionOf(entries[1..], id)
  }

  /** The index of the first entry from i on that is bad when its turn comes, or the number of entries. */
  function FirstBadFrom(entries: seq<RoutingEntry>, clock: Clock, i: nat): (k: nat)
    requires i <= |entries|
    ensures i <= k <= |entries|
    ensures k < |entries| ==> entries[k].Rating(clock.rated(k)) == Bad
    ensures forall j :: i <= j < k ==> entries[j].Rating(clock.rated(j)) != Bad
    decreases |entries| - i
  {
    if i == |entries| || entries[i].Rating(clock.rated(i)) == Bad then i else FirstBadFrom(entries, clock, i + 1)
  }

  function FirstBad(entries: seq<RoutingEntry>, clock: Clock): (k: nat)
    ensures k <= |entries|
    ensures k < |entries| ==> entries[k].Rating(clock.rated(k)) == Bad
    ensures forall j :: 0 <= j < k ==> entries[j].Rating(clock.rated(j)) != Bad
  {
    FirstBadFrom(entries, clock, 0)
  }

  /** Draining the entries with prefix lengths in [cut, hi) from index i on, by swapping removals. */
  function Drain(own: NodeId, s: seq<RoutingEntry>, cut: nat, hi: nat, i: nat): (r: (seq<RoutingEntry>, seq<RoutingEntry>))
    requires i <= |s|
    ensures |r.0| + |r.1| == |s|
    decreases |s| - i
  {
    if i == |s| then (s, [])
    else if cut <= PrefixLength(own, s[i].node.id) < hi then
      var r := Drain(own, SwapRemoved(s, i), cut, hi, i);
      (r.0, [s[i]] + r.1)
    else Drain(own, s, cut, hi, i + 1)
  }

  lemma DrainStep(own: NodeId, s: seq<RoutingEntry>, cut: nat, hi: nat, i: nat, drained: seq<RoutingEntry>)
    requires i < |s|
    ensures var r := Drain(own, s, cut, hi, i);
            if cut <= PrefixLength(own, s[i].node.id) < hi
            then var q := Drain(own, SwapRemoved(s, i), cut, hi, i); r.0 == q.0 && drained + r.1 == drained + [s[i]] + q.1
            else r == Drain(own, s, cut, hi, i + 1)
  {
  }

  lemma DrainDone(own: NodeId, s: seq<RoutingEntry>, cut: nat, hi: nat, drained: seq<RoutingEntry>)
    ensures Drain(own, s, cut, hi, |s|).0 == s && drained + Drain(own, s, cut, hi, |s|).1 == drained
  {
  }

  /** Whether and how a full bucket without bad entries takes in a new one: the two halves, or a
      refusal that leaves only the order of the entries changed. */
  function SplitBucket(own: NodeId, b: BucketValue, e: RoutingEntry): seq<BucketValue> {
    var p, cut := PrefixLength(own, e.node.id), b.lo + 1;
    var (kept, drained) := Drain(own, b.entries, cut, b.hi, 0);
    if |kept| < CAPACITY && b.lo <= p < cut then [BucketValue(b.lo, cut, kept + [e]), BucketValue(cut, b.hi, drained)]
    else if |drained| < CAPACITY && cut <= p < b.hi then [BucketValue(b.lo, cut, kept), BucketValue(cut, b.hi, drained + [e])]
    else [b.(entries := kept + drained)]
  }

  /** The three outcomes, by what was drained; entries are only put back when one side is empty. */
  lemma SplitCases(own: NodeId, b: BucketValue, e: RoutingEntry, kept: seq<RoutingEntry>, drained: seq<RoutingEntry>)
    requires (kept, drained) == Drain(own, b.entries, b.lo + 1, b.hi, 0)
    requires b.lo <= PrefixLength(own, e.node.id) < b.hi && |b.entries| == CAPACITY
    ensures var low := PrefixLength(own, e.node.id) < b.lo + 1;
            && (low && |kept| < CAPACITY ==>
                  SplitBucket(own, b, e) == [BucketValue(b.lo, b.lo + 1, kept + [e]), BucketValue(b.lo + 1, b.hi, drained)])
            && (!low && |drained| < CAPACITY ==>
                  SplitBucket(own, b, e) == [BucketValue(b.lo, b.lo + 1, kept), BucketValue(b.lo + 1, b.hi, drained + [e])])
            && (|if low then kept else drained| >= CAPACITY ==>
                  SplitBucket(own, b, e) == [b.(entries := kept + drained)] && (kept == [] || drained == []))
  {
  }

  /** What becomes of the bucket of a node that is heard of: one bucket, or two after a split. */
  function UpdatedBucket(own: NodeId, b: BucketValue, node: Contact, seenIn: SeenIn, clock: Clock): seq<BucketValue> {
    var j, e := PositionOf(b.entries, node.id), NewEntry(node, seenIn, clock.recorded);
    if j < |b.entries| then [b.(entries := b.entries[j := b.entries[j].Updated(seenIn, clock.recorded)])]
    else if |b.entries| < CAPACITY then [b.(entries := b.entries + [e])]
    else if FirstBad(b.entries, clock) < |b.entries| then [b.(entries := b.entries[FirstBad(b.entries, clock) := e])]
    else if b.hi > b.lo + 1 then SplitBucket(own, b, e)
    else [b]
  }

  function UpdatedTable(own: NodeId, t: seq<BucketValue>, node: Contact, seenIn: SeenIn, clock: Clock): seq<BucketValue>
    requires |t| > 0
  {
    var i := BucketIndex(own, node.id, |t| - 1);
    t[..i] + UpdatedBucket(own, t[i], node, seenIn, clock) + t[i + 1..]
  }

  lemma UpdatedByParts(own: NodeId, t: seq<BucketValue>, node: Contact, seenIn: SeenIn, clock: Clock, i: nat)
    requires i < |t| && i == BucketIndex(own, node.id, |t| - 1)
    ensures UpdatedTable(own, t, node, seenIn, clock) == t[..i] + UpdatedBucket(own, t[i], node, seenIn, clock) + t[i + 1..]
  {
  }

  // ------------------------------------------------------------------ draining and splitting

  ghost predicate Lower(own: NodeId, cut: nat, entries: seq<RoutingEntry>) {
    forall e :: e in entries ==> PrefixLength(own, e.node.id) < cut
  }

  ghost predicate Upper(own: NodeId, cut: nat, entries: seq<RoutingEntry>) {
    forall e :: e in entries ==> PrefixLength(own, e.node.id) >= cut
  }

  /** Draining neither loses nor duplicates an entry, and leaves the order alone if there is nothing to drain. */
  lemma {:induction false} DrainConserves(own: NodeId, s: seq<RoutingEntry>, cut: nat, hi: nat, i: nat)
    requires i <= |s|
    ensures var r := Drain(own, s, cut, hi, i);
            multiset(r.0) + multiset(r.1) == multiset(s) && (r.1 == [] ==> r.0 == s)
    decreases |s| - i
  {
    if i < |s| {
      if cut <= PrefixLength(own, s[i].node.id) < hi {
        SwapRemovedContents(s, i);
        DrainConserves(own, SwapRemoved(s, i), cut, hi, i);
      } else {
        DrainConserves(own, s, cut, hi, i + 1);
      }
    }
  }

  /** What is drained has a prefix length from the cut on, what is kept a shorter one. */
  lemma {:induction false} DrainSeparates(own: NodeId, s: seq<RoutingEntry>, cut: nat, hi: nat, i: nat)
    requires i <= |s|
    requires forall e :: e in s ==> PrefixLength(own, e.node.id) < hi
    requires Lower(own, cut, s[..i])
    ensures Lower(own, cut, Drain(own, s, cut, hi, i).0) && Upper(own, cut, Drain(own, s, cut, hi, i).1)
    decreases |s| - i
  {
    if i == |s| {
      assert s[..i] == s;
    } else if cut <= PrefixLength(own, s[i].node.id) {
      var s' := SwapRemoved(s, i);
      assert s'[..i] == s[..i];
      forall e | e in s' ensures PrefixLength(own, e.node.id) < hi {
        var j :| 0 <= j < |s'| && s'[j] == e;
        assert s[j] == e || s[|s| - 1] == e;
      }
      DrainSeparates(own, s', cut, hi, i);
    } else {
      assert s[..i + 1] == s[..i] + [s[i]];
      DrainSeparates(own, s, cut, hi, i + 1);
    }
  }

  /** An entry that stays and is not past the end of what stays keeps its place. */
  lemma {:induction false} KeptInPlace(own: NodeId, s: seq<RoutingEntry>, cut: nat, hi: nat, i: nat, j: nat)
    requires i <= |s| && j < |Drain(own, s, cut, hi, i).0|
    requires j < i || (j < |s| && !(cut <= PrefixLength(own, s[j].node.id) < hi))
    ensures j < |s| && Drain(own, s, cut, hi, i).0[j] == s[j]
    decreases |s| - i
  {
    hide PrefixLength;
    if i < |s| {
      if cut <= PrefixLength(own, s[i].node.id) < hi {
        KeptInPlace(own, SwapRemoved(s, i), cut, hi, i, j);
      } else {
        KeptInPlace(own, s, cut, hi, i + 1, j);
      }
    }
  }

  function Reversed<T>(s: seq<T>): seq<T> {
    if s == [] then [] else [s[|s| - 1]] + Reversed(s[..|s| - 1])
  }

  /** When all entries are drained, the first one comes first and the others backwards. */
  lemma {:induction false} AllDrained(own: NodeId, s: seq<RoutingEntry>, cut: nat, hi: nat)
    requires s != [] && forall e :: e in s ==> cut <= PrefixLength(own, e.node.id) < hi
    ensures Drain(own, s, cut, hi, 0) == ([], [s[0]] + Reversed(s[1..]))
    decreases |s|
  {
    hide PrefixLength;
    var rest := SwapRemoved(s, 0);
    if |s| == 1 {
      assert Reversed(s[1..]) == [];
    } else {
      var last := s[|s| - 1];
      assert rest == [last] + s[1..|s| - 1];
      AllDrained(own, rest, cut, hi);
      assert rest[1..] == s[1..|s| - 1] == s[1..][..|s[1..]| - 1];
    }
  }

  lemma SwapRemovedDistinct(s: seq<RoutingEntry>, i: nat)
    requires i < |s| && DistinctNodes(s)
    ensures DistinctNodes(SwapRemoved(s, i))
    ensures forall e :: e in SwapRemoved(s, i) ==> e in s && e.node.id != s[i].node.id
  {
    var r, last := SwapRemoved(s, i), |s| - 1;
    assert forall j :: 0 <= j < |r| ==> r[j] == s[if j == i then last else j];
  }

  lemma DistinctCons(e: RoutingEntry, rest: seq<RoutingEntry>)
    requires DistinctNodes(rest) && forall x :: x in rest ==> x.node.id != e.node.id
    ensures DistinctNodes([e] + rest)
  {
  }

  lemma NothingTwice()
    ensures DistinctNodes([])
  {
  }

  lemma {:induction false} DrainDistinct(own: NodeId, s: seq<RoutingEntry>, cut: nat, hi: nat, i: nat)
    requires i <= |s| && DistinctNodes(s)
    ensures var r := Drain(own, s, cut, hi, i); DistinctNodes(r.0) && DistinctNodes(r.1)
    ensures forall e :: e in Drain(own, s, cut, hi, i).1 ==> e in s
    decreases |s| - i
  {
    hide SwapRemoved, DistinctNodes, PrefixLength;
    if i == |s| {
      NothingTwice();
    } else if cut <= PrefixLength(own, s[i].node.id) < hi {
      SwapRemovedDistinct(s, i);
      DrainDistinct(own, SwapRemoved(s, i), cut, hi, i);
      DistinctCons(s[i], Drain(own, SwapRemoved(s, i), cut, hi, i).1);
    } else {
      DrainDistinct(own, s, cut, hi, i + 1);
    }
  }

  /** The drained and the kept entries of a bucket as its two halves. */
  lemma DrainHalves(own: NodeId, b: BucketValue)
    requires BucketInvariant(own, b) && b.lo + 1 < b.hi
    ensures var r := Drain(own, b.entries, b.lo + 1, b.hi, 0);
            && |r.0| + |r.1| == |b.entries|
            && BucketInvariant(own, BucketValue(b.lo, b.lo + 1, r.0)) && BucketInvariant(own, BucketValue(b.lo + 1, b.hi, r.1))
            && multiset(r.0) + multiset(r.1) == multiset(b.entries)
            && (r.1 == [] ==> r.0 == b.entries)
  {
    DrainConserves(own, b.entries, b.lo + 1, b.hi, 0);
    DrainSeparates(own, b.entries, b.lo + 1, b.hi, 0);
    DrainDistinct(own, b.entries, b.lo + 1, b.hi, 0);
    var r := Drain(own, b.entries, b.lo + 1, b.hi, 0);
    forall e | e in r.0 || e in r.1 ensures e in b.entries {
      assert e in multiset(b.entries);
    }
  }

  lemma AppendedInvariant(own: NodeId, b: BucketValue, e: RoutingEntry)
    requires BucketInvariant(own, b) && |b.entries| < CAPACITY
    requires b.lo <= PrefixLength(own, e.node.id) < b.hi
    requires forall x :: x in b.entries ==> x.node.id != e.node.id
    ensures BucketInvariant(own, b.(entries := b.entries + [e]))
  {
  }

  // ------------------------------------------------------------------ what an update keeps

  ghost predicate Known(b: BucketValue, node: Contact) {
    PositionOf(b.entries, node.id) < |b.entries|
  }

  /** A full bucket without bad entries that does not know the node. */
  ghost predicate Crowded(b: BucketValue, node: Contact, clock: Clock) {
    !Known(b, node) && |b.entries| == CAPACITY && FirstBad(b.entries, clock) == CAPACITY
  }

  /** All entries of a bucket fall into the same half as the new node, were it split. */
  ghost predicate OneSided(own: NodeId, b: BucketValue, node: Contact) {
    forall e :: e in b.entries ==> (PrefixLength(own, e.node.id) == b.lo <==> PrefixLength(own, node.id) == b.lo)
  }

  /** The entries that leave a bucket: an updated one, or a bad one that is replaced. */
  function Leaving(b: BucketValue, node: Contact, clock: Clock): multiset<RoutingEntry> {
    var j, k := PositionOf(b.entries, node.id), FirstBad(b.entries, clock);
    if j < |b.entries| then multiset{b.entries[j]}
    else if |b.entries| >= CAPACITY && k < |b.entries| then multiset{b.entries[k]}
    else multiset{}
  }

  /** The entries that come in: the updated one, or the new one unless it is dropped. */
  ghost function Entering(own: NodeId, b: BucketValue, node: Contact, seenIn: SeenIn, clock: Clock): multiset<RoutingEntry> {
    var j := PositionOf(b.entries, node.id);
    if j < |b.entries| then multiset{b.entries[j].Updated(seenIn, clock.recorded)}
    else if Crowded(b, node, clock) && (b.hi <= b.lo + 1 || OneSided(own, b, node)) then multiset{}
    else multiset{NewEntry(node, seenIn, clock.recorded)}
  }

  function EntriesOf(t: seq<BucketValue>): multiset<RoutingEntry> {
    if t == [] then multiset{} else EntriesOf(t[..|t| - 1]) + multiset(t[|t| - 1].entries)
  }

  lemma {:induction false} EntriesOfConcat(t: seq<BucketValue>, u: seq<BucketValue>)
    ensures EntriesOf(t + u) == EntriesOf(t) + EntriesOf(u)
  {
    if u == [] {
      assert t + u == t;
    } else {
      var v, x := u[..|u| - 1], u[|u| - 1];
      EntriesOfConcat(t, v);
      assert (t + u)[..|t + u| - 1] == t + v;
      assert EntriesOf(t + u) == EntriesOf(t + v) + multiset(x.entries);
    }
  }

  lemma EntriesOfFew(x: BucketValue, y: BucketValue)
    ensures EntriesOf([x]) == multiset(x.entries)
    ensures EntriesOf([x, y]) == multiset(x.entries) + multiset(y.entries)
  {
    assert [x, y][..1] == [x];
  }

  /** Which half the existing entries are in, from which half is empty. */
  lemma SidesOfDrain(own: NodeId, b: BucketValue, node: Contact)
    requires BucketInvariant(own, b) && b.lo + 1 < b.hi
    requires b.lo <= PrefixLength(own, node.id) < b.hi
    ensures var (kept, drained) := Drain(own, b.entries, b.lo + 1, b.hi, 0);
            OneSided(own, b, node) <==> if PrefixLength(own, node.id) == b.lo then drained == [] else kept == []
  {
    hide Drain, DistinctNodes;
    var (kept, drained) := Drain(own, b.entries, b.lo + 1, b.hi, 0);
    DrainHalves(own, b);
    forall x ensures x in b.entries <==> x in kept || x in drained {
      assert x in b.entries <==> x in multiset(b.entries);
      assert x in kept <==> x in multiset(kept);
      assert x in drained <==> x in multiset(drained);
    }
    assert kept != [] ==> kept[0] in kept;
    assert drained != [] ==> drained[0] in drained;
  }

  /** A refused split changes at most the order of the entries. */
  lemma RefusedSplit(own: NodeId, b: BucketValue)
    requires BucketInvariant(own, b) && b.lo + 1 < b.hi
    requires var (kept, drained) := Drain(own, b.entries, b.lo + 1, b.hi, 0); kept == [] || drained == []
    ensures var (kept, drained) := Drain(own, b.entries, b.lo + 1, b.hi, 0);
            && BucketInvariant(own, b.(entries := kept + drained))
            && multiset(kept + drained) == multiset(b.entries)
  {
    hide Drain;
    var (kept, drained) := Drain(own, b.entries, b.lo + 1, b.hi, 0);
    DrainHalves(own, b);
    assert kept + drained == if kept == [] then drained else kept;
  }

  /** A split that takes the new entry into one half. */
  lemma TakenSplit(own: NodeId, b: BucketValue, kept: seq<RoutingEntry>, drained: seq<RoutingEntry>, e: RoutingEntry, intoLower: bool)
    requires BucketInvariant(own, BucketValue(b.lo, b.lo + 1, kept)) && BucketInvariant(own, BucketValue(b.lo + 1, b.hi, drained))
    requires multiset(kept) + multiset(drained) == multiset(b.entries)
    requires if intoLower then PrefixLength(own, e.node.id) == b.lo else b.lo < PrefixLength(own, e.node.id) < b.hi
    requires forall x :: x in b.entries ==> x.node.id != e.node.id
    requires |if intoLower then kept else drained| < CAPACITY
    ensures var low := BucketValue(b.lo, b.lo + 1, if intoLower then kept + [e] else kept);
            var high := BucketValue(b.lo + 1, b.hi, if intoLower then drained else drained + [e]);
            && BucketInvariant(own, low) && BucketInvariant(own, high)
            && multiset(low.entries) + multiset(high.entries) == multiset(b.entries) + multiset{e}
  {
    hide PrefixLength;
    forall x | x in kept || x in drained ensures x.node.id != e.node.id {
      assert x in multiset(b.entries);
      assert x in b.entries;
    }
    if intoLower {
      AppendedInvariant(own, BucketValue(b.lo, b.lo + 1, kept), e);
    } else {
      AppendedInvariant(own, BucketValue(b.lo + 1, b.hi, drained), e);
    }
  }

  /** The result of a split that is not refused, for an entry of the lower or of the upper half. */
  ghost predicate IsSplit(own: NodeId, b: BucketValue, e: RoutingEntry, r: seq<BucketValue>) {
    && |r| == 2 && r[0].lo == b.lo && r[0].hi == b.lo + 1 == r[1].lo && r[1].hi == b.hi
    && BucketInvariant(own, r[0]) && BucketInvariant(own, r[1])
    && EntriesOf(r) == multiset(b.entries) + multiset{e}
  }

  lemma SplitHalves(own: NodeId, b: BucketValue, e: RoutingEntry, low: seq<RoutingEntry>, high: seq<RoutingEntry>)
    requires BucketInvariant(own, BucketValue(b.lo, b.lo + 1, low)) && BucketInvariant(own, BucketValue(b.lo + 1, b.hi, high))
    requires multiset(low) + multiset(high) == multiset(b.entries) + multiset{e}
    ensures IsSplit(own, b, e, [BucketValue(b.lo, b.lo + 1, low), BucketValue(b.lo + 1, b.hi, high)])
  {
    hide EntriesOf, BucketInvariant;
    EntriesOfFew(BucketValue(b.lo, b.lo + 1, low), BucketValue(b.lo + 1, b.hi, high));
  }

  lemma AcceptedSplit(own: NodeId, b: BucketValue, e: RoutingEntry)
    requires BucketInvariant(own, b) && |b.entries| == CAPACITY && b.lo + 1 < b.hi
    requires b.lo <= PrefixLength(own, e.node.id) < b.hi && !OneSided(own, b, e.node)
    requires forall x :: x in b.entries ==> x.node.id != e.node.id
    ensures IsSplit(own, b, e, SplitBucket(own, b, e))
  {
    hide Drain, EntriesOf, OneSided, BucketInvariant, SplitBucket, PrefixLength, IsSplit;
    var (kept, drained) := Drain(own, b.entries, b.lo + 1, b.hi, 0);
    var intoLower := PrefixLength(own, e.node.id) == b.lo;
    SidesOfDrain(own, b, e.node);
    DrainHalves(own, b);
    SplitCases(own, b, e, kept, drained);
    TakenSplit(own, b, kept, drained, e, intoLower);
    SplitHalves(own, b, e, if intoLower then kept + [e] else kept, if intoLower then drained else drained + [e]);
  }

  /** A split or a refused split: the halves get the bounds, every entry stays, and the new one
      comes in unless all nine fall into the same half. */
  lemma SplitOutcome(own: NodeId, b: BucketValue, e: RoutingEntry)
    requires BucketInvariant(own, b) && |b.entries| == CAPACITY && b.lo + 1 < b.hi
    requires b.lo <= PrefixLength(own, e.node.id) < b.hi
    requires forall x :: x in b.entries ==> x.node.id != e.node.id
    ensures var r := SplitBucket(own, b, e);
            && (forall i :: 0 <= i < |r| ==> BucketInvariant(own, r[i]))
            && if OneSided(own, b, e.node) then |r| == 1 && r[0].lo == b.lo && r[0].hi == b.hi && EntriesOf(r) == multiset(b.entries)
               else && |r| == 2 && r[0].lo == b.lo && r[0].hi == b.lo + 1 == r[1].lo && r[1].hi == b.hi
                    && EntriesOf(r) == multiset(b.entries) + multiset{e}
  {
    hide Drain, EntriesOf, OneSided, BucketInvariant, SplitBucket, PrefixLength;
    if OneSided(own, b, e.node) {
      var (kept, drained) := Drain(own, b.entries, b.lo + 1, b.hi, 0);
      SidesOfDrain(own, b, e.node);
      RefusedSplit(own, b);
      SplitCases(own, b, e, kept, drained);
      EntriesOfFew(b.(entries := kept + drained), b);
    } else {
      AcceptedSplit(own, b, e);
    }
  }

  lemma ReplacedEntry(own: NodeId, b: BucketValue, k: nat, e: RoutingEntry)
    requires BucketInvariant(own, b) && k < |b.entries|
    requires b.lo <= PrefixLength(own, e.node.id) < b.hi
    requires forall i :: 0 <= i < |b.entries| && i != k ==> b.entries[i].node.id != e.node.id
    ensures BucketInvariant(own, b.(entries := b.entries[k := e]))
    ensures multiset(b.entries[k := e]) == multiset(b.entries) - multiset{b.entries[k]} + multiset{e}
  {
    assert b.entries[k] in b.entries;
  }

  /** The whole effect of hearing of a node on its bucket: how it is split, if at all, and what
      becomes of its entries. */
  ghost predicate Outcome(own: NodeId, b: BucketValue, node: Contact, seenIn: SeenIn, clock: Clock, r: seq<BucketValue>) {
    && (forall i :: 0 <= i < |r| ==> BucketInvariant(own, r[i]))
    && (if Crowded(b, node, clock) && b.hi > b.lo + 1 && !OneSided(own, b, node)
        then |r| == 2 && r[0].lo == b.lo && r[0].hi == b.lo + 1 == r[1].lo && r[1].hi == b.hi
        else |r| == 1 && r[0].lo == b.lo && r[0].hi == b.hi)
    && Leaving(b, node, clock) <= multiset(b.entries)
    && EntriesOf(r) == multiset(b.entries) - Leaving(b, node, clock) + Entering(own, b, node, seenIn, clock)
  }

  lemma Unknown(b: BucketValue, node: Contact)
    requires !Known(b, node)
    ensures forall e :: e in b.entries ==> e.node.id != node.id
  {
  }

  /** One bucket is left, with the same bounds and one entry exchanged or added. */
  lemma OneBucketOutcome(own: NodeId, b: BucketValue, node: Contact, seenIn: SeenIn, clock: Clock, entries: seq<RoutingEntry>)
    requires BucketInvariant(own, b.(entries := entries)) && !Crowded(b, node, clock)
    requires UpdatedBucket(own, b, node, seenIn, clock) == [b.(entries := entries)]
    requires Leaving(b, node, clock) <= multiset(b.entries)
    requires multiset(entries) == multiset(b.entries) - Leaving(b, node, clock) + Entering(own, b, node, seenIn, clock)
    ensures Outcome(own, b, node, seenIn, clock, UpdatedBucket(own, b, node, seenIn, clock))
  {
    hide EntriesOf, OneSided, BucketInvariant, PrefixLength, Leaving, Entering, Crowded, UpdatedBucket;
    EntriesOfFew(b.(entries := entries), b);
  }

  lemma KnownOutcome(own: NodeId, b: BucketValue, node: Contact, seenIn: SeenIn, clock: Clock)
    requires BucketInvariant(own, b) && b.lo <= PrefixLength(own, node.id) < b.hi && Known(b, node)
    ensures Outcome(own, b, node, seenIn, clock, UpdatedBucket(own, b, node, seenIn, clock))
  {
    hide OneSided, InBounds, FirstBad, SplitBucket, Outcome;
    var j := PositionOf(b.entries, node.id);
    var e, e' := b.entries[j], b.entries[j].Updated(seenIn, clock.recorded);
    ReplacedEntry(own, b, j, e');
    assert e in b.entries;
    OneBucketOutcome(own, b, node, seenIn, clock, b.entries[j := e']);
  }

  lemma AppendedOutcome(own: NodeId, b: BucketValue, node: Contact, seenIn: SeenIn, clock: Clock)
    requires BucketInvariant(own, b) && b.lo <= PrefixLength(own, node.id) < b.hi && !Known(b, node) && |b.entries| < CAPACITY
    ensures Outcome(own, b, node, seenIn, clock, UpdatedBucket(own, b, node, seenIn, clock))
  {
    hide OneSided, InBounds, DistinctNodes, PositionOf, FirstBad, SplitBucket, Outcome;
    var e := NewEntry(node, seenIn, clock.recorded);
    Unknown(b, node);
    AppendedInvariant(own, b, e);
    assert multiset(b.entries + [e]) == multiset(b.entries) + multiset{e};
    OneBucketOutcome(own, b, node, seenIn, clock, b.entries + [e]);
  }

  lemma ReplacedOutcome(own: NodeId, b: BucketValue, node: Contact, seenIn: SeenIn, clock: Clock)
    requires BucketInvariant(own, b) && b.lo <= PrefixLength(own, node.id) < b.hi && !Known(b, node) && !Crowded(b, node, clock)
    requires |b.entries| == CAPACITY
    ensures Outcome(own, b, node, seenIn, clock, UpdatedBucket(own, b, node, seenIn, clock))
  {
    hide OneSided, InBounds, DistinctNodes, PositionOf, FirstBad, SplitBucket, Outcome;
    var e, k := NewEntry(node, seenIn, clock.recorded), FirstBad(b.entries, clock);
    Unknown(b, node);
    ReplacedEntry(own, b, k, e);
    assert b.entries[k] in b.entries;
    OneBucketOutcome(own, b, node, seenIn, clock, b.entries[k := e]);
  }

  lemma CrowdedCase(own: NodeId, b: BucketValue, node: Contact, seenIn: SeenIn, clock: Clock)
    requires Crowded(b, node, clock)
    ensures UpdatedBucket(own, b, node, seenIn, clock) == if b.hi > b.lo + 1 then SplitBucket(own, b, NewEntry(node, seenIn, clock.recorded)) else [b]
    ensures Leaving(b, node, clock) == multiset{}
    ensures Entering(own, b, node, seenIn, clock)
         == if b.hi > b.lo + 1 && !OneSided(own, b, node) then multiset{NewEntry(node, seenIn, clock.recorded)} else multiset{}
    ensures |b.entries| == CAPACITY
  {
    hide SplitBucket, OneSided, Drain;
  }

  lemma CrowdedOutcome(own: NodeId, b: BucketValue, node: Contact, seenIn: SeenIn, clock: Clock)
    requires BucketInvariant(own, b) && b.lo <= PrefixLength(own, node.id) < b.hi && Crowded(b, node, clock)
    ensures Outcome(own, b, node, seenIn, clock, UpdatedBucket(own, b, node, seenIn, clock))
  {
    hide EntriesOf, OneSided, BucketInvariant, SplitBucket, PrefixLength, UpdatedBucket, Leaving, Entering, PositionOf, FirstBad, Known;
    CrowdedCase(own, b, node, seenIn, clock);
    EntriesOfFew(b, b);
    if b.hi > b.lo + 1 {
      Unknown(b, node);
      SplitOutcome(own, b, NewEntry(node, seenIn, clock.recorded));
    }
  }

  lemma BucketOutcome(own: NodeId, b: BucketValue, node: Contact, seenIn: SeenIn, clock: Clock)
    requires BucketInvariant(own, b) && b.lo <= PrefixLength(own, node.id) < b.hi
    ensures Outcome(own, b, node, seenIn, clock, UpdatedBucket(own, b, node, seenIn, clock))
  {
    if Known(b, node) {
      KnownOutcome(own, b, node, seenIn, clock);
    } else if Crowded(b, node, clock) {
      CrowdedOutcome(own, b, node, seenIn, clock);
    } else if |b.entries| < CAPACITY {
      AppendedOutcome(own, b, node, seenIn, clock);
    } else {
      ReplacedOutcome(own, b, node, seenIn, clock);
    }
  }

  /** An update that has no need to split leaves every other entry of the bucket in its place, and puts a
      new one in the place of the bad one, or at the end. */
  lemma EntriesInPlace(own: NodeId, b: BucketValue, node: Contact, seenIn: SeenIn, clock: Clock)
    requires |b.entries| <= CAPACITY && !Crowded(b, node, clock)
    ensures var r, j := UpdatedBucket(own, b, node, seenIn, clock), PositionOf(b.entries, node.id);
            var k := if j < |b.entries| then j else if |b.entries| < CAPACITY then |b.entries| else FirstBad(b.entries, clock);
            && |r| == 1 && r[0].lo == b.lo && r[0].hi == b.hi
            && |r[0].entries| == (if k < |b.entries| then |b.entries| else |b.entries| + 1)
            && k < |r[0].entries| && r[0].entries[k].node.id == node.id
            && forall i :: 0 <= i < |b.entries| && i != k ==> r[0].entries[i] == b.entries[i]
  {
    hide SplitBucket, PrefixLength;
  }

  /** The bucket a node belongs to. */
  function BucketFor(own: NodeId, t: seq<BucketValue>, id: NodeId): BucketValue
    requires |t| > 0
  {
    t[BucketIndex(own, id, |t| - 1)]
  }

  lemma InitialInvariant(own: NodeId)
    ensures TableInvariant(own, InitialTable())
  {
  }

  lemma ReplacedBucket(own: NodeId, t: seq<BucketValue>, i: nat, x: BucketValue)
    requires TableInvariant(own, t) && i < |t| && x.lo == t[i].lo && x.hi == t[i].hi && BucketInvariant(own, x)
    ensures t[..i] + [x] + t[i + 1..] == t[i := x] && TableInvariant(own, t[i := x])
  {
    hide BucketInvariant;
  }

  lemma DividedBucket(own: NodeId, t: seq<BucketValue>, i: nat, x: BucketValue, y: BucketValue)
    requires TableInvariant(own, t) && i < |t| && t[i].hi > t[i].lo + 1
    requires x.lo == t[i].lo && x.hi == x.lo + 1 == y.lo && y.hi == t[i].hi
    requires BucketInvariant(own, x) && BucketInvariant(own, y)
    ensures i == |t| - 1 && t[..i] + [x, y] + t[i + 1..] == t[..i] + [x, y]
    ensures TableInvariant(own, t[..i] + [x, y])
  {
    hide BucketInvariant;
  }

  lemma TargetBucket(own: NodeId, t: seq<BucketValue>, id: NodeId)
    requires TableInvariant(own, t) && id != own
    ensures 1 <= |t| <= ID_BITS
    ensures BucketInvariant(own, BucketFor(own, t, id))
    ensures BucketFor(own, t, id).lo <= PrefixLength(own, id) < BucketFor(own, t, id).hi
    ensures |BucketFor(own, t, id).entries| <= CAPACITY
  {
    OneBucketPerId(own, t, id);
  }

  /** The invariant of the table holds after every update with another node's id. */
  lemma UpdateKeepsInvariant(own: NodeId, t: seq<BucketValue>, node: Contact, seenIn: SeenIn, clock: Clock)
    requires TableInvariant(own, t) && node.id != own
    ensures TableInvariant(own, UpdatedTable(own, t, node, seenIn, clock))
  {
    hide UpdatedBucket, BucketInvariant, Crowded, OneSided, EntriesOf, Leaving, Entering, PrefixLength, TableInvariant;
    TargetBucket(own, t, node.id);
    var i := BucketIndex(own, node.id, |t| - 1);
    BucketOutcome(own, t[i], node, seenIn, clock);
    var r := UpdatedBucket(own, t[i], node, seenIn, clock);
    if |r| == 1 {
      ReplacedBucket(own, t, i, r[0]);
      assert r == [r[0]];
    } else {
      DividedBucket(own, t, i, r[0], r[1]);
      assert r == [r[0], r[1]];
    }
  }

  lemma EntriesOfUpdate(t: seq<BucketValue>, front: seq<BucketValue>, x: BucketValue, back: seq<BucketValue>, r: seq<BucketValue>)
    requires t == front + [x] + back
    ensures multiset(x.entries) <= EntriesOf(t)
    ensures EntriesOf(front + r + back) == EntriesOf(t) - multiset(x.entries) + EntriesOf(r)
  {
    hide EntriesOf;
    EntriesOfConcat(front + r, back);
    EntriesOfConcat(front, r);
    EntriesOfConcat(front + [x], back);
    EntriesOfConcat(front, [x]);
    EntriesOfFew(x, x);
  }

  lemma PartReplaced<T>(all: multiset<T>, part: multiset<T>, leaving: multiset<T>, entering: multiset<T>)
    requires leaving <= part <= all
    ensures leaving <= all
    ensures all - part + (part - leaving + entering) == all - leaving + entering
  {
  }

  /** No update loses or invents an entry: the entries afterwards are those before, without the
      updated or replaced one, with the updated or new one. */
  lemma UpdateConserves(own: NodeId, t: seq<BucketValue>, node: Contact, seenIn: SeenIn, clock: Clock)
    requires TableInvariant(own, t) && node.id != own
    ensures var b := BucketFor(own, t, node.id);
            && Leaving(b, node, clock) <= EntriesOf(t)
            && EntriesOf(UpdatedTable(own, t, node, seenIn, clock)) == EntriesOf(t) - Leaving(b, node, clock) + Entering(own, b, node, seenIn, clock)
  {
    hide UpdatedBucket, BucketInvariant, Crowded, OneSided, Leaving, Entering, EntriesOf, PrefixLength, TableInvariant;
    TargetBucket(own, t, node.id);
    var i := BucketIndex(own, node.id, |t| - 1);
    var r := UpdatedBucket(own, t[i], node, seenIn, clock);
    BucketOutcome(own, t[i], node, seenIn, clock);
    assert t == t[..i] + [t[i]] + t[i + 1..];
    EntriesOfUpdate(t, t[..i], t[i], t[i + 1..], r);
    PartReplaced(EntriesOf(t), multiset(t[i].entries), Leaving(t[i], node, clock), Entering(own, t[i], node, seenIn, clock));
  }

  lemma {:induction false} EntryInTable(t: seq<BucketValue>, e: RoutingEntry)
    ensures e in EntriesOf(t) <==> exists i :: 0 <= i < |t| && e in t[i].entries
  {
    if t != [] {
      EntryInTable(t[..|t| - 1], e);
      assert e in EntriesOf(t) <==> e in EntriesOf(t[..|t| - 1]) || e in t[|t| - 1].entries;
    }
  }

  ghost predicate Has(t: seq<BucketValue>, id: NodeId) {
    exists e :: e in EntriesOf(t) && e.node.id == id
  }

  /** Any entry of a node is the one its bucket is searched for. */
  lemma EntryPosition(own: NodeId, t: seq<BucketValue>, e: RoutingEntry)
    requires TableInvariant(own, t) && e in EntriesOf(t)
    ensures e.node.id != own
    ensures var b := BucketFor(own, t, e.node.id);
            Known(b, e.node) && b.entries[PositionOf(b.entries, e.node.id)] == e
  {
    EntryInTable(t, e);
    var i :| 0 <= i < |t| && e in t[i].entries;
    OneBucketPerId(own, t, e.node.id);
    var j :| 0 <= j < |t[i].entries| && t[i].entries[j] == e;
  }

  lemma KnownIsStored(own: NodeId, t: seq<BucketValue>, node: Contact)
    requires |t| > 0 && Known(BucketFor(own, t, node.id), node)
    ensures Has(t, node.id)
  {
    var b := BucketFor(own, t, node.id);
    var e := b.entries[PositionOf(b.entries, node.id)];
    EntryInTable(t, e);
    assert e in EntriesOf(t);
  }

  /** A node has an entry in the table exactly if it is known to the one bucket it is looked for in. */
  lemma HasIsKnown(own: NodeId, t: seq<BucketValue>, node: Contact)
    requires TableInvariant(own, t) && node.id != own
    ensures Has(t, node.id) <==> Known(BucketFor(own, t, node.id), node)
  {
    hide EntriesOf, PositionOf, BucketInvariant;
    if Known(BucketFor(own, t, node.id), node) {
      KnownIsStored(own, t, node);
    }
    if Has(t, node.id) {
      var e :| e in EntriesOf(t) && e.node.id == node.id;
      EntryPosition(own, t, e);
    }
  }

  /** The nodes that lookups can find are those that have an entry. */
  lemma HasIsFindable(t: seq<BucketValue>, id: NodeId)
    ensures Has(t, id) <==> id in StoredIds(Rows(t))
  {
    hide EntriesOf;
    if Has(t, id) {
      var e :| e in EntriesOf(t) && e.node.id == id;
      EntryInTable(t, e);
      var i :| 0 <= i < |t| && e in t[i].entries;
      var j :| 0 <= j < |t[i].entries| && t[i].entries[j] == e;
      StoredAt(Rows(t), i, Nodes(t[i].entries)[j]);
    }
    if id in StoredIds(Rows(t)) {
      var i, c: Contact :| 0 <= i < |t| && c in Rows(t)[i] && c.id == id;
      var j :| 0 <= j < |t[i].entries| && Nodes(t[i].entries)[j] == c;
      EntryInTable(t, t[i].entries[j]);
      assert t[i].entries[j] in EntriesOf(t);
    }
  }

  /** No entry is stored twice. */
  lemma {:induction false} StoredOnce(own: NodeId, t: seq<BucketValue>, e: RoutingEntry)
    requires forall i :: 0 <= i < |t| ==> BucketInvariant(own, t[i])
    requires forall i, j :: 0 <= i < j < |t| ==> t[i].hi <= t[j].lo
    ensures EntriesOf(t)[e] <= 1
  {
    if t != [] {
      var s, last := t[..|t| - 1], t[|t| - 1];
      StoredOnce(own, s, e);
      DistinctOnce(last.entries, e);
      EntryInTable(s, e);
    }
  }

  lemma StoredOnceInTable(own: NodeId, t: seq<BucketValue>, e: RoutingEntry)
    requires TableInvariant(own, t)
    ensures EntriesOf(t)[e] <= 1
  {
    StoredOnce(own, t, e);
  }

  lemma {:induction false} DistinctOnce(s: seq<RoutingEntry>, e: RoutingEntry)
    requires DistinctNodes(s)
    ensures multiset(s)[e] <= 1
  {
    if s != [] {
      var r, last := s[..|s| - 1], s[|s| - 1];
      DistinctOnce(r, e);
      assert s == r + [last];
      assert last == e ==> e !in r;
    }
  }

  // ------------------------------------------------------------------ retention

  /** Hearing of a node evicts e: the node is new to a full bucket whose first bad entry is e. */
  ghost predicate Evicts(own: NodeId, t: seq<BucketValue>, node: Contact, clock: Clock, e: RoutingEntry)
    requires |t| > 0
  {
    var b := BucketFor(own, t, node.id);
    !Known(b, node) && |b.entries| == CAPACITY && FirstBad(b.entries, clock) < CAPACITY && b.entries[FirstBad(b.entries, clock)] == e
  }

  /** Another node's entry disappears exactly when it is the bad one that is replaced. */
  lemma RetainedUnlessEvicted(own: NodeId, t: seq<BucketValue>, node: Contact, seenIn: SeenIn, clock: Clock, e: RoutingEntry)
    requires TableInvariant(own, t) && node.id != own
    requires e in EntriesOf(t) && e.node.id != node.id
    ensures e in EntriesOf(UpdatedTable(own, t, node, seenIn, clock)) <==> !Evicts(own, t, node, clock, e)
    ensures (forall i: nat :: e.Rating(clock.rated(i)) != Bad) ==> !Evicts(own, t, node, clock, e)
  {
    hide TableInvariant, BucketInvariant, UpdatedTable, EntriesOf, Crowded, OneSided, PrefixLength;
    TargetBucket(own, t, node.id);
    var b := BucketFor(own, t, node.id);
    UpdateConserves(own, t, node, seenIn, clock);
    StoredOnceInTable(own, t, e);
    LeavesIfEvicted(own, t, node, clock, e);
    assert e !in Entering(own, b, node, seenIn, clock);
  }

  lemma LeavesIfEvicted(own: NodeId, t: seq<BucketValue>, node: Contact, clock: Clock, e: RoutingEntry)
    requires |t| > 0 && |BucketFor(own, t, node.id).entries| <= CAPACITY && e.node.id != node.id
    ensures e in Leaving(BucketFor(own, t, node.id), node, clock) <==> Evicts(own, t, node, clock, e)
    ensures Evicts(own, t, node, clock, e) ==> Leaving(BucketFor(own, t, node.id), node, clock)[e] == 1
  {
  }

  /** A node that is heard of ends up stored, unless it is new to a full bucket without bad entries
      that covers one prefix length or has all its entries in the node's half. */
  lemma HeardNodeIsStored(own: NodeId, t: seq<BucketValue>, node: Contact, seenIn: SeenIn, clock: Clock)
    requires TableInvariant(own, t) && node.id != own
    ensures var b := BucketFor(own, t, node.id);
            Has(UpdatedTable(own, t, node, seenIn, clock), node.id)
            <==> !(Crowded(b, node, clock) && (b.hi == b.lo + 1 || OneSided(own, b, node)))
  {
    hide UpdatedTable, EntriesOf, PositionOf, FirstBad, OneSided, PrefixLength;
    var b, t' := BucketFor(own, t, node.id), UpdatedTable(own, t, node, seenIn, clock);
    var entering := Entering(own, b, node, seenIn, clock);
    UpdateConserves(own, t, node, seenIn, clock);
    TargetBucket(own, t, node.id);
    HasIsKnown(own, t, node);
    if entering != multiset{} {
      var e :| e in entering;
      assert e in EntriesOf(t') && e.node.id == node.id;
    } else {
      assert EntriesOf(t') <= EntriesOf(t);
    }
  }

  /** The node has responded, and its last response is not older than `since`; where queries count,
      its last query may take the place of the response. */
  predicate HeardSince(e: RoutingEntry, since: Instant, queriesCount: bool) {
    && e.lastResponse.Some?
    && (e.lastResponse.value >= since || (queriesCount && e.lastQuery.Some? && e.lastQuery.value >= since))
  }

  /** The node is in the table and was heard of since then. */
  ghost predicate GoodSince(t: seq<BucketValue>, id: NodeId, since: Instant, queriesCount: bool) {
    exists e :: e in EntriesOf(t) && e.node.id == id && HeardSince(e, since, queriesCount)
  }

  /** The node is in the table and has ever responded. */
  ghost predicate Responded(t: seq<BucketValue>, id: NodeId) {
    exists e :: e in EntriesOf(t) && e.node.id == id && e.lastResponse.Some?
  }

  lemma ResponseIsRecorded(own: NodeId, t: seq<BucketValue>, node: Contact, clock: Clock)
    requires TableInvariant(own, t) && node.id != own
    requires Has(UpdatedTable(own, t, node, Response, clock), node.id)
    ensures GoodSince(UpdatedTable(own, t, node, Response, clock), node.id, clock.recorded, false)
  {
    hide UpdatedTable, TableInvariant, BucketInvariant, EntriesOf, PositionOf, FirstBad, OneSided, PrefixLength;
    UpdateConserves(own, t, node, Response, clock);
    HeardNodeIsStored(own, t, node, Response, clock);
    TargetBucket(own, t, node.id);
    var entering := Entering(own, BucketFor(own, t, node.id), node, Response, clock);
    var e :| e in entering;
    assert e in EntriesOf(UpdatedTable(own, t, node, Response, clock));
  }

  /** The entry of a node that is heard of again is updated in its place. */
  lemma KnownEntryUpdated(own: NodeId, t: seq<BucketValue>, node: Contact, seenIn: SeenIn, clock: Clock, e: RoutingEntry)
    requires TableInvariant(own, t) && e in EntriesOf(t) && e.node.id == node.id
    ensures node.id != own && e.Updated(seenIn, clock.recorded) in EntriesOf(UpdatedTable(own, t, node, seenIn, clock))
  {
    hide UpdatedTable, TableInvariant, EntriesOf, PositionOf, Crowded, PrefixLength;
    EntryPosition(own, t, e);
    UpdateConserves(own, t, node, seenIn, clock);
  }

  lemma QueryIsRecorded(own: NodeId, t: seq<BucketValue>, node: Contact, clock: Clock)
    requires TableInvariant(own, t) && Responded(t, node.id)
    ensures GoodSince(UpdatedTable(own, t, node, Query, clock), node.id, clock.recorded, true)
  {
    hide UpdatedTable, TableInvariant, EntriesOf;
    var e :| e in EntriesOf(t) && e.node.id == node.id && e.lastResponse.Some?;
    KnownEntryUpdated(own, t, node, Query, clock, e);
    assert HeardSince(e.Updated(Query, clock.recorded), clock.recorded, true);
  }

  /** Nothing is recorded before `since`, and no entry is rated 960 seconds or more after it. */
  ghost predicate InWindow(clock: Clock, since: Instant) {
    && since <= clock.recorded
    && forall i: nat :: clock.rated(i).response < since + 960 * SECOND && clock.rated(i).query < since + 960 * SECOND
  }

  lemma GoodStays(own: NodeId, t: seq<BucketValue>, node: Contact, seenIn: SeenIn, clock: Clock, id: NodeId, since: Instant, queriesCount: bool)
    requires TableInvariant(own, t) && node.id != own
    requires GoodSince(t, id, since, queriesCount) && InWindow(clock, since)
    ensures GoodSince(UpdatedTable(own, t, node, seenIn, clock), id, since, queriesCount)
  {
    hide UpdatedTable, TableInvariant, EntriesOf;
    var e :| e in EntriesOf(t) && e.node.id == id && HeardSince(e, since, queriesCount);
    if id == node.id {
      KnownEntryUpdated(own, t, node, seenIn, clock, e);
      assert HeardSince(e.Updated(seenIn, clock.recorded), since, queriesCount);
    } else {
      forall i: nat ensures e.Rating(clock.rated(i)) == Good {
        RatingExactly(e, clock.rated(i));
      }
      RetainedUnlessEvicted(own, t, node, seenIn, clock, e);
    }
  }

  // ------------------------------------------------------------------ runs

  datatype Event = Event(node: Contact, seenIn: SeenIn, clock: Clock)

  /** The table after a sequence of updates. */
  function Run(own: NodeId, t: seq<BucketValue>, events: seq<Event>): (r: seq<BucketValue>)
    requires |t| > 0
    ensures |r| > 0
  {
    if events == [] then t
    else
      var e := events[|events| - 1];
      UpdatedTable(own, Run(own, t, events[..|events| - 1]), e.node, e.seenIn, e.clock)
  }

  lemma RunStep(own: NodeId, events: seq<Event>, e: Event)
    ensures Run(own, InitialTable(), events + [e]) == UpdatedTable(own, Run(own, InitialTable(), events), e.node, e.seenIn, e.clock)
  {
    assert (events + [e])[..|events|] == events;
  }

  /** The invariant holds in every reachable table. */
  lemma {:induction false} RunKeepsInvariant(own: NodeId, events: seq<Event>)
    requires forall e :: e in events ==> e.node.id != own
    ensures TableInvariant(own, Run(own, InitialTable(), events))
  {
    if events == [] {
      InitialInvariant(own);
    } else {
      var e := events[|events| - 1];
      RunKeepsInvariant(own, events[..|events| - 1]);
      UpdateKeepsInvariant(own, Run(own, InitialTable(), events[..|events| - 1]), e.node, e.seenIn, e.clock);
    }
  }

  /** A node that is good since some time is so through every run of updates, of whatever nodes,
      within the next 960 seconds of a monotone clock. */
  lemma {:induction false} GoodNodeStays(own: NodeId, before: seq<Event>, id: NodeId, since: Instant, after: seq<Event>, queriesCount: bool)
    requires forall e :: e in before || e in after ==> e.node.id != own
    requires GoodSince(Run(own, InitialTable(), before), id, since, queriesCount)
    requires forall e :: e in after ==> InWindow(e.clock, since)
    ensures GoodSince(Run(own, InitialTable(), before + after), id, since, queriesCount)
  {
    hide Run, TableInvariant, GoodSince, InWindow;
    if after == [] {
      assert before + after == before;
    } else {
      var less, e := after[..|after| - 1], after[|after| - 1];
      assert before + after == (before + less) + [e];
      GoodNodeStays(own, before, id, since, less, queriesCount);
      RunKeepsInvariant(own, before + less);
      RunStep(own, before + less, e);
      GoodStays(own, Run(own, InitialTable(), before + less), e.node, e.seenIn, e.clock, id, since, queriesCount);
    }
  }

  /** A node that is in the table right after a response at time t is in it, with that response or a
      later one, through every run of updates within the next 960 seconds. */
  lemma ResponsiveNodeStays(own: NodeId, before: seq<Event>, node: Contact, heard: Clock, after: seq<Event>)
    requires forall e :: e in before || e in after ==> e.node.id != own
    requires node.id != own
    requires Has(Run(own, InitialTable(), before + [Event(node, Response, heard)]), node.id)
    requires forall e :: e in after ==> InWindow(e.clock, heard.recorded)
    ensures var all := before + [Event(node, Response, heard)] + after;
            && TableInvariant(own, Run(own, InitialTable(), all))
            && GoodSince(Run(own, InitialTable(), all), node.id, heard.recorded, false)
  {
    hide Run, TableInvariant, GoodSince, Has, InWindow;
    var first := before + [Event(node, Response, heard)];
    RunKeepsInvariant(own, first + after);
    RunKeepsInvariant(own, before);
    RunStep(own, before, Event(node, Response, heard));
    ResponseIsRecorded(own, Run(own, InitialTable(), before), node, heard);
    GoodNodeStays(own, first, node.id, heard.recorded, after, false);
  }

  /** A node in the table that has ever responded and queries at time t is in it, with a response and
      with that query or something later, through every run of updates within the next 960 seconds. */
  lemma QueryingNodeStays(own: NodeId, before: seq<Event>, node: Contact, heard: Clock, after: seq<Event>)
    requires forall e :: e in before || e in after ==> e.node.id != own
    requires node.id != own && Responded(Run(own, InitialTable(), before), node.id)
    requires forall e :: e in after ==> InWindow(e.clock, heard.recorded)
    ensures var all := before + [Event(node, Query, heard)] + after;
            && TableInvariant(own, Run(own, InitialTable(), all))
            && GoodSince(Run(own, InitialTable(), all), node.id, heard.recorded, true)
  {
    hide Run, TableInvariant, GoodSince, Responded, InWindow;
    var first := before + [Event(node, Query, heard)];
    RunKeepsInvariant(own, first + after);
    RunKeepsInvariant(own, before);
    RunStep(own, before, Event(node, Query, heard));
    QueryIsRecorded(own, Run(own, InitialTable(), before), node, heard);
    GoodNodeStays(own, first, node.id, heard.recorded, after, true);
  }
}

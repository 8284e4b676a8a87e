/** The Go routing table as a closed form of everything that was ever offered to it.

    Let F be the first offer of every distinct id, in order, b the bucket size, and k the least
    number such that at most b contacts of F share k bits with the own id. Then the table has
    k + 1 buckets; bucket p < k holds the first b contacts of F with exactly p common bits,
    and the last bucket holds all of F with at least k. */
module GoTableHistory {
  import opened NodeIds
  import opened Contacts
  import opened GoBuckets
  import opened Lookup

  // One past the longest prefix.
  const ALL: nat := ID_BITS + 1

  function FirstOffers(offered: seq<Contact>): (s: seq<Contact>)
    ensures DistinctIds(s) && Ids(s) == Ids(offered)
  {
    if offered == [] then []
    else
      var rest := FirstOffers(offered[..|offered| - 1]);
      var c := offered[|offered| - 1];
      assert offered == offered[..|offered| - 1] + [c];
      IdsAppend(offered[..|offered| - 1], c);
      IdsAppend(rest, c);
      if c.id in Ids(rest) then rest else rest + [c]
  }

  lemma FirstOffersAppend(offered: seq<Contact>, c: Contact)
    ensures FirstOffers(offered + [c])
         == FirstOffers(offered) + if c.id in Ids(FirstOffers(offered)) then [] else [c]
  {
    assert (offered + [c])[..|offered|] == offered;
  }

  /** The first offers sharing at least k bits with `own`. */
  function Near(own: NodeId, offered: seq<Contact>, k: nat): seq<Contact> {
    Between(own, FirstOffers(offered), k, ALL)
  }

  /** The first offers sharing exactly p bits with `own`. */
  function Exactly(own: NodeId, offered: seq<Contact>, p: nat): seq<Contact> {
    Between(own, FirstOffers(offered), p, p + 1)
  }

  function BucketOf(own: NodeId, b: nat, offered: seq<Contact>, k: nat, i: nat): Bucket {
    Bucket(b, if i < k then Take(Exactly(own, offered, i), b) else Near(own, offered, k))
  }

  /** The table with k + 1 buckets that `offered` leads to. */
  function Layout(own: NodeId, b: nat, offered: seq<Contact>, k: nat): seq<Bucket> {
    seq(k + 1, i requires 0 <= i <= k => BucketOf(own, b, offered, k, i))
  }

  /** Go's splitAt panics exactly when a bucket size of 0 meets the own id. */
  predicate Storable(own: NodeId, b: nat, offered: seq<Contact>) {
    b > 0 || own !in Ids(offered)
  }

  lemma NearBound(own: NodeId, offered: seq<Contact>, k: nat)
    requires k <= ID_BITS
    ensures |Near(own, offered, k)| <= Pow2(ID_BITS - k)
  {
    BetweenBound(own, FirstOffers(offered), k, ALL);
  }

  lemma DeepestFits(own: NodeId, b: nat, offered: seq<Contact>)
    ensures Storable(own, b, offered) ==> |Near(own, offered, ID_BITS)| <= b
  {
    NearBound(own, offered, ID_BITS);
    assert Pow2(0) == 1;
    BetweenContents(own, FirstOffers(offered), ID_BITS, ALL);
    forall c | c in Near(own, offered, ID_BITS) ensures own in Ids(offered) {
      FullPrefixIsEquality(own, c.id);
      assert c.id in Ids(FirstOffers(offered));
    }
    assert Near(own, offered, ID_BITS) != [] ==> Near(own, offered, ID_BITS)[0] in Near(own, offered, ID_BITS);
  }

  function DepthFrom(own: NodeId, b: nat, offered: seq<Contact>, k: nat): (d: nat)
    requires k <= ID_BITS
    ensures k <= d <= ID_BITS
    ensures Storable(own, b, offered) ==> |Near(own, offered, d)| <= b
    ensures forall j: nat :: k <= j < d ==> |Near(own, offered, j)| > b
    decreases own, ID_BITS - k
  {
    DeepestFits(own, b, offered);
    if k == ID_BITS || |Near(own, offered, k)| <= b then k else DepthFrom(own, b, offered, k + 1)
  }

  /** The least k such that at most b distinct offered ids share k bits with `own`. */
  function Depth(own: NodeId, b: nat, offered: seq<Contact>): (d: nat)
    ensures d <= ID_BITS
    ensures Storable(own, b, offered) ==> |Near(own, offered, d)| <= b
    ensures forall j :: 0 <= j < d ==> |Near(own, offered, j)| > b
  {
    DepthFrom(own, b, offered, 0)
  }

  function Canonical(own: NodeId, b: nat, offered: seq<Contact>): seq<Bucket> {
    Layout(own, b, offered, Depth(own, b, offered))
  }

  lemma DepthUnique(own: NodeId, b: nat, offered: seq<Contact>, k: nat)
    requires Storable(own, b, offered)
    requires |Near(own, offered, k)| <= b
    requires forall j :: 0 <= j < k ==> |Near(own, offered, j)| > b
    ensures k == Depth(own, b, offered)
  {
    var d := Depth(own, b, offered);
    if d < k || k < d { assert false; }
  }

  // ------------------------------------------------------------------ one insertion step

  /** An id that is already known leaves the layout alone. */
  lemma KnownOffer(own: NodeId, b: nat, offered: seq<Contact>, c: Contact, k: nat)
    requires c.id in Ids(offered)
    ensures Layout(own, b, offered + [c], k) == Layout(own, b, offered, k)
    ensures forall j: nat :: Near(own, offered + [c], j) == Near(own, offered, j)
  {
    FirstOffersAppend(offered, c);
    assert FirstOffers(offered + [c]) == FirstOffers(offered);
  }

  lemma NewOfferCounts(own: NodeId, offered: seq<Contact>, c: Contact, j: nat)
    requires c.id !in Ids(offered)
    ensures Near(own, offered + [c], j) == Near(own, offered, j) + if j <= PrefixLength(own, c.id) then [c] else []
    ensures Exactly(own, offered + [c], j) == Exactly(own, offered, j) + if j == PrefixLength(own, c.id) then [c] else []
  {
    FirstOffersAppend(offered, c);
    BetweenAppend(own, FirstOffers(offered), c, j, ALL);
    BetweenAppend(own, FirstOffers(offered), c, j, j + 1);
  }

  lemma NewOfferBucket(own: NodeId, b: nat, offered: seq<Contact>, c: Contact, k: nat, i: nat)
    requires c.id !in Ids(offered) && i <= k
    ensures var was := BucketOf(own, b, offered, k, i);
            BucketOf(own, b, offered + [c], k, i)
              == if i == BucketIndex(own, c.id, k) && (i == k || |was.entries| < b) then Bucket(b, was.entries + [c]) else was
  {
    NewOfferCounts(own, offered, c, i);
    TakeAppend(Exactly(own, offered, i), c, b);
  }

  /** A new id is appended to the bucket of its prefix length, unless that bucket is full and not the last. */
  lemma NewOffer(own: NodeId, b: nat, offered: seq<Contact>, c: Contact, k: nat)
    requires c.id !in Ids(offered)
    ensures var i, t := BucketIndex(own, c.id, k), Layout(own, b, offered, k);
            Layout(own, b, offered + [c], k)
              == if i == k || |t[i].entries| < b then t[i := Bucket(b, t[i].entries + [c])] else t
  {
    forall i | 0 <= i <= k
      ensures var was := Layout(own, b, offered, k)[i];
              Layout(own, b, offered + [c], k)[i]
                == if i == BucketIndex(own, c.id, k) && (i == k || |was.entries| < b) then Bucket(b, was.entries + [c]) else was
    {
      NewOfferBucket(own, b, offered, c, k, i);
    }
  }

  lemma NearGrows(own: NodeId, offered: seq<Contact>, c: Contact, j: nat)
    ensures |Near(own, offered + [c], j)| >= |Near(own, offered, j)|
  {
    if c.id in Ids(offered) {
      KnownOffer(own, 0, offered, c, 0);
    } else {
      NewOfferCounts(own, offered, c, j);
    }
  }

  /** A full bucket at the very end of the table, faced with one more id, means bucket size 0 and the own id. */
  lemma FullBeyondLastBit(own: NodeId, b: nat, offered: seq<Contact>, c: Contact)
    requires PrefixLength(own, c.id) >= ID_BITS && |Near(own, offered, ID_BITS)| == b
    requires c.id !in Ids(Near(own, offered, ID_BITS))
    ensures b == 0 && c.id == own
  {
    BucketOfId(own, b, offered, c.id, ID_BITS);
    NewOfferCounts(own, offered, c, ID_BITS);
    NearBound(own, offered + [c], ID_BITS);
    assert Pow2(0) == 1;
    FullPrefixIsEquality(own, c.id);
  }

  /** An id is in its bucket, or it was never offered, or it was dropped from a full bucket before the last. */
  lemma BucketOfId(own: NodeId, b: nat, offered: seq<Contact>, id: NodeId, k: nat)
    requires |Near(own, offered, k)| <= b && k <= ID_BITS
    ensures var i := BucketIndex(own, id, k);
            var entries := Layout(own, b, offered, k)[i].entries;
            && (id in Ids(entries) ==> id in Ids(offered))
            && (id in Ids(offered) && id !in Ids(entries) ==> i < k && |entries| == b)
  {
    hide PrefixLength, Between, FirstOffers, DistinctIds;
    var F, p := FirstOffers(offered), PrefixLength(own, id);
    var i := if p < k then p else k;
    var all := Between(own, F, i, if i < k then i + 1 else ALL);
    BetweenContents(own, F, i, if i < k then i + 1 else ALL);
    var entries := Layout(own, b, offered, k)[i].entries;
    assert entries <= all;
    if id in Ids(entries) {
      var c :| c in entries && c.id == id;
      assert c in F;
    }
    if id in Ids(offered) {
      assert id in Ids(F);
      var c :| c in F && c.id == id;
      assert c in all;
    }
  }

  /** Every bucket of a layout is a valid bucket. */
  lemma LayoutValid(own: NodeId, b: nat, offered: seq<Contact>, k: nat)
    requires |Near(own, offered, k)| <= b
    ensures forall i :: 0 <= i <= k ==> Layout(own, b, offered, k)[i].Valid()
  {
    var F := FirstOffers(offered);
    BetweenDistinct(own, F, k, ALL);
    forall i: nat ensures DistinctIds(Exactly(own, offered, i)) {
      BetweenDistinct(own, F, i, i + 1);
    }
  }

  lemma SplitNear(own: NodeId, offered: seq<Contact>, k: nat)
    requires k < ID_BITS
    ensures WithBit(Near(own, offered, k), k, !IsBitSet(own, k)) == Exactly(own, offered, k)
    ensures WithBit(Near(own, offered, k), k, IsBitSet(own, k)) == Near(own, offered, k + 1)
  {
    hide Between, FirstOffers, WithBit, IsBitSet;
    var F, near := FirstOffers(offered), Near(own, offered, k);
    BetweenContents(own, F, k, ALL);
    BitDecidesPrefix(own, near, k);
    BetweenNested(own, F, k, ALL, k, k + 1);
    BetweenNested(own, F, k, ALL, k + 1, ALL);
  }

  lemma SplitSizes(own: NodeId, offered: seq<Contact>, k: nat)
    requires k < ID_BITS
    ensures |Exactly(own, offered, k)| <= |Near(own, offered, k)|
    ensures |Near(own, offered, k + 1)| <= |Near(own, offered, k)|
  {
    SplitNear(own, offered, k);
    WithBitContents(Near(own, offered, k), k, IsBitSet(own, k));
    WithBitContents(Near(own, offered, k), k, !IsBitSet(own, k));
  }

  /** Splitting the last bucket k on bit k, with the half of the own id moving on, gives the next layout. */
  lemma SplitLayout(own: NodeId, b: nat, offered: seq<Contact>, k: nat, zero: Bucket, one: Bucket)
    requires k < ID_BITS && |Near(own, offered, k)| <= b
    requires zero == Bucket(b, WithBit(Near(own, offered, k), k, false))
    requires one == Bucket(b, WithBit(Near(own, offered, k), k, true))
    ensures Layout(own, b, offered, k + 1)
         == if IsBitSet(own, k) then Layout(own, b, offered, k)[k := zero] + [one] else Layout(own, b, offered, k)[k := one] + [zero]
  {
    SplitNear(own, offered, k);
    SplitSizes(own, offered, k);
    var t, t' := Layout(own, b, offered, k), Layout(own, b, offered, k + 1);
    forall x | 0 <= x < k ensures t'[x] == t[x] {
      assert t'[x] == BucketOf(own, b, offered, k + 1, x) && t[x] == BucketOf(own, b, offered, k, x);
    }
    assert t'[k] == BucketOf(own, b, offered, k + 1, k) && t'[k + 1] == BucketOf(own, b, offered, k + 1, k + 1);
  }

  /** An insertion under way: the table is a layout at most as deep as the new offer needs. */
  ghost predicate Inserting(own: NodeId, b: nat, offered: seq<Contact>, c: Contact, table: seq<Bucket>) {
    var k := |table| - 1;
    && Storable(own, b, offered)
    && 0 <= k <= ID_BITS
    && table == Layout(own, b, offered, k)
    && |Near(own, offered, k)| <= b
    && forall j :: 0 <= j < k ==> |Near(own, offered + [c], j)| > b
  }

  lemma InsertionStarts(own: NodeId, b: nat, offered: seq<Contact>, c: Contact)
    requires Storable(own, b, offered)
    ensures Inserting(own, b, offered, c, Canonical(own, b, offered))
  {
    hide Near, BucketOf;
    forall j: nat ensures |Near(own, offered + [c], j)| >= |Near(own, offered, j)| {
      NearGrows(own, offered, c, j);
    }
  }

  lemma InsertionBucket(own: NodeId, b: nat, offered: seq<Contact>, c: Contact, table: seq<Bucket>)
    requires Inserting(own, b, offered, c, table)
    ensures 1 <= |table| <= ID_BITS + 1
    ensures table[BucketIndex(own, c.id, |table| - 1)].bucketSize == b
    ensures table[BucketIndex(own, c.id, |table| - 1)].Valid()
  {
    LayoutValid(own, b, offered, |table| - 1);
  }

  /** The insertion is over unless the last bucket is full, lacks the id and would have to take it. */
  lemma InsertionEnds(own: NodeId, b: nat, offered: seq<Contact>, c: Contact, table: seq<Bucket>)
    requires Inserting(own, b, offered, c, table)
    requires var i := BucketIndex(own, c.id, |table| - 1);
             i < |table| - 1 || c.id in Ids(table[i].entries) || |table[i].entries| < b
    ensures Storable(own, b, offered + [c])
    ensures b == 0 ==> c.id != own
    ensures var i := BucketIndex(own, c.id, |table| - 1);
            Canonical(own, b, offered + [c])
              == if c.id in Ids(table[i].entries) || |table[i].entries| >= b then table
                 else table[i := Bucket(b, table[i].entries + [c])]
  {
    var k := |table| - 1;
    BucketOfId(own, b, offered, c.id, k);
    OwnIdIsLast(own, b, offered, c, table);
    if c.id in Ids(offered) {
      KnownOffer(own, b, offered, c, k);
    } else {
      NewOffer(own, b, offered, c, k);
      NewOfferCounts(own, offered, c, k);
    }
    DepthUnique(own, b, offered + [c], k);
  }

  lemma OwnIdIsLast(own: NodeId, b: nat, offered: seq<Contact>, c: Contact, table: seq<Bucket>)
    requires Inserting(own, b, offered, c, table)
    requires var i := BucketIndex(own, c.id, |table| - 1);
             i < |table| - 1 || c.id in Ids(table[i].entries) || |table[i].entries| < b
    ensures Storable(own, b, offered + [c])
    ensures b == 0 ==> c.id != own
  {
    IdsAppend(offered, c);
    FullPrefixIsEquality(own, c.id);
    if b == 0 {
      assert table[|table| - 1].entries == [];
      assert Ids([]) == {};
    }
  }

  lemma OneTooMany(own: NodeId, b: nat, offered: seq<Contact>, c: Contact, k: nat)
    requires k <= ID_BITS && PrefixLength(own, c.id) >= k && |Near(own, offered, k)| == b
    requires c.id !in Ids(Near(own, offered, k))
    ensures |Near(own, offered + [c], k)| > b
  {
    BucketOfId(own, b, offered, c.id, k);
    NewOfferCounts(own, offered, c, k);
  }

  lemma DeeperLayout(own: NodeId, b: nat, offered: seq<Contact>, c: Contact, k: nat)
    requires Inserting(own, b, offered, c, Layout(own, b, offered, k)) && k < ID_BITS
    requires PrefixLength(own, c.id) >= k && |Near(own, offered, k)| == b
    requires c.id !in Ids(Near(own, offered, k))
    ensures Inserting(own, b, offered, c, Layout(own, b, offered, k + 1))
  {
    hide Near, BucketOf, PrefixLength, Ids, FirstOffers;
    OneTooMany(own, b, offered, c, k);
    SplitSizes(own, offered, k);
  }

  /** The table after its last bucket was split at its own index: the half of the own id moves on. */
  function Deepened(own: NodeId, b: nat, table: seq<Bucket>): seq<Bucket>
    requires 0 < |table| <= ID_BITS
  {
    var k := |table| - 1;
    var zero, one := Bucket(b, WithBit(table[k].entries, k, false)), Bucket(b, WithBit(table[k].entries, k, true));
    if IsBitSet(own, k) then table[k := zero] + [one] else table[k := one] + [zero]
  }

  /** Otherwise, and unless bucket size 0 meets the own id, the last bucket is split at a bit that
      exists, and the insertion goes on in a deeper table. */
  lemma InsertionDescends(own: NodeId, b: nat, offered: seq<Contact>, c: Contact, table: seq<Bucket>)
    requires Inserting(own, b, offered, c, table) && |table| - 1 < ID_BITS
    requires PrefixLength(own, c.id) >= |table| - 1
    requires c.id !in Ids(table[|table| - 1].entries) && |table[|table| - 1].entries| >= b
    ensures |Deepened(own, b, table)| == |table| + 1 && Inserting(own, b, offered, c, Deepened(own, b, table))
  {
    hide Near, WithBit, PrefixLength, Ids, Exactly, IsBitSet;
    var k := |table| - 1;
    assert table[k] == BucketOf(own, b, offered, k, k);
    SplitLayout(own, b, offered, k, Bucket(b, WithBit(table[k].entries, k, false)), Bucket(b, WithBit(table[k].entries, k, true)));
    DeeperLayout(own, b, offered, c, k);
    assert Deepened(own, b, table) == Layout(own, b, offered, k + 1);
  }

  lemma InsertionPanics(own: NodeId, b: nat, offered: seq<Contact>, c: Contact, table: seq<Bucket>)
    requires Inserting(own, b, offered, c, table) && |table| - 1 == ID_BITS
    requires PrefixLength(own, c.id) >= ID_BITS
    requires c.id !in Ids(table[ID_BITS].entries) && |table[ID_BITS].entries| >= b
    ensures b == 0 && c.id == own
  {
    FullBeyondLastBit(own, b, offered, c);
  }

  // ------------------------------------------------------------------ order independence

  function IdCount(own: NodeId, ids: set<NodeId>, lo: nat, hi: nat): nat {
    |IdsBetween(own, ids, lo, hi)|
  }

  lemma BetweenPopulation(own: NodeId, offered: seq<Contact>, lo: nat, hi: nat)
    ensures |Between(own, FirstOffers(offered), lo, hi)| == IdCount(own, Ids(offered), lo, hi)
    ensures Ids(Between(own, FirstOffers(offered), lo, hi)) == IdsBetween(own, Ids(offered), lo, hi)
  {
    BetweenIds(own, FirstOffers(offered), lo, hi);
    BetweenDistinct(own, FirstOffers(offered), lo, hi);
    DistinctCount(Between(own, FirstOffers(offered), lo, hi));
  }

  lemma BucketPopulation(own: NodeId, b: nat, offered: seq<Contact>, k: nat, p: nat)
    requires |Near(own, offered, k)| <= b && p <= k
    ensures var n := IdCount(own, Ids(offered), p, if p < k then p + 1 else ALL);
            |BucketOf(own, b, offered, k, p).entries| == if n < b then n else b
  {
    BetweenPopulation(own, offered, p, if p < k then p + 1 else ALL);
  }

  /** The shape of the table, in terms of the set of offered ids alone: where the last bucket
      is, how full every bucket is, and which ids the last bucket holds. */
  lemma Shape(own: NodeId, b: nat, offered: seq<Contact>)
    requires Storable(own, b, offered)
    ensures var t, k, ids := Canonical(own, b, offered), Depth(own, b, offered), Ids(offered);
            && |t| == k + 1 <= ID_BITS + 1
            && IdCount(own, ids, k, ALL) <= b
            && (forall j :: 0 <= j < k ==> IdCount(own, ids, j, ALL) > b)
            && (forall p :: 0 <= p < k ==>
                  |t[p].entries| == if IdCount(own, ids, p, p + 1) < b then IdCount(own, ids, p, p + 1) else b)
            && Ids(t[k].entries) == IdsBetween(own, ids, k, ALL)
            && |t[k].entries| == IdCount(own, ids, k, ALL)
  {
    var k := Depth(own, b, offered);
    forall j | 0 <= j < k ensures IdCount(own, Ids(offered), j, ALL) > b {
      assert |Near(own, offered, j)| > b;
      BetweenPopulation(own, offered, j, ALL);
    }
    forall p | 0 <= p < k
      ensures |BucketOf(own, b, offered, k, p).entries|
           == if IdCount(own, Ids(offered), p, p + 1) < b then IdCount(own, Ids(offered), p, p + 1) else b
    {
      BucketPopulation(own, b, offered, k, p);
    }
    BetweenPopulation(own, offered, k, ALL);
  }

  /** Two runs that offer the same ids, in any order and however often, end in tables of the
      same shape with the same ids in the last bucket. */
  lemma OrderIndependence(own: NodeId, b: nat, offered: seq<Contact>, offered': seq<Contact>)
    requires Storable(own, b, offered) && Ids(offered) == Ids(offered')
    ensures var t, t' := Canonical(own, b, offered), Canonical(own, b, offered');
            && |t| == |t'|
            && (forall i :: 0 <= i < |t| ==> |t[i].entries| == |t'[i].entries|)
            && Ids(t[|t| - 1].entries) == Ids(t'[|t| - 1].entries)
  {
    hide Canonical, Depth, IdCount;
    Shape(own, b, offered);
    Shape(own, b, offered');
    var k, k' := Depth(own, b, offered), Depth(own, b, offered');
    if k < k' || k' < k { assert false; }
  }

  /** A table is as deep as k + 1 buckets only if more than b ids can share k bits. */
  lemma SizeBound(own: NodeId, b: nat, offered: seq<Contact>)
    requires Storable(own, b, offered)
    ensures var k := Depth(own, b, offered); k > 0 ==> b < Pow2(ID_BITS + 1 - k)
    ensures b == 8 ==> |Canonical(own, b, offered)| <= 158
  {
    var k := Depth(own, b, offered);
    if k > 0 {
      NearBound(own, offered, k - 1);
      if k >= 158 {
        Pow2Monotone(ID_BITS + 1 - k, 3);
        assert Pow2(3) == 8;
      }
    }
  }

  lemma TakenExactly(own: NodeId, b: nat, offered: seq<Contact>, id: NodeId)
    requires id in Ids(offered)
    ensures var e := Exactly(own, offered, PrefixLength(own, id));
            id !in Ids(Take(e, b)) <==> exists n :: b <= n < |e| && e[n].id == id
  {
    var p := PrefixLength(own, id);
    var e := Exactly(own, offered, p);
    BetweenDistinct(own, FirstOffers(offered), p, p + 1);
    BetweenIds(own, FirstOffers(offered), p, p + 1);
    assert id in Ids(e);
    var n :| 0 <= n < |e| && e[n].id == id;
    if n < b {
      assert Take(e, b)[n] == e[n];
    } else {
      forall c | c in Take(e, b) ensures c.id != id {
        var m :| 0 <= m < b && c == e[m];
      }
    }
  }

  /** An offered id is missing from the table exactly when b other ids with its prefix length,
      below the last bucket, were offered first. */
  lemma DroppedExactly(own: NodeId, b: nat, offered: seq<Contact>, id: NodeId)
    requires Storable(own, b, offered) && id in Ids(offered)
    ensures var p, k := PrefixLength(own, id), Depth(own, b, offered);
            (forall i :: 0 <= i <= k ==> id !in Ids(Canonical(own, b, offered)[i].entries))
              <==> p < k && exists n :: b <= n < |Exactly(own, offered, p)| && Exactly(own, offered, p)[n].id == id
  {
    var k := Depth(own, b, offered);
    var i := BucketIndex(own, id, k);
    BucketOfId(own, b, offered, id, k);
    TakenExactly(own, b, offered, id);
    forall j | 0 <= j <= k && j != i ensures id !in Ids(BucketOf(own, b, offered, k, j).entries) {
      OtherBucket(own, b, offered, id, k, j);
    }
    assert Canonical(own, b, offered)[i] == BucketOf(own, b, offered, k, i);
  }

  lemma OtherBucket(own: NodeId, b: nat, offered: seq<Contact>, id: NodeId, k: nat, j: nat)
    requires j <= k && j != BucketIndex(own, id, k)
    ensures id !in Ids(BucketOf(own, b, offered, k, j).entries)
  {
    BetweenContents(own, FirstOffers(offered), j, if j < k then j + 1 else ALL);
  }

  // ------------------------------------------------------------------ lookups

  /** The contacts of every bucket. */
  function Rows(table: seq<Bucket>): seq<seq<Contact>> {
    seq(|table|, i requires 0 <= i < |table| => table[i].entries)
  }

  /** The table invariant: it holds after every run, so everything known about lookups in sound tables applies. */
  lemma CanonicalIsSound(own: NodeId, b: nat, offered: seq<Contact>)
    requires Storable(own, b, offered)
    ensures Sound(own, b, Rows(Canonical(own, b, offered)))
  {
    var k, rows := Depth(own, b, offered), Rows(Canonical(own, b, offered));
    LayoutValid(own, b, offered, k);
    forall i, c: Contact | 0 <= i <= k && c in rows[i] ensures BucketIndex(own, c.id, k) == i {
      assert rows[i] == BucketOf(own, b, offered, k, i).entries;
      BetweenContents(own, FirstOffers(offered), i, if i < k then i + 1 else ALL);
    }
  }

  /** What lookups can find: an id is stored exactly if it was offered and not dropped. */
  lemma FoundExactly(own: NodeId, b: nat, offered: seq<Contact>, id: NodeId)
    requires Storable(own, b, offered)
    ensures var p, k := PrefixLength(own, id), Depth(own, b, offered);
            id in StoredIds(Rows(Canonical(own, b, offered)))
            <==> (id in Ids(offered)
                  && !(p < k && exists n :: b <= n < |Exactly(own, offered, p)| && Exactly(own, offered, p)[n].id == id))
  {
    var k, t := Depth(own, b, offered), Canonical(own, b, offered);
    var i := BucketIndex(own, id, k);
    CanonicalIsSound(own, b, offered);
    StoredInOwnBucket(own, b, Rows(t), id);
    assert Rows(t)[i] == t[i].entries;
    BucketOfId(own, b, offered, id, k);
    if id in Ids(offered) {
      DroppedExactly(own, b, offered, id);
      forall j | 0 <= j <= k && j != i ensures id !in Ids(t[j].entries) {
        OtherBucket(own, b, offered, id, k, j);
      }
    }
  }
}

/** Two reachable Go tables on which the search falls short: one lookup that misses bucket 0, and
    one that returns a contact although a closer one is stored. */
module GoLookupExamples {
  import opened NodeIds
  import opened Contacts
  import opened Lookup
  import opened GoTableHistory

  lemma {:induction false} FirstOffersOfDistinct(s: seq<Contact>)
    requires DistinctIds(s)
    ensures FirstOffers(s) == s
  {
    if s != [] {
      var t, c := s[..|s| - 1], s[|s| - 1];
      FirstOffersOfDistinct(t);
      assert s == t + [c];
      assert c.id !in Ids(t);
    }
  }

  /** Contacts that are offered by ascending prefix length: those with prefix length p, and those with a longer one. */
  lemma OfferedByPrefix(own: NodeId, before: seq<Contact>, group: seq<Contact>, after: seq<Contact>, p: nat)
    requires DistinctIds(before + group + after)
    requires forall c :: c in before ==> PrefixLength(own, c.id) < p
    requires forall c :: c in group ==> PrefixLength(own, c.id) == p
    requires forall c :: c in after ==> PrefixLength(own, c.id) > p
    ensures Exactly(own, before + group + after, p) == group
    ensures Near(own, before + group + after, p) == group + after
    ensures Near(own, before + group + after, p + 1) == after
  {
    hide PrefixLength, Between, FirstOffers, DistinctIds;
    FirstOffersOfDistinct(before + group + after);
    Selected(own, before, group, after, p, p + 1);
    Selected(own, before, group, after, p, ALL);
    Selected(own, before, group, after, p + 1, ALL);
    BetweenNone(own, before, p, p + 1);
    BetweenNone(own, before, p, ALL);
    BetweenNone(own, before, p + 1, ALL);
    BetweenAll(own, group, p, p + 1);
    BetweenAll(own, group, p, ALL);
    BetweenNone(own, group, p + 1, ALL);
    BetweenNone(own, after, p, p + 1);
    BetweenAll(own, after, p, ALL);
    BetweenAll(own, after, p + 1, ALL);
    assert [] + group + [] == group && [] + group + after == group + after && [] + [] + after == after;
  }

  lemma Selected(own: NodeId, s: seq<Contact>, t: seq<Contact>, u: seq<Contact>, lo: nat, hi: nat)
    ensures Between(own, s + t + u, lo, hi) == Between(own, s, lo, hi) + Between(own, t, lo, hi) + Between(own, u, lo, hi)
  {
    hide Between;
    BetweenConcat(own, s + t, u, lo, hi);
    BetweenConcat(own, s, t, lo, hi);
  }

  // ------------------------------------------------------------------ a missed bucket

  lemma MissedRows(own: NodeId, a: Contact, b: Contact, c: Contact)
    requires DistinctIds([a, b, c])
    requires PrefixLength(own, a.id) == PrefixLength(own, b.id) == 0 && PrefixLength(own, c.id) == 1
    ensures Storable(own, 2, [a, b, c]) && Rows(Canonical(own, 2, [a, b, c])) == [[a, b], [c]]
  {
    hide PrefixLength, Between, FirstOffers, Depth, DistinctIds;
    var offered := [a, b, c];
    assert [] + [a, b] + [c] == offered;
    OfferedByPrefix(own, [], [a, b], [c], 0);
    assert [a, b] + [c] == offered;
    DepthUnique(own, 2, offered, 1);
    TwoRows(own, 2, offered, [a, b], [c]);
  }

  lemma TwoRows(own: NodeId, b: nat, offered: seq<Contact>, first: seq<Contact>, last: seq<Contact>)
    requires Depth(own, b, offered) == 1 && |first| <= b
    requires Exactly(own, offered, 0) == first && Near(own, offered, 1) == last
    ensures Rows(Canonical(own, b, offered)) == [first, last]
  {
    hide Exactly, Near, Depth;
  }

  lemma MissedCount(a: Contact, b: Contact, c: Contact)
    requires DistinctIds([a, b, c])
    ensures |StoredIds([[a, b], [c]])| == 3
  {
    var rows := [[a, b], [c]];
    assert a == [a, b, c][0] && b == [a, b, c][1] && c == [a, b, c][2];
    StoredAt(rows, 0, a);
    StoredAt(rows, 0, b);
    StoredAt(rows, 1, c);
    assert StoredIds(rows) == {a.id, b.id, c.id};
  }

  /** Two contacts in bucket 0, one in the last bucket 1 and a target of that bucket: the lookup
      returns one of three stored contacts although two would fit. */
  lemma MissedBucketExample()
    ensures var own, target, offered := IdOf(0), IdOf(0x60), [ContactOf(0x80), ContactOf(0xC0), ContactOf(0x40)];
            var rows := Rows(Canonical(own, 2, offered));
            Storable(own, 2, offered) && |rows| == 2 && |StoredIds(rows)| == 3 && |Answer(own, 2, rows, target, 1)| == 1
  {
    hide IdOf, PrefixLength, Canonical, StoredIds, Answer, Rows;
    var own, target, offered := IdOf(0), IdOf(0x60), [ContactOf(0x80), ContactOf(0xC0), ContactOf(0x40)];
    PrefixOfFirstBytes(0, 0x80);
    PrefixOfFirstBytes(0, 0xC0);
    PrefixOfFirstBytes(0, 0x40);
    PrefixOfFirstBytes(0, 0x60);
    PrefixOfFirstBytes(0x80, 0xC0);
    PrefixOfFirstBytes(0x80, 0x40);
    PrefixOfFirstBytes(0xC0, 0x40);
    MissedRows(own, offered[0], offered[1], offered[2]);
    MissedCount(offered[0], offered[1], offered[2]);
    CanonicalIsSound(own, 2, offered);
    ShortAnswer(own, Rows(Canonical(own, 2, offered)), target);
  }

  lemma ShortAnswer(own: NodeId, rows: seq<seq<Contact>>, target: NodeId)
    requires Sound(own, 2, rows) && |rows| == 2 && |rows[0]| == 2 && |StoredIds(rows)| == 3 && PrefixLength(own, target) == 1
    ensures |Answer(own, 2, rows, target, 1)| == 1
  {
    hide Sound, Candidates, StoredIds, PrefixLength;
    CandidateCount(own, 2, rows, target, 1);
  }

  // ------------------------------------------------------------------ a farther contact first

  lemma FartherRows(own: NodeId, a: Contact, x: Contact, y: Contact, z: Contact)
    requires DistinctIds([a, x, y, z])
    requires PrefixLength(own, a.id) == 0 && PrefixLength(own, x.id) == 1
    requires PrefixLength(own, y.id) > 1 && PrefixLength(own, z.id) > 1
    ensures Storable(own, 2, [a, x, y, z]) && Rows(Canonical(own, 2, [a, x, y, z])) == [[a], [x], [y, z]]
  {
    hide PrefixLength, Between, FirstOffers, Depth, DistinctIds;
    var offered := [a, x, y, z];
    assert [] + [a] + [x, y, z] == offered;
    OfferedByPrefix(own, [], [a], [x, y, z], 0);
    assert [a] + [x] + [y, z] == offered;
    OfferedByPrefix(own, [a], [x], [y, z], 1);
    assert [a] + [x, y, z] == offered;
    DepthUnique(own, 2, offered, 2);
    ThreeRows(own, 2, offered, [a], [x], [y, z]);
  }

  lemma ThreeRows(own: NodeId, b: nat, offered: seq<Contact>, first: seq<Contact>, second: seq<Contact>, last: seq<Contact>)
    requires Depth(own, b, offered) == 2 && |first| <= b && |second| <= b
    requires Exactly(own, offered, 0) == first && Exactly(own, offered, 1) == second && Near(own, offered, 2) == last
    ensures Rows(Canonical(own, b, offered)) == [first, second, last]
  {
    hide Exactly, Near, Depth;
  }

  /** One contact in each of the buckets 0 and 1, two in the last bucket 2, and a target of bucket 1:
      the lookup returns the contact of bucket 0 although those of bucket 2 are strictly closer. */
  lemma FartherContactExample()
    ensures var own, target := IdOf(0), IdOf(0x60);
            var a, x, y, z := ContactOf(0x80), ContactOf(0x40), ContactOf(0x20), ContactOf(0x10);
            var rows := Rows(Canonical(own, 2, [a, x, y, z]));
            && Storable(own, 2, [a, x, y, z])
            && rows == [[a], [x], [y, z]] && Answer(own, 2, rows, target, 1) == [x, a]
            && XorDistance(target, y.id) < XorDistance(target, a.id) && XorDistance(target, z.id) < XorDistance(target, a.id)
  {
    hide IdOf, PrefixLength, Canonical, Answer, XorDistance, Rows;
    var own, target := IdOf(0), IdOf(0x60);
    var a, x, y, z := ContactOf(0x80), ContactOf(0x40), ContactOf(0x20), ContactOf(0x10);
    PrefixOfFirstBytes(0, 0x80);
    PrefixOfFirstBytes(0, 0x40);
    PrefixOfFirstBytes(0, 0x20);
    PrefixOfFirstBytes(0, 0x10);
    PrefixOfFirstBytes(0, 0x60);
    PrefixOfFirstBytes(0x60, 0x80);
    PrefixOfFirstBytes(0x60, 0x20);
    PrefixOfFirstBytes(0x60, 0x10);
    FourIds();
    FartherRows(own, a, x, y, z);
    LongerPrefixIsCloser(target, y.id, a.id);
    LongerPrefixIsCloser(target, z.id, a.id);
    FartherAnswer(own, a, x, [y, z], target);
  }

  lemma FourIds()
    ensures DistinctIds([ContactOf(0x80), ContactOf(0x40), ContactOf(0x20), ContactOf(0x10)])
  {
    hide IdOf;
    PrefixOfFirstBytes(0x80, 0x40);
    PrefixOfFirstBytes(0x80, 0x20);
    PrefixOfFirstBytes(0x80, 0x10);
    PrefixOfFirstBytes(0x40, 0x20);
    PrefixOfFirstBytes(0x40, 0x10);
    PrefixOfFirstBytes(0x20, 0x10);
  }

  lemma SearchOrder()
    ensures Visits(1, 2, 1) == [1, 0, 2]
  {
    assert VisitsFrom(1, 2, 1, 2) == [];
    assert VisitsFrom(1, 2, 1, 1) == [0, 2] + [];
    assert Visits(1, 2, 1) == [1] + ([0, 2] + []);
  }

  lemma FartherAnswer(own: NodeId, a: Contact, x: Contact, last: seq<Contact>, target: NodeId)
    requires PrefixLength(own, target) == 1
    ensures Answer(own, 2, [[a], [x], last], target, 1) == [x, a]
  {
    hide PrefixLength, Visits, VisitsFrom, Concat;
    var rows := [[a], [x], last];
    SearchOrder();
    InThatOrder(rows);
    assert Candidates(own, rows, target, 1) == rows[1] + rows[0] + rows[2];
    assert rows[1] + rows[0] + rows[2] == [x, a] + last;
  }

  lemma InThatOrder(rows: seq<seq<Contact>>)
    requires |rows| == 3
    ensures Concat(rows, [1, 0, 2]) == rows[1] + rows[0] + rows[2]
  {
    hide Concat, IndicesBelow;
    ConcatNone(rows);
    ConcatOne(rows, [], 1);
    ConcatOne(rows, [] + [1], 0);
    ConcatOne(rows, [] + [1] + [0], 2);
    OneByOne(rows[1]);
  }

  lemma OneByOne(row: seq<Contact>)
    ensures [] + [1] + [0] + [2] == [1, 0, 2] && [] + row == row
  {
  }
}

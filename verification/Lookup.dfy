/** The search both routing tables do: contacts are collected bucket by bucket, around the
    bucket of the target. A table is seen here as the sequence of its buckets' contacts. */
module Lookup {
  import opened NodeIds
  import opened Contacts

  /** The index of the bucket an id belongs to, when k is the last index. */
  function BucketIndex(own: NodeId, id: NodeId, k: nat): (i: nat)
    ensures i <= k
  {
    if PrefixLength(own, id) < k then PrefixLength(own, id) else k
  }

  /** Bucket i before the last holds ids with prefix length exactly i, the last one the rest;
      no bucket exceeds size b or holds an id twice. */
  ghost predicate Sound(own: NodeId, b: nat, rows: seq<seq<Contact>>) {
    && 1 <= |rows| <= ID_BITS + 1
    && (forall i :: 0 <= i < |rows| ==> |rows[i]| <= b && DistinctIds(rows[i]))
    && (forall i, c :: 0 <= i < |rows| && c in rows[i] ==> BucketIndex(own, c.id, |rows| - 1) == i)
  }

  ghost predicate Stored(rows: seq<seq<Contact>>, c: Contact) {
    exists i :: 0 <= i < |rows| && c in rows[i]
  }

  function StoredIds(rows: seq<seq<Contact>>): set<NodeId> {
    set i, c | 0 <= i < |rows| && c in rows[i] :: c.id
  }

  lemma StoredAt(rows: seq<seq<Contact>>, i: nat, c: Contact)
    requires i < |rows| && c in rows[i]
    ensures Stored(rows, c) && c.id in StoredIds(rows)
  {
  }

  /** A stored id can only be in the bucket of its prefix length. */
  lemma StoredInOwnBucket(own: NodeId, b: nat, rows: seq<seq<Contact>>, id: NodeId)
    requires Sound(own, b, rows)
    ensures 1 <= |rows| <= ID_BITS + 1
    ensures id in StoredIds(rows) <==> id in Ids(rows[BucketIndex(own, id, |rows| - 1)])
  {
  }

  // ------------------------------------------------------------------ the visiting order

  /** One round of the search loop: the bucket `offset` below, then the bucket `offset` above. */
  function Round(start: nat, max: nat, offset: nat): seq<nat> {
    (if start >= offset then [start - offset] else [])
    + (if offset > 0 && start + offset <= max then [start + offset] else [])
  }

  /** The loop goes on while its guard finds a bucket on either side. The lowest bucket the
      guard asks for is 0 in the Rust program but 1 in the Go program. */
  predicate Continues(start: nat, max: nat, low: nat, offset: nat) {
    start >= offset + low || start + offset <= max
  }

  function VisitsFrom(start: nat, max: nat, low: nat, offset: nat): (order: seq<nat>)
    requires start <= max
    ensures IndicesBelow(order, max + 1)
    decreases max + 1 - offset
  {
    if Continues(start, max, low, offset) then Round(start, max, offset) + VisitsFrom(start, max, low, offset + 1) else []
  }

  function Visits(start: nat, max: nat, low: nat): (order: seq<nat>)
    requires start <= max
    ensures IndicesBelow(order, max + 1)
  {
    VisitsFrom(start, max, low, 0)
  }

  ghost predicate IndicesBelow(order: seq<nat>, n: nat) {
    forall m :: 0 <= m < |order| ==> order[m] < n
  }

  /** How early bucket i comes: by distance from the start, lower side first. */
  function VisitKey(start: nat, i: nat): nat {
    if i <= start then 2 * (start - i) else 2 * (i - start) + 1
  }

  ghost predicate Ascending(start: nat, order: seq<nat>) {
    forall m, n :: 0 <= m < n < |order| ==> VisitKey(start, order[m]) < VisitKey(start, order[n])
  }

  /** Whether bucket i is visited at all: only bucket 0 can be missed, and only by a guard that does not ask for it. */
  predicate Reached(start: nat, max: nat, low: nat, i: nat) {
    i <= max && (i >= low || 2 * start <= max)
  }

  lemma RoundContents(start: nat, max: nat, low: nat, offset: nat, i: nat)
    requires start <= max && low <= 1 && Continues(start, max, low, offset)
    ensures i in Round(start, max, offset) <==> Reached(start, max, low, i) && 2 * offset <= VisitKey(start, i) < 2 * offset + 2
  {
  }

  lemma NothingLeft(start: nat, max: nat, low: nat, offset: nat, i: nat)
    requires start <= max && low <= 1 && !Continues(start, max, low, offset)
    ensures !(Reached(start, max, low, i) && VisitKey(start, i) >= 2 * offset)
  {
  }

  lemma {:induction false} VisitsFromContents(start: nat, max: nat, low: nat, offset: nat)
    requires start <= max && low <= 1
    ensures forall i: nat :: i in VisitsFrom(start, max, low, offset)
              <==> Reached(start, max, low, i) && VisitKey(start, i) >= 2 * offset
    decreases max + 1 - offset
  {
    hide Reached, VisitKey, Round;
    if Continues(start, max, low, offset) {
      VisitsFromContents(start, max, low, offset + 1);
      forall i: nat
        ensures i in VisitsFrom(start, max, low, offset) <==> Reached(start, max, low, i) && VisitKey(start, i) >= 2 * offset
      {
        RoundContents(start, max, low, offset, i);
        InConcatenation(Round(start, max, offset), VisitsFrom(start, max, low, offset + 1), i);
      }
    } else {
      forall i: nat ensures !(Reached(start, max, low, i) && VisitKey(start, i) >= 2 * offset) {
        NothingLeft(start, max, low, offset, i);
      }
    }
  }

  lemma InConcatenation(s: seq<nat>, t: seq<nat>, i: nat)
    ensures i in s + t <==> i in s || i in t
  {
  }

  lemma AscendingConcat(start: nat, front: seq<nat>, back: seq<nat>, key: nat)
    requires Ascending(start, front) && Ascending(start, back)
    requires forall i :: i in front ==> VisitKey(start, i) < key
    requires forall i :: i in back ==> VisitKey(start, i) >= key
    ensures Ascending(start, front + back)
  {
    var s := front + back;
    forall m, n | 0 <= m < n < |s| ensures VisitKey(start, s[m]) < VisitKey(start, s[n]) {
      if m < |front| <= n {
        assert s[m] in front && s[n] in back;
      }
    }
  }

  lemma {:induction false} VisitsFromAscending(start: nat, max: nat, low: nat, offset: nat)
    requires start <= max && low <= 1
    ensures Ascending(start, VisitsFrom(start, max, low, offset))
    decreases max + 1 - offset
  {
    if Continues(start, max, low, offset) {
      VisitsFromAscending(start, max, low, offset + 1);
      VisitsFromContents(start, max, low, offset + 1);
      AscendingConcat(start, Round(start, max, offset), VisitsFrom(start, max, low, offset + 1), 2 * offset + 2);
    }
  }

  /** A lookup visits every bucket once, by distance from the start bucket and the lower one
      first; the Go guard misses bucket 0 when that is further from the start than the last one. */
  lemma VisitOrder(start: nat, max: nat, low: nat)
    requires start <= max && low <= 1
    ensures forall i: nat :: i in Visits(start, max, low) <==> Reached(start, max, low, i)
    ensures Ascending(start, Visits(start, max, low))
    ensures |Visits(start, max, low)| > 0 && Visits(start, max, low)[0] == start
  {
    VisitsFromContents(start, max, low, 0);
    VisitsFromAscending(start, max, low, 0);
  }

  // ------------------------------------------------------------------ the collected contacts

  function Concat(rows: seq<seq<Contact>>, order: seq<nat>): seq<Contact>
    requires IndicesBelow(order, |rows|)
  {
    if order == [] then [] else Concat(rows, order[..|order| - 1]) + rows[order[|order| - 1]]
  }

  lemma ConcatOne(rows: seq<seq<Contact>>, order: seq<nat>, i: nat)
    requires IndicesBelow(order, |rows|) && i < |rows|
    ensures IndicesBelow(order + [i], |rows|)
    ensures Concat(rows, order + [i]) == Concat(rows, order) + rows[i]
  {
    assert (order + [i])[..|order|] == order;
  }

  lemma ConcatNone(rows: seq<seq<Contact>>)
    ensures IndicesBelow([], |rows|) && Concat(rows, []) == []
  {
  }

  lemma Associative<T>(a: seq<T>, b: seq<T>, c: seq<T>)
    ensures a + (b + c) == a + b + c
  {
  }

  lemma {:induction false} ConcatAppend(rows: seq<seq<Contact>>, order: seq<nat>, more: seq<nat>)
    requires IndicesBelow(order, |rows|) && IndicesBelow(more, |rows|)
    ensures IndicesBelow(order + more, |rows|)
    ensures Concat(rows, order + more) == Concat(rows, order) + Concat(rows, more)
  {
    hide Concat;
    if more == [] {
      ConcatNone(rows);
      assert order + more == order;
    } else {
      var less, i := more[..|more| - 1], more[|more| - 1];
      ConcatAppend(rows, order, less);
      ConcatOne(rows, order + less, i);
      ConcatOne(rows, less, i);
      Associative(order, less, [i]);
      Associative(Concat(rows, order), Concat(rows, less), rows[i]);
      assert more == less + [i];
    }
  }

  /** A lookup's candidates in visiting order; the answer is the first `b` of them. */
  function Candidates(own: NodeId, rows: seq<seq<Contact>>, target: NodeId, low: nat): seq<Contact>
    requires |rows| > 0
  {
    Concat(rows, Visits(BucketIndex(own, target, |rows| - 1), |rows| - 1, low))
  }

  function Answer(own: NodeId, b: nat, rows: seq<seq<Contact>>, target: NodeId, low: nat): seq<Contact>
    requires |rows| > 0
  {
    Take(Candidates(own, rows, target, low), b)
  }

  // Steps of the search loop.

  /** Appending as much of bucket i as fits to the first b contacts collected so far. */
  lemma CollectBucket(rows: seq<seq<Contact>>, visited: seq<nat>, i: nat, b: nat, result: seq<Contact>)
    requires IndicesBelow(visited, |rows|) && i < |rows|
    requires result == Take(Concat(rows, visited), b)
    ensures IndicesBelow(visited + [i], |rows|) && |result| <= b
    ensures result + Take(rows[i], b - |result|) == Take(Concat(rows, visited + [i]), b)
  {
    assert (visited + [i])[..|visited|] == visited;
    TakeConcat(Concat(rows, visited), rows[i], b);
  }

  /** Once b contacts are collected, a bucket adds nothing. */
  lemma FullAlready(rows: seq<seq<Contact>>, visited: seq<nat>, i: nat, b: nat)
    requires IndicesBelow(visited, |rows|) && i < |rows| && |Take(Concat(rows, visited), b)| >= b
    ensures IndicesBelow(visited + [i], |rows|)
    ensures Take(Concat(rows, visited + [i]), b) == Take(Concat(rows, visited), b)
  {
    CollectBucket(rows, visited, i, b, Take(Concat(rows, visited), b));
  }

  /** Adding all of bucket i and cutting back to b. */
  lemma CollectAndCut(rows: seq<seq<Contact>>, visited: seq<nat>, i: nat, b: nat)
    requires IndicesBelow(visited, |rows|) && i < |rows|
    ensures IndicesBelow(visited + [i], |rows|)
    ensures Take(Take(Concat(rows, visited), b) + rows[i], b) == Take(Concat(rows, visited + [i]), b)
  {
    CollectBucket(rows, visited, i, b, Take(Concat(rows, visited), b));
    assert (visited + [i])[..|visited|] == visited;
  }

  /** The start bucket alone is the first round. */
  lemma FirstRound(rows: seq<seq<Contact>>, start: nat, max: nat, low: nat, b: nat)
    requires start <= max < |rows| && |rows[start]| <= b
    ensures IndicesBelow([start], |rows|) && Take(Concat(rows, [start]), b) == rows[start]
    ensures [start] + VisitsFrom(start, max, low, 1) == Visits(start, max, low)
  {
    assert Concat(rows, [start]) == Concat(rows, []) + rows[start];
    assert Round(start, max, 0) == [start];
  }

  lemma NothingVisited(rows: seq<seq<Contact>>, start: nat, max: nat, low: nat)
    requires start <= max
    ensures IndicesBelow([], |rows|) && Concat(rows, []) == [] && [] + VisitsFrom(start, max, low, 0) == Visits(start, max, low)
  {
  }

  lemma RoundStep(start: nat, max: nat, low: nat, offset: nat, visited: seq<nat>)
    requires start <= max && Continues(start, max, low, offset)
    requires visited + VisitsFrom(start, max, low, offset) == Visits(start, max, low)
    ensures visited + Round(start, max, offset) + VisitsFrom(start, max, low, offset + 1) == Visits(start, max, low)
  {
  }

  lemma AllVisited(start: nat, max: nat, low: nat, offset: nat, visited: seq<nat>)
    requires start <= max && !Continues(start, max, low, offset)
    requires visited + VisitsFrom(start, max, low, offset) == Visits(start, max, low)
    ensures visited == Visits(start, max, low)
  {
  }

  lemma SearchFull(rows: seq<seq<Contact>>, visited: seq<nat>, rest: seq<nat>, b: nat)
    requires IndicesBelow(visited, |rows|) && IndicesBelow(rest, |rows|) && |Take(Concat(rows, visited), b)| >= b
    ensures IndicesBelow(visited + rest, |rows|)
    ensures Take(Concat(rows, visited + rest), b) == Take(Concat(rows, visited), b)
  {
    ConcatAppend(rows, visited, rest);
  }

  // ------------------------------------------------------------------ contents and order of the candidates

  function ContactKey(own: NodeId, rows: seq<seq<Contact>>, start: nat, c: Contact): nat
    requires |rows| > 0
  {
    VisitKey(start, BucketIndex(own, c.id, |rows| - 1))
  }

  /** The collected contacts are exactly those of the visited buckets. */
  lemma {:induction false} ConcatContents(own: NodeId, b: nat, rows: seq<seq<Contact>>, order: seq<nat>)
    requires Sound(own, b, rows) && IndicesBelow(order, |rows|)
    ensures forall c :: c in Concat(rows, order) <==> Stored(rows, c) && BucketIndex(own, c.id, |rows| - 1) in order
  {
    if order != [] {
      var less, i := order[..|order| - 1], order[|order| - 1];
      ConcatContents(own, b, rows, less);
      assert order == less + [i];
      assert forall c :: c in Concat(rows, order) <==> c in Concat(rows, less) || c in rows[i];
    }
  }

  /** Contacts of distinct buckets, one bucket after the other, are distinct and in visiting order. */
  lemma {:induction false} ConcatOrder(own: NodeId, b: nat, rows: seq<seq<Contact>>, order: seq<nat>, start: nat)
    requires Sound(own, b, rows) && IndicesBelow(order, |rows|) && Ascending(start, order)
    ensures DistinctIds(Concat(rows, order))
    ensures forall m, n :: 0 <= m < n < |Concat(rows, order)| ==>
              ContactKey(own, rows, start, Concat(rows, order)[m]) <= ContactKey(own, rows, start, Concat(rows, order)[n])
  {
    if order != [] {
      var less, i := order[..|order| - 1], order[|order| - 1];
      ConcatOrder(own, b, rows, less, start);
      ConcatContents(own, b, rows, less);
      var s, e := Concat(rows, less), rows[i];
      forall m | 0 <= m < |s| ensures ContactKey(own, rows, start, s[m]) < VisitKey(start, i) {
        assert s[m] in s;
        var n :| 0 <= n < |less| && less[n] == BucketIndex(own, s[m].id, |rows| - 1);
        assert order[n] == less[n];
      }
      forall m | 0 <= m < |e| ensures ContactKey(own, rows, start, e[m]) == VisitKey(start, i) {
        assert e[m] in e;
      }
    }
  }

  lemma CandidateFacts(own: NodeId, b: nat, rows: seq<seq<Contact>>, target: NodeId, low: nat)
    requires Sound(own, b, rows) && low <= 1
    ensures var max, all := |rows| - 1, Candidates(own, rows, target, low);
            var start := BucketIndex(own, target, max);
            && DistinctIds(all)
            && rows[start] <= all
            && (forall c :: c in all <==> Stored(rows, c) && Reached(start, max, low, BucketIndex(own, c.id, max)))
            && (forall m, n :: 0 <= m < n < |all| ==> ContactKey(own, rows, start, all[m]) <= ContactKey(own, rows, start, all[n]))
  {
    var max := |rows| - 1;
    var start := BucketIndex(own, target, max);
    var z := Visits(start, max, low);
    VisitOrder(start, max, low);
    ConcatOrder(own, b, rows, z, start);
    ConcatContents(own, b, rows, z);
    ConcatAppend(rows, [start], z[1..]);
    assert z == [start] + z[1..];
    assert Concat(rows, [start]) == Concat(rows, []) + rows[start];
  }

  // ------------------------------------------------------------------ what the answer is worth

  /** Every contact of the target's own bucket is strictly closer to the target than every other stored contact. */
  lemma OwnBucketIsNearest(own: NodeId, b: nat, rows: seq<seq<Contact>>, target: NodeId, c: Contact, d: Contact)
    requires Sound(own, b, rows) && Stored(rows, c) && Stored(rows, d)
    requires BucketIndex(own, c.id, |rows| - 1) == BucketIndex(own, target, |rows| - 1) != BucketIndex(own, d.id, |rows| - 1)
    ensures XorDistance(target, c.id) < XorDistance(target, d.id)
  {
    PrefixSymmetric(own, target);
    PrefixUltrametric(target, own, c.id);
    PrefixUltrametric(target, own, d.id);
    LongerPrefixIsCloser(target, c.id, d.id);
  }

  /** What every answer satisfies: it is made of distinct stored contacts, starts with the whole
      bucket of the target, and never returns a contact of a later visited bucket in place of an
      earlier one. */
  lemma AnswerOrder(own: NodeId, b: nat, rows: seq<seq<Contact>>, target: NodeId, low: nat)
    requires Sound(own, b, rows) && low <= 1
    ensures var max, answer := |rows| - 1, Answer(own, b, rows, target, low);
            var start := BucketIndex(own, target, max);
            && DistinctIds(answer)
            && rows[start] <= answer
            && (forall c :: c in answer ==> Stored(rows, c))
            && (forall c, d :: c in answer && Stored(rows, d) && d !in answer && Reached(start, max, low, BucketIndex(own, d.id, max))
                  ==> ContactKey(own, rows, start, c) <= ContactKey(own, rows, start, d))
  {
    var max, all, answer := |rows| - 1, Candidates(own, rows, target, low), Answer(own, b, rows, target, low);
    var start := BucketIndex(own, target, max);
    CandidateFacts(own, b, rows, target, low);
    assert answer <= all;
    forall c, d | c in answer && d in all && d !in answer
      ensures ContactKey(own, rows, start, c) <= ContactKey(own, rows, start, d)
    {
      var m, n := OmittedIsLater(all, b, c, d);
    }
  }

  /** A full own bucket is the whole answer, and then the answer is the b closest stored contacts. */
  lemma FullBucketIsClosest(own: NodeId, b: nat, rows: seq<seq<Contact>>, target: NodeId, low: nat)
    requires Sound(own, b, rows) && low <= 1
    requires |rows[BucketIndex(own, target, |rows| - 1)]| == b
    ensures var answer := Answer(own, b, rows, target, low);
            && answer == rows[BucketIndex(own, target, |rows| - 1)]
            && forall c, d :: c in answer && Stored(rows, d) && d !in answer ==> XorDistance(target, c.id) < XorDistance(target, d.id)
  {
    var answer := Answer(own, b, rows, target, low);
    AnswerOrder(own, b, rows, target, low);
    forall c, d | c in answer && Stored(rows, d) && d !in answer ensures XorDistance(target, c.id) < XorDistance(target, d.id) {
      OwnBucketIsNearest(own, b, rows, target, c, d);
    }
  }

  /** When the target falls into the last bucket, no omitted contact shares more bits with it than a returned one. */
  lemma LastBucketAnswer(own: NodeId, b: nat, rows: seq<seq<Contact>>, target: NodeId, low: nat, c: Contact, d: Contact)
    requires Sound(own, b, rows) && low <= 1
    requires PrefixLength(own, target) >= |rows| - 1
    requires c in Answer(own, b, rows, target, low) && Stored(rows, d) && d !in Answer(own, b, rows, target, low)
    ensures PrefixLength(target, c.id) >= PrefixLength(target, d.id)
  {
    var max := |rows| - 1;
    AnswerOrder(own, b, rows, target, low);
    var i, j := BucketIndex(own, c.id, max), BucketIndex(own, d.id, max);
    assert j < max;
    assert i >= j;
    PrefixSymmetric(own, target);
    PrefixUltrametric(target, own, c.id);
    PrefixUltrametric(target, own, d.id);
  }

  // ------------------------------------------------------------------ completeness of the answer

  /** The contacts of bucket 0 where the search does not reach it. */
  function Missed(own: NodeId, rows: seq<seq<Contact>>, target: NodeId, low: nat): seq<Contact>
    requires |rows| > 0
  {
    if Reached(BucketIndex(own, target, |rows| - 1), |rows| - 1, low, 0) then [] else rows[0]
  }

  lemma MissedFacts(own: NodeId, b: nat, rows: seq<seq<Contact>>, target: NodeId, low: nat)
    requires Sound(own, b, rows) && low <= 1
    ensures 1 <= |rows|
    ensures var all, missed := Candidates(own, rows, target, low), Missed(own, rows, target, low);
            && DistinctIds(all) && DistinctIds(missed)
            && (forall c :: Stored(rows, c) <==> c in all || c in missed)
            && (forall c, d :: c in all && d in missed ==> c.id != d.id)
  {
    hide Candidates, PrefixLength;
    CandidateFacts(own, b, rows, target, low);
  }

  /** The number of candidates: everything stored, without bucket 0 where that is not reached. */
  lemma CandidateCount(own: NodeId, b: nat, rows: seq<seq<Contact>>, target: NodeId, low: nat)
    requires Sound(own, b, rows) && low <= 1
    ensures |Candidates(own, rows, target, low)|
         == |StoredIds(rows)| - if Reached(BucketIndex(own, target, |rows| - 1), |rows| - 1, low, 0) then 0 else |rows[0]|
  {
    hide Candidates, BucketIndex, Reached, DistinctIds, Sound;
    MissedFacts(own, b, rows, target, low);
    var all, missed := Candidates(own, rows, target, low), Missed(own, rows, target, low);
    DistinctCount(all);
    DistinctCount(missed);
    forall x ensures x in StoredIds(rows) <==> x in Ids(all) + Ids(missed) {
      if x in StoredIds(rows) {
        var i, c :| 0 <= i < |rows| && c in rows[i] && c.id == x;
        assert Stored(rows, c);
      }
      if x in Ids(all) + Ids(missed) {
        var c :| (c in all || c in missed) && c.id == x;
        assert Stored(rows, c);
      }
    }
    assert Ids(all) !! Ids(missed);
    assert StoredIds(rows) == Ids(all) + Ids(missed);
  }

  /** The answer has min(b, stored) contacts if and only if the search reaches bucket 0, or
      bucket 0 is empty, or the other buckets hold b contacts. */
  lemma AnswerIsComplete(own: NodeId, b: nat, rows: seq<seq<Contact>>, target: NodeId, low: nat)
    requires Sound(own, b, rows) && low <= 1
    ensures var start, max, stored := BucketIndex(own, target, |rows| - 1), |rows| - 1, |StoredIds(rows)|;
            (|Answer(own, b, rows, target, low)| == if stored < b then stored else b)
            <==> Reached(start, max, low, 0) || rows[0] == [] || stored - |rows[0]| >= b
  {
    CandidateCount(own, b, rows, target, low);
  }

  // ------------------------------------------------------------------ the two guards compared

  /** The guard that asks for bucket 0 visits it last where the other one misses it; otherwise they agree. */
  lemma {:induction false} GuardsCompared(start: nat, max: nat, offset: nat)
    requires start <= max
    ensures VisitsFrom(start, max, 0, offset)
         == VisitsFrom(start, max, 1, offset) + if offset <= start && !Reached(start, max, 1, 0) then [0] else []
    decreases max + 1 - offset
  {
    if Continues(start, max, 1, offset) {
      GuardsCompared(start, max, offset + 1);
    } else if Continues(start, max, 0, offset) {
      assert Round(start, max, offset) == [0];
      assert VisitsFrom(start, max, 0, offset + 1) == [];
    }
  }

  lemma MoreTaken(s: seq<Contact>, t: seq<Contact>, n: nat)
    ensures Take(s, n) == Take(s + t, n) <==> |s| >= n || t == []
  {
    if |s| < n && t != [] { assert |Take(s + t, n)| > |s|; }
  }

  /** The candidates of the two guards differ by bucket 0, at the end. */
  lemma CandidatesCompared(own: NodeId, rows: seq<seq<Contact>>, target: NodeId)
    requires |rows| > 0
    ensures Candidates(own, rows, target, 0) == Candidates(own, rows, target, 1) + Missed(own, rows, target, 1)
  {
    hide Concat, VisitsFrom, Reached, BucketIndex;
    var start, max := BucketIndex(own, target, |rows| - 1), |rows| - 1;
    GuardsCompared(start, max, 0);
    if Reached(start, max, 1, 0) {
      assert Visits(start, max, 1) + [] == Visits(start, max, 1);
    } else {
      ConcatOne(rows, Visits(start, max, 1), 0);
    }
  }

  /** On the same table the search of the Go program gives the answer of the Rust program if and only
      if it is complete: bucket 0 is reached, or empty, or not needed. */
  lemma AnswersAgree(own: NodeId, b: nat, rows: seq<seq<Contact>>, target: NodeId)
    requires Sound(own, b, rows)
    ensures var start, max := BucketIndex(own, target, |rows| - 1), |rows| - 1;
            Answer(own, b, rows, target, 1) == Answer(own, b, rows, target, 0)
            <==> Reached(start, max, 1, 0) || rows[0] == [] || |StoredIds(rows)| - |rows[0]| >= b
  {
    hide Candidates, Take, StoredIds, Reached, BucketIndex;
    CandidateCount(own, b, rows, target, 1);
    CandidatesCompared(own, rows, target);
    MoreTaken(Candidates(own, rows, target, 1), Missed(own, rows, target, 1), b);
  }
}

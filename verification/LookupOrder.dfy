/** When the order of visits is as good as the order of common prefixes: exactly when no bucket
    below the target's is taken while contacts above it are left out. */
module LookupOrder {
  import opened NodeIds
  import opened Contacts
  import opened Lookup

  // ------------------------------------------------------------------ whole rounds

  /** The buckets visited in the first `count` rounds. */
  function Rounds(start: nat, max: nat, count: nat): (order: seq<nat>)
    requires start <= max
    ensures IndicesBelow(order, max + 1)
  {
    if count == 0 then [] else Rounds(start, max, count - 1) + Round(start, max, count - 1)
  }

  /** The search does at least `count` rounds. */
  predicate Lasts(start: nat, max: nat, low: nat, count: nat) {
    count == 0 || Continues(start, max, low, count - 1)
  }

  lemma {:induction false} RoundsFirst(start: nat, max: nat, low: nat, count: nat)
    requires start <= max && Lasts(start, max, low, count)
    ensures Visits(start, max, low) == Rounds(start, max, count) + VisitsFrom(start, max, low, count)
  {
    if count > 0 {
      RoundsFirst(start, max, low, count - 1);
      RoundStep(start, max, low, count - 1, Rounds(start, max, count - 1));
    }
  }

  function Total(rows: seq<seq<Contact>>): nat {
    if rows == [] then 0 else Total(rows[..|rows| - 1]) + |rows[|rows| - 1]|
  }

  lemma {:induction false} TotalConcat(s: seq<seq<Contact>>, t: seq<seq<Contact>>)
    ensures Total(s + t) == Total(s) + Total(t)
  {
    if t == [] {
      assert s + t == s;
    } else {
      var all, less := s + t, t[..|t| - 1];
      TotalConcat(s, less);
      assert all[..|all| - 1] == s + less && all[|all| - 1] == t[|t| - 1];
    }
  }

  /** The number of contacts in the buckets from lo to hi - 1, as far as there are any. */
  function Population(rows: seq<seq<Contact>>, lo: int, hi: int): nat {
    var l, h := if lo < 0 then 0 else lo, if hi > |rows| then |rows| else hi;
    if l < h then Total(rows[l..h]) else 0
  }

  /** One more bucket at the upper end, where there is one. */
  lemma PopulationGrowsUp(rows: seq<seq<Contact>>, lo: int, hi: int)
    requires lo <= hi && lo <= |rows| && hi >= 0
    ensures Population(rows, lo, hi + 1) == Population(rows, lo, hi) + if hi < |rows| then |rows[hi]| else 0
  {
    hide Total;
    var l := if lo < 0 then 0 else lo;
    if hi < |rows| {
      TotalConcat(rows[l..hi], [rows[hi]]);
      assert rows[l..hi + 1] == rows[l..hi] + [rows[hi]];
      TotalOfOne(rows[hi]);
      assert l == hi ==> rows[l..hi] == [];
    }
  }

  /** One more bucket at the lower end, where there is one. */
  lemma PopulationGrowsDown(rows: seq<seq<Contact>>, lo: int, hi: int)
    requires lo <= hi && lo <= |rows|
    ensures Population(rows, lo - 1, hi) == Population(rows, lo, hi) + if lo > 0 then |rows[lo - 1]| else 0
  {
    hide Total;
    var h := if hi > |rows| then |rows| else hi;
    if lo > 0 {
      TotalConcat([rows[lo - 1]], rows[lo..h]);
      assert rows[lo - 1..h] == [rows[lo - 1]] + rows[lo..h];
      TotalOfOne(rows[lo - 1]);
      assert lo == h ==> rows[lo..h] == [];
    }
  }

  lemma TotalOfOne(row: seq<Contact>)
    ensures Total([row]) == |row| && Total([]) == 0
  {
    assert [row][..0] == [];
  }

  /** A round adds the two buckets at its distance from the start. */
  lemma RoundAdds(rows: seq<seq<Contact>>, order: seq<nat>, start: nat, offset: nat)
    requires IndicesBelow(order, |rows|) && start < |rows|
    ensures IndicesBelow(order + Round(start, |rows| - 1, offset), |rows|)
    ensures |Concat(rows, order + Round(start, |rows| - 1, offset))|
         == |Concat(rows, order)|
          + (if start >= offset then |rows[start - offset]| else 0)
          + (if offset > 0 && start + offset < |rows| then |rows[start + offset]| else 0)
  {
    hide Concat, IndicesBelow;
    var lower := if start >= offset then [start - offset] else [];
    var upper := if offset > 0 && start + offset < |rows| then [start + offset] else [];
    assert Round(start, |rows| - 1, offset) == lower + upper;
    Associative(order, lower, upper);
    assert order + [] == order && (order + lower) + [] == order + lower;
    if start >= offset { ConcatOne(rows, order, start - offset); }
    if offset > 0 && start + offset < |rows| { ConcatOne(rows, order + lower, start + offset); }
  }

  /** The first rounds collect the contacts of all buckets less than `count` away from the start. */
  lemma {:induction false} RoundsSize(rows: seq<seq<Contact>>, start: nat, count: nat)
    requires start < |rows|
    ensures |Concat(rows, Rounds(start, |rows| - 1, count))| == Population(rows, start - count + 1, start + count)
  {
    hide Population, Concat, Round;
    if count == 0 {
      NoRounds(rows, start);
    } else {
      var o := count - 1;
      RoundsSize(rows, start, o);
      RoundAdds(rows, Rounds(start, |rows| - 1, o), start, o);
      if o == 0 {
        PopulationGrowsUp(rows, start, start);
        NoRounds(rows, start);
      } else {
        PopulationGrowsUp(rows, start - o + 1, start + o);
        PopulationGrowsDown(rows, start - o + 1, start + o + 1);
      }
    }
  }

  lemma NoRounds(rows: seq<seq<Contact>>, start: nat)
    requires start < |rows|
    ensures |Concat(rows, [])| == 0 == Population(rows, start + 1, start) == Population(rows, start, start)
  {
  }

  lemma {:induction false} RoundsContents(start: nat, max: nat, count: nat)
    requires start <= max
    ensures forall i: nat :: i in Rounds(start, max, count) <==> i <= max && start - count < i < start + count
  {
    if count > 0 {
      RoundsContents(start, max, count - 1);
      forall i: nat ensures i in Rounds(start, max, count) <==> i <= max && start - count < i < start + count {
        assert i in Rounds(start, max, count) <==> i in Rounds(start, max, count - 1) || i in Round(start, max, count - 1);
      }
    }
  }

  // ------------------------------------------------------------------ returned from below, omitted from above

  /** Some contact of bucket i is in the answer. */
  ghost predicate Returned(own: NodeId, b: nat, rows: seq<seq<Contact>>, target: NodeId, low: nat, i: nat)
    requires i < |rows|
  {
    exists c :: c in rows[i] && c in Answer(own, b, rows, target, low)
  }

  /** Some contact of bucket i is not in the answer. */
  ghost predicate Omitted(own: NodeId, b: nat, rows: seq<seq<Contact>>, target: NodeId, low: nat, i: nat)
    requires i < |rows|
  {
    exists c :: c in rows[i] && c !in Answer(own, b, rows, target, low)
  }

  lemma CandidatesAfterRounds(own: NodeId, rows: seq<seq<Contact>>, target: NodeId, low: nat, start: nat, count: nat)
    requires start < |rows| && start == BucketIndex(own, target, |rows| - 1)
    requires Lasts(start, |rows| - 1, low, count)
    ensures |Concat(rows, Rounds(start, |rows| - 1, count))| == Population(rows, start - count + 1, start + count)
    ensures Candidates(own, rows, target, low)
         == Concat(rows, Rounds(start, |rows| - 1, count)) + Concat(rows, VisitsFrom(start, |rows| - 1, low, count))
  {
    hide BucketIndex, Concat, Population, Visits, VisitsFrom, Rounds;
    RoundsFirst(start, |rows| - 1, low, count);
    RoundsSize(rows, start, count);
    ConcatAppend(rows, Rounds(start, |rows| - 1, count), VisitsFrom(start, |rows| - 1, low, count));
  }

  /** The first n of distinct contacts are those at the first n positions. */
  lemma TakenAt(s: seq<Contact>, n: nat, m: nat)
    requires DistinctIds(s) && m < |s|
    ensures s[m] in Take(s, n) <==> m < n
  {
    if m < n {
      assert Take(s, n)[m] == s[m];
    } else {
      assert forall k :: 0 <= k < |Take(s, n)| ==> Take(s, n)[k] == s[k] != s[m];
    }
  }

  /** Taking at most as many as the front has takes from the front only; taking at least as many takes all of it. */
  lemma TakeFront(front: seq<Contact>, back: seq<Contact>, n: nat)
    ensures n <= |front| ==> forall c :: c in Take(front + back, n) ==> c in front
    ensures n >= |front| ==> forall c :: c in front ==> c in Take(front + back, n)
  {
    var taken := Take(front + back, n);
    if n <= |front| {
      assert taken == front[..n];
    }
    if n >= |front| {
      assert front <= taken;
    }
  }

  /** The lower bucket of a round comes right behind the rounds before. */
  lemma LowerBucketNext(own: NodeId, rows: seq<seq<Contact>>, target: NodeId, low: nat, start: nat, i: nat)
    requires i < start < |rows| && start == BucketIndex(own, target, |rows| - 1) && rows[i] != []
    requires Lasts(start, |rows| - 1, low, start - i) && Continues(start, |rows| - 1, low, start - i)
    ensures var front, all := Concat(rows, Rounds(start, |rows| - 1, start - i)), Candidates(own, rows, target, low);
            |front| < |all| && all[|front|] == rows[i][0]
  {
    hide BucketIndex, Concat, Population, Visits, Rounds, Candidates;
    var o := start - i;
    var rest := VisitsFrom(start, |rows| - 1, low, o);
    CandidatesAfterRounds(own, rows, target, low, start, o);
    assert rest == [i] + rest[1..];
    BeginsWith(rows, i, rest[1..]);
  }

  lemma BeginsWith(rows: seq<seq<Contact>>, i: nat, rest: seq<nat>)
    requires i < |rows| && IndicesBelow(rest, |rows|)
    ensures IndicesBelow([i] + rest, |rows|) && rows[i] <= Concat(rows, [i] + rest)
  {
    ConcatAppend(rows, [i], rest);
    ConcatOne(rows, [], i);
    assert [] + [i] == [i];
  }

  ghost predicate BlockAt(s: seq<Contact>, base: nat, row: seq<Contact>) {
    base + |row| <= |s| && s[base..base + |row|] == row
  }

  lemma BlockOfOrder(rows: seq<seq<Contact>>, order: seq<nat>, k: nat)
    requires IndicesBelow(order, |rows|) && k < |order|
    ensures IndicesBelow(order[..k], |rows|)
    ensures BlockAt(Concat(rows, order), |Concat(rows, order[..k])|, rows[order[k]])
  {
    hide Concat;
    var before, after := order[..k], order[k + 1..];
    assert order == before + ([order[k]] + after);
    BeginsWith(rows, order[k], after);
    ConcatAppend(rows, before, [order[k]] + after);
    var front, back := Concat(rows, before), Concat(rows, [order[k]] + after);
    assert (front + back)[|front|..|front| + |rows[order[k]]|] == back[..|rows[order[k]]|];
  }

  /** Every bucket that is reached is collected in one piece and in its own order, so an answer that is
      cut off within a bucket has its first contacts. */
  lemma CandidateBlocks(own: NodeId, b: nat, rows: seq<seq<Contact>>, target: NodeId, low: nat, i: nat)
    requires Sound(own, b, rows) && low <= 1
    requires Reached(BucketIndex(own, target, |rows| - 1), |rows| - 1, low, i)
    ensures i < |rows| && exists base :: BlockAt(Candidates(own, rows, target, low), base, rows[i])
  {
    hide Concat, Visits, VisitsFrom, BucketIndex, Sound, BlockAt, VisitKey;
    var start, max := BucketIndex(own, target, |rows| - 1), |rows| - 1;
    var order := Visits(start, max, low);
    VisitOrder(start, max, low);
    var k :| 0 <= k < |order| && order[k] == i;
    BlockOfOrder(rows, order, k);
    var base := |Concat(rows, order[..k])|;
    assert Candidates(own, rows, target, low) == Concat(rows, order);
    assert BlockAt(Candidates(own, rows, target, low), base, rows[i]);
  }

  lemma NotInFront(own: NodeId, b: nat, rows: seq<seq<Contact>>, start: nat, count: nat, i: nat)
    requires Sound(own, b, rows) && start < |rows| && i < |rows| && !(start - count < i < start + count)
    ensures forall c :: c in rows[i] ==> c !in Concat(rows, Rounds(start, |rows| - 1, count))
  {
    hide Rounds, Concat;
    ConcatContents(own, b, rows, Rounds(start, |rows| - 1, count));
    RoundsContents(start, |rows| - 1, count);
  }

  lemma NothingReturned(own: NodeId, b: nat, rows: seq<seq<Contact>>, target: NodeId, low: nat, i: nat)
    requires Sound(own, b, rows) && low <= 1 && i < |rows|
    requires !Reached(BucketIndex(own, target, |rows| - 1), |rows| - 1, low, i) || rows[i] == []
    ensures !Returned(own, b, rows, target, low, i)
  {
    hide Candidates;
    CandidateFacts(own, b, rows, target, low);
    forall c | c in rows[i] ensures c !in Answer(own, b, rows, target, low) {
      assert c !in Candidates(own, rows, target, low);
    }
  }

  lemma ReachedLower(own: NodeId, b: nat, rows: seq<seq<Contact>>, target: NodeId, low: nat, start: nat, i: nat)
    requires Sound(own, b, rows) && low <= 1 && i < start < |rows| && start == BucketIndex(own, target, |rows| - 1)
    requires Reached(start, |rows| - 1, low, i) && rows[i] != []
    ensures Returned(own, b, rows, target, low, i) <==> Population(rows, i + 1, 2 * start - i) < b
  {
    hide BucketIndex, Sound, Population, Visits, VisitsFrom, Rounds, Candidates, Concat, IndicesBelow, DistinctIds;
    var o := start - i;
    var front, all := Concat(rows, Rounds(start, |rows| - 1, o)), Candidates(own, rows, target, low);
    DistinctCandidates(own, b, rows, target, low);
    CandidatesAfterRounds(own, rows, target, low, start, o);
    LowerBucketNext(own, rows, target, low, start, i);
    TakenAt(all, b, |front|);
    assert rows[i][0] in rows[i];
    TakeFront(front, Concat(rows, VisitsFrom(start, |rows| - 1, low, o)), b);
    NotInFront(own, b, rows, start, o, i);
  }

  lemma DistinctCandidates(own: NodeId, b: nat, rows: seq<seq<Contact>>, target: NodeId, low: nat)
    requires Sound(own, b, rows) && low <= 1
    ensures DistinctIds(Candidates(own, rows, target, low))
  {
    hide Candidates, DistinctIds;
    CandidateFacts(own, b, rows, target, low);
  }

  /** A lower bucket contributes to the answer exactly if it is reached, holds a contact, and the
      buckets nearer to the start hold fewer than b. */
  lemma ReturnedFromBelow(own: NodeId, b: nat, rows: seq<seq<Contact>>, target: NodeId, low: nat, start: nat, i: nat)
    requires Sound(own, b, rows) && low <= 1 && i < start < |rows| && start == BucketIndex(own, target, |rows| - 1)
    ensures Returned(own, b, rows, target, low, i) <==> TakesFromBelow(b, rows, start, low, i)
  {
    hide Sound, BucketIndex, Returned, Population, Reached;
    if Reached(start, |rows| - 1, low, i) && rows[i] != [] {
      ReachedLower(own, b, rows, target, low, start, i);
    } else {
      NothingReturned(own, b, rows, target, low, i);
    }
  }

  /** The two have no contact in common. */
  ghost predicate Disjoint(s: seq<Contact>, t: seq<Contact>) {
    forall c :: c in s ==> c !in t
  }

  /** The guard that does not ask for bucket 0 returns none of its contacts exactly if it is empty, or it is
      not the start bucket and is further from it than the last one or behind b contacts. */
  lemma BucketZeroLeftOut(own: NodeId, b: nat, rows: seq<seq<Contact>>, target: NodeId)
    requires Sound(own, b, rows)
    ensures |rows| > 0
    ensures var start, max := BucketIndex(own, target, |rows| - 1), |rows| - 1;
            Disjoint(Answer(own, b, rows, target, 1), rows[0])
            <==> rows[0] == [] || (start > 0 && (2 * start > max || Population(rows, 1, 2 * start) >= b))
  {
    hide Answer, Population;
    var start := BucketIndex(own, target, |rows| - 1);
    if start > 0 {
      ReturnedFromBelow(own, b, rows, target, 1, start, 0);
    } else {
      AnswerOrder(own, b, rows, target, 1);
      assert rows[0] != [] ==> rows[0][0] in rows[0];
    }
  }

  predicate TakesFromBelow(b: nat, rows: seq<seq<Contact>>, start: nat, low: nat, i: nat)
    requires i < start < |rows|
  {
    Reached(start, |rows| - 1, low, i) && rows[i] != [] && Population(rows, i + 1, 2 * start - i) < b
  }

  /** The higher bucket of a round is the end of the rounds so far. */
  lemma HigherBucketLast(rows: seq<seq<Contact>>, start: nat, j: nat)
    requires start < j < |rows| && rows[j] != []
    ensures var front := Concat(rows, Rounds(start, |rows| - 1, j - start + 1));
            && front != [] && front[|front| - 1] == rows[j][|rows[j]| - 1]
            && forall c :: c in rows[j] ==> c in front
  {
    var order := Rounds(start, |rows| - 1, j - start + 1);
    var less := order[..|order| - 1];
    assert order[|order| - 1] == j;
    assert Concat(rows, order) == Concat(rows, less) + rows[j];
  }

  lemma LaterCandidates(own: NodeId, b: nat, rows: seq<seq<Contact>>, target: NodeId, low: nat, start: nat, j: nat)
    requires Sound(own, b, rows) && low <= 1 && start < j < |rows| && start == BucketIndex(own, target, |rows| - 1) && rows[j] != []
    ensures Omitted(own, b, rows, target, low, j) <==> Population(rows, 2 * start - j, j + 1) > b
  {
    hide BucketIndex, Sound, Population, Visits, VisitsFrom, Rounds, Candidates, Concat, IndicesBelow, DistinctIds;
    var o := j - start;
    var front, all := Concat(rows, Rounds(start, |rows| - 1, o + 1)), Candidates(own, rows, target, low);
    DistinctCandidates(own, b, rows, target, low);
    CandidatesAfterRounds(own, rows, target, low, start, o + 1);
    HigherBucketLast(rows, start, j);
    TakeFront(front, Concat(rows, VisitsFrom(start, |rows| - 1, low, o + 1)), b);
    TakenAt(all, b, |front| - 1);
    assert rows[j][|rows[j]| - 1] in rows[j];
  }

  /** A higher bucket is not returned in full exactly if it and the buckets nearer to the start, with
      the lower one at its distance, hold more than b contacts. */
  lemma OmittedFromAbove(own: NodeId, b: nat, rows: seq<seq<Contact>>, target: NodeId, low: nat, start: nat, j: nat)
    requires Sound(own, b, rows) && low <= 1 && start < j < |rows| && start == BucketIndex(own, target, |rows| - 1)
    ensures Omitted(own, b, rows, target, low, j) <==> LeavesOutAbove(b, rows, start, j)
  {
    hide Sound, BucketIndex, Population, Answer;
    if rows[j] != [] {
      LaterCandidates(own, b, rows, target, low, start, j);
    }
  }

  predicate LeavesOutAbove(b: nat, rows: seq<seq<Contact>>, start: nat, j: nat)
    requires start < j < |rows|
  {
    rows[j] != [] && Population(rows, 2 * start - j, j + 1) > b
  }

  // ------------------------------------------------------------------ the condition

  /** Every returned contact shares at least as many bits with the target as every stored contact
      that is not returned. */
  ghost predicate NearestFirst(own: NodeId, b: nat, rows: seq<seq<Contact>>, target: NodeId, low: nat)
    requires |rows| > 0
  {
    forall c, d :: c in Answer(own, b, rows, target, low) && Stored(rows, d) && d !in Answer(own, b, rows, target, low)
      ==> PrefixLength(target, c.id) >= PrefixLength(target, d.id)
  }

  /** What a contact's bucket says about its common prefix with a target that is not of the last bucket. */
  lemma PrefixFromBucket(own: NodeId, target: NodeId, id: NodeId, max: nat)
    requires BucketIndex(own, target, max) < max <= ID_BITS
    ensures var start, i := BucketIndex(own, target, max), BucketIndex(own, id, max);
            && (i < start ==> PrefixLength(target, id) == i)
            && (i == start ==> PrefixLength(target, id) > start)
            && (i > start ==> PrefixLength(target, id) == start)
  {
    PrefixSymmetric(own, target);
    PrefixUltrametric(target, own, id);
    FullPrefixIsEquality(own, target);
    FullPrefixIsEquality(own, id);
  }

  lemma StoredInBucket(own: NodeId, b: nat, rows: seq<seq<Contact>>, c: Contact)
    requires Sound(own, b, rows) && Stored(rows, c)
    ensures 1 <= |rows| <= ID_BITS + 1 && c in rows[BucketIndex(own, c.id, |rows| - 1)]
  {
    hide BucketIndex;
  }

  /** A contact that is returned in place of one that shares more bits with the target comes from
      below the target's bucket, and the omitted one is above it. */
  lemma SidesOfDisorder(own: NodeId, b: nat, rows: seq<seq<Contact>>, target: NodeId, low: nat, c: Contact, d: Contact)
    requires Sound(own, b, rows) && low <= 1 && BucketIndex(own, target, |rows| - 1) < |rows| - 1
    requires c in Answer(own, b, rows, target, low) && Stored(rows, d) && d !in Answer(own, b, rows, target, low)
    requires PrefixLength(target, c.id) < PrefixLength(target, d.id)
    ensures Stored(rows, c)
    ensures BucketIndex(own, c.id, |rows| - 1) < BucketIndex(own, target, |rows| - 1) < BucketIndex(own, d.id, |rows| - 1)
  {
    hide Answer, BucketIndex, PrefixLength, Sound;
    AnswerOrder(own, b, rows, target, low);
    StoredInBucket(own, b, rows, c);
    StoredInBucket(own, b, rows, d);
    PrefixFromBucket(own, target, c.id, |rows| - 1);
    PrefixFromBucket(own, target, d.id, |rows| - 1);
  }

  /** The search returns contacts in the order of their common prefixes with the target if and only if
      no contact from below the target's bucket is taken, or none from above it is left out; both are
      decided by the sizes of the buckets. */
  lemma NearestFirstExactly(own: NodeId, b: nat, rows: seq<seq<Contact>>, target: NodeId, low: nat)
    requires Sound(own, b, rows) && low <= 1
    ensures var start := BucketIndex(own, target, |rows| - 1);
            NearestFirst(own, b, rows, target, low)
            <==> (forall i :: 0 <= i < start ==> !TakesFromBelow(b, rows, start, low, i))
                 || (forall j :: start < j < |rows| ==> !LeavesOutAbove(b, rows, start, j))
  {
    var max := |rows| - 1;
    var start := BucketIndex(own, target, max);
    if start == max {
      LastBucketInOrder(own, b, rows, target, low);
    } else if NearestFirst(own, b, rows, target, low) {
      forall i, j | 0 <= i < start && start < j < |rows| && TakesFromBelow(b, rows, start, low, i) ensures !LeavesOutAbove(b, rows, start, j) {
        if LeavesOutAbove(b, rows, start, j) { Disorder(own, b, rows, target, low, start, i, j); }
      }
    } else {
      var c, d :| c in Answer(own, b, rows, target, low) && Stored(rows, d) && d !in Answer(own, b, rows, target, low)
                  && PrefixLength(target, c.id) < PrefixLength(target, d.id);
      SidesOfDisorder(own, b, rows, target, low, c, d);
      StoredInBucket(own, b, rows, c);
      StoredInBucket(own, b, rows, d);
      var i, j := BucketIndex(own, c.id, max), BucketIndex(own, d.id, max);
      assert Returned(own, b, rows, target, low, i) && Omitted(own, b, rows, target, low, j);
      ReturnedFromBelow(own, b, rows, target, low, start, i);
      OmittedFromAbove(own, b, rows, target, low, start, j);
    }
  }

  lemma LastBucketInOrder(own: NodeId, b: nat, rows: seq<seq<Contact>>, target: NodeId, low: nat)
    requires Sound(own, b, rows) && low <= 1 && BucketIndex(own, target, |rows| - 1) == |rows| - 1
    ensures NearestFirst(own, b, rows, target, low)
  {
    hide Answer, Sound;
    forall c, d | c in Answer(own, b, rows, target, low) && Stored(rows, d) && d !in Answer(own, b, rows, target, low)
      ensures PrefixLength(target, c.id) >= PrefixLength(target, d.id)
    {
      LastBucketAnswer(own, b, rows, target, low, c, d);
    }
  }

  lemma Disorder(own: NodeId, b: nat, rows: seq<seq<Contact>>, target: NodeId, low: nat, start: nat, i: nat, j: nat)
    requires Sound(own, b, rows) && low <= 1 && start == BucketIndex(own, target, |rows| - 1)
    requires i < start < j < |rows| && TakesFromBelow(b, rows, start, low, i) && LeavesOutAbove(b, rows, start, j)
    ensures !NearestFirst(own, b, rows, target, low)
  {
    hide Answer, TakesFromBelow, LeavesOutAbove, PrefixLength;
    ReturnedFromBelow(own, b, rows, target, low, start, i);
    OmittedFromAbove(own, b, rows, target, low, start, j);
    var c :| c in rows[i] && c in Answer(own, b, rows, target, low);
    var d :| d in rows[j] && d !in Answer(own, b, rows, target, low);
    StoredAt(rows, j, d);
    PrefixFromBucket(own, target, c.id, |rows| - 1);
    PrefixFromBucket(own, target, d.id, |rows| - 1);
  }
}

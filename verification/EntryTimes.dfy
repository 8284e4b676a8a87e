/** What the entries of the Rust table record: exactly the messages that were heard from a node while
    it was stored. */
module EntryTimes {
  import opened NodeIds
  import opened Contacts
  import opened Options
  import opened RatedTable

  /** The time of a kind of message after one message that is recorded at `now`. */
  function TimeAfter(before: Option<Instant>, kind: SeenIn, seenIn: SeenIn, now: Instant): Option<Instant> {
    if seenIn == kind then Some(now) else before
  }

  /** The contact and the two times of an entry. */
  predicate Records(e: RoutingEntry, node: Contact, lastResponse: Option<Instant>, lastQuery: Option<Instant>) {
    e.node == node && e.lastResponse == lastResponse && e.lastQuery == lastQuery
  }

  lemma EntryUpdated(o: RoutingEntry, node: Contact, seenIn: SeenIn, now: Instant)
    ensures Records(o.Updated(seenIn, now), o.node,
                    TimeAfter(o.lastResponse, Response, seenIn, now), TimeAfter(o.lastQuery, Query, seenIn, now))
    ensures Records(NewEntry(node, seenIn, now), node,
                    TimeAfter(None, Response, seenIn, now), TimeAfter(None, Query, seenIn, now))
  {
  }

  /** An update changes no entry of another node. */
  lemma OtherEntryUnchanged(own: NodeId, t: seq<BucketValue>, node: Contact, seenIn: SeenIn, clock: Clock, e: RoutingEntry)
    requires TableInvariant(own, t) && node.id != own && e.node.id != node.id
    requires e in EntriesOf(UpdatedTable(own, t, node, seenIn, clock))
    ensures e in EntriesOf(t)
  {
    hide TableInvariant, UpdatedTable, EntriesOf, Crowded, OneSided, FirstBad, PrefixLength;
    TargetBucket(own, t, node.id);
    UpdateConserves(own, t, node, seenIn, clock);
    var b := BucketFor(own, t, node.id);
    assert e !in Entering(own, b, node, seenIn, clock);
  }

  /** After an update the heard node's entry is its old entry with the time of this message, if it was
      stored, and otherwise a new one that records this message and nothing else. */
  lemma HeardEntry(own: NodeId, t: seq<BucketValue>, node: Contact, seenIn: SeenIn, clock: Clock, e: RoutingEntry)
    requires TableInvariant(own, t) && node.id != own && e.node.id == node.id
    requires e in EntriesOf(UpdatedTable(own, t, node, seenIn, clock))
    ensures var now := clock.recorded;
            if Has(t, node.id)
            then exists o :: o in EntriesOf(t) && o.node.id == node.id
                   && Records(e, o.node, TimeAfter(o.lastResponse, Response, seenIn, now), TimeAfter(o.lastQuery, Query, seenIn, now))
            else Records(e, node, TimeAfter(None, Response, seenIn, now), TimeAfter(None, Query, seenIn, now))
  {
    hide TableInvariant, UpdatedTable, EntriesOf, Crowded, OneSided, FirstBad, PrefixLength, Records;
    TargetBucket(own, t, node.id);
    HasIsKnown(own, t, node);
    UpdateConserves(own, t, node, seenIn, clock);
    if Has(t, node.id) {
      var o :| o in EntriesOf(t) && o.node.id == node.id;
      EntryPosition(own, t, o);
      StoredOnceInTable(own, t, o);
      if e in EntriesOf(t) { EntryPosition(own, t, e); }
      assert e == o.Updated(seenIn, clock.recorded);
      EntryUpdated(o, node, seenIn, clock.recorded);
    } else {
      assert e == NewEntry(node, seenIn, clock.recorded);
      EntryUpdated(e, node, seenIn, clock.recorded);
    }
  }

  // ------------------------------------------------------------------ runs

  /** The time of the last message of one kind from a node, if there was one. */
  function LastTime(events: seq<Event>, id: NodeId, kind: SeenIn): Option<Instant> {
    if events == [] then None
    else
      var e := events[|events| - 1];
      if e.node.id == id && e.seenIn == kind then Some(e.clock.recorded) else LastTime(events[..|events| - 1], id, kind)
  }

  lemma LastTimeAppend(events: seq<Event>, e: Event, id: NodeId, kind: SeenIn)
    ensures LastTime(events + [e], id, kind)
         == if e.node.id == id then TimeAfter(LastTime(events, id, kind), kind, e.seenIn, e.clock.recorded) else LastTime(events, id, kind)
  {
    assert (events + [e])[..|events|] == events;
  }

  /** The node was not stored before event s and is stored after it and every later one. */
  ghost predicate StoredFrom(own: NodeId, events: seq<Event>, s: nat, id: NodeId) {
    && s < |events|
    && !Has(Run(own, InitialTable(), events[..s]), id)
    && forall j :: s < j <= |events| ==> Has(Run(own, InitialTable(), events[..j]), id)
  }

  /** An entry that came in with event s records the messages heard from its node since then. */
  ghost predicate RecordsSince(own: NodeId, events: seq<Event>, s: nat, e: RoutingEntry) {
    && StoredFrom(own, events, s, e.node.id)
    && Records(e, events[s].node, LastTime(events[s..], e.node.id, Response), LastTime(events[s..], e.node.id, Query))
  }

  lemma RecordedOn(own: NodeId, less: seq<Event>, last: Event, s: nat, o: RoutingEntry, e: RoutingEntry)
    requires RecordsSince(own, less, s, o) && o.node.id == e.node.id && Has(Run(own, InitialTable(), less + [last]), e.node.id)
    requires if last.node.id == e.node.id
             then Records(e, o.node, TimeAfter(o.lastResponse, Response, last.seenIn, last.clock.recorded),
                          TimeAfter(o.lastQuery, Query, last.seenIn, last.clock.recorded))
             else e == o
    ensures RecordsSince(own, less + [last], s, e)
  {
    hide Run, Has;
    var events := less + [last];
    forall j | s < j <= |less| ensures Has(Run(own, InitialTable(), events[..j]), e.node.id) {
      assert events[..j] == less[..j];
    }
    assert events[..s] == less[..s] && events[..|events|] == events;
    assert events[s..] == less[s..] + [last];
    LastTimeAppend(less[s..], last, e.node.id, Response);
    LastTimeAppend(less[s..], last, e.node.id, Query);
  }

  /** After every run, the entry of a stored node has the contact it was first heard of with since it was
      last not stored, and exactly the times of its last response and of its last query since then. */
  lemma {:induction false} EntryOfRun(own: NodeId, events: seq<Event>, e: RoutingEntry)
    requires forall v :: v in events ==> v.node.id != own
    ensures e in EntriesOf(Run(own, InitialTable(), events)) ==> exists s :: RecordsSince(own, events, s, e)
  {
    hide Run, EntriesOf, TableInvariant, RecordsSince, Records;
    if events == [] {
      NothingStored(own, e);
    } else if e in EntriesOf(Run(own, InitialTable(), events)) {
      var less, last := events[..|events| - 1], events[|events| - 1];
      assert events == less + [last];
      assert Has(Run(own, InitialTable(), events), e.node.id);
      RunKeepsInvariant(own, less);
      RunStep(own, less, last);
      var t := Run(own, InitialTable(), less);
      if last.node.id != e.node.id {
        OtherEntryUnchanged(own, t, last.node, last.seenIn, last.clock, e);
        EntryOfRun(own, less, e);
        var s :| RecordsSince(own, less, s, e);
        RecordedOn(own, less, last, s, e, e);
      } else {
        HeardEntry(own, t, last.node, last.seenIn, last.clock, e);
        if Has(t, e.node.id) {
          var o :| o in EntriesOf(t) && o.node.id == last.node.id
                   && Records(e, o.node, TimeAfter(o.lastResponse, Response, last.seenIn, last.clock.recorded),
                              TimeAfter(o.lastQuery, Query, last.seenIn, last.clock.recorded));
          EntryOfRun(own, less, o);
          var s :| RecordsSince(own, less, s, o);
          RecordedOn(own, less, last, s, o, e);
        } else {
          RecordedNow(own, less, last, e);
        }
      }
    }
  }

  lemma NothingStored(own: NodeId, e: RoutingEntry)
    ensures e !in EntriesOf(Run(own, InitialTable(), []))
  {
    assert Run(own, InitialTable(), []) == InitialTable();
    EntriesOfFew(BucketValue(0, ID_BITS, []), BucketValue(0, ID_BITS, []));
  }

  lemma RecordedNow(own: NodeId, less: seq<Event>, last: Event, e: RoutingEntry)
    requires !Has(Run(own, InitialTable(), less), e.node.id) && Has(Run(own, InitialTable(), less + [last]), e.node.id)
    requires last.node.id == e.node.id
    requires Records(e, last.node, TimeAfter(None, Response, last.seenIn, last.clock.recorded), TimeAfter(None, Query, last.seenIn, last.clock.recorded))
    ensures RecordsSince(own, less + [last], |less|, e)
  {
    hide Run, Has;
    var events := less + [last];
    assert events[..|less|] == less && events[..|events|] == events;
    assert events[|less|..] == [] + [last];
    LastTimeAppend([], last, e.node.id, Response);
    LastTimeAppend([], last, e.node.id, Query);
  }
}

/**
  What a bucket holds after every run of insertions, removals and sightings, told from the events:
  which ids are active or in the promotion cache, and what is recorded about them.
 */
module BucketRecords {
  import opened Ids
  import opened Options
  import opened Buckets
  import opened BucketRuns
  import opened Tables

  // ---------------------------------------------------------------- looking up

  /** `get` gives the active node with the id, and the cached one only if there is no active one. */
  lemma GetPrefersActive(b: BucketState, id: Id, n: Node)
    requires ValidState(b)
    ensures Get(b, id) == Some(n) <==> n.id == id && (n in b.active || (Lacks(b.active, id) && n in b.cache))
  {
    FindIff(b.active, id, n);
    FindIff(b.cache, id, n);
  }

  lemma FindIff(s: seq<Node>, id: Id, n: Node)
    requires DistinctIds(s)
    ensures Find(s, id) == Some(n) <==> n in s && n.id == id
  {
    if n in s && n.id == id {
      var i :| 0 <= i < |s| && s[i] == n;
      FindUnique(s, i);
    }
  }

  // ---------------------------------------------------------------- who is active

  /** The time of the last removal of an id, or -1. */
  function LastRemove(events: seq<Event>, id: Id): int {
    if events == [] then -1
    else
      var n := |events| - 1;
      if events[n].Remove? && events[n].id == id then n else LastRemove(events[..n], id)
  }

  lemma {:induction false} LastRemoveBound(events: seq<Event>, id: Id)
    ensures -1 <= LastRemove(events, id) < |events|
  {
    if events != [] { LastRemoveBound(events[..|events| - 1], id); }
  }

  /** The list takes the id: it is there already, or there is room. */
  predicate Admits(b: BucketState, id: Id) {
    !Lacks(b.active, id) || |b.active| < K
  }

  /** After the first `t` events the list takes the id. */
  predicate AdmitsAt(events: seq<Event>, t: int, id: Id) {
    0 <= t <= |events| && Admits(After(events[..t]), id)
  }

  /** What one event does to the activity of an id. */
  lemma ActiveStep(b: BucketState, e: Event, id: Id)
    requires ValidState(b)
    ensures !Lacks(Step(b, e).active, id)
            <==> if EventId(e) != id || e.Seen? then !Lacks(b.active, id) else e.Insert? && Admits(b, id)
  {
    match e
    case Remove(_) =>
      RemovedExactly(b, e.id);
      if e.id != id { SameLack(b.active, Step(b, e).active, id); }
    case Seen(_, _) =>
      assert Lacks(b.active, id) ==> Lacks(Step(b, e).active, id);
      if !Lacks(b.active, id) {
        var i :| 0 <= i < |b.active| && b.active[i].id == id;
        assert Step(b, e).active[i].id == id;
      }
    case Insert(c) => InsertActive(b, c, id);
  }

  lemma SameLack(a: seq<Node>, b: seq<Node>, id: Id)
    requires forall n: Node | n.id == id :: n in a <==> n in b
    ensures Lacks(a, id) <==> Lacks(b, id)
  {
    if !Lacks(a, id) { var i :| 0 <= i < |a| && a[i].id == id; assert a[i] in b; }
    if !Lacks(b, id) { var i :| 0 <= i < |b| && b[i].id == id; assert b[i] in a; }
  }

  lemma InsertActive(b: BucketState, c: Contact, id: Id)
    requires ValidState(b)
    ensures !Lacks(Inserted(b, c).active, id) <==> if c.id != id then !Lacks(b.active, id) else Admits(b, id)
  {
    InsertedIsKnown(b, c);
    if id != c.id {
      forall n: Node | n.id == id ensures n in Inserted(b, c).active <==> n in b.active {
        InsertedOthers(b, c, n);
      }
      SameLack(b.active, Inserted(b, c).active, id);
    }
  }

  /** Inserting changes no node of another id. */
  lemma InsertedOthers(b: BucketState, c: Contact, n: Node)
    requires n.id != c.id
    ensures n in Inserted(b, c).active <==> n in b.active
  {
    WithoutMember(b.active, c.id, n);
  }

  /** The id is active after a run. */
  predicate IsActive(events: seq<Event>, id: Id) {
    !Lacks(After(events).active, id)
  }

  lemma ActiveAfter(events: seq<Event>, id: Id)
    requires events != []
    ensures var n := |events| - 1;
            IsActive(events, id)
            <==> if EventId(events[n]) != id || events[n].Seen? then IsActive(events[..n], id)
                 else events[n].Insert? && AdmitsAt(events, n, id)
  {
    RunValid(events[..|events| - 1]);
    ActiveStep(After(events[..|events| - 1]), events[|events| - 1], id);
  }

  /** In every run an id is active if and only if it was inserted after its last removal, and at its
      last insertion it was active or the list had room. */
  lemma {:induction false} ActiveIff(events: seq<Event>, id: Id)
    ensures IsActive(events, id)
            <==> LastRemove(events, id) < LastInsert(events, id) && AdmitsAt(events, LastInsert(events, id), id)
  {
    if events != [] {
      var n := |events| - 1;
      ActiveIff(events[..n], id);
      ActiveAfter(events, id);
      LastInsertBound(events[..n], id);
      LastRemoveBound(events[..n], id);
      var t := LastInsert(events[..n], id);
      assert t >= 0 ==> events[..n][..t] == events[..t];
    }
  }

  // ---------------------------------------------------------------- what is recorded

  /** The time given by the last insertion or sighting of an id. */
  function LastSight(events: seq<Event>, id: Id): int {
    if events == [] then ZERO_TIME
    else
      var n := |events| - 1;
      if EventId(events[n]) != id || events[n].Remove? then LastSight(events[..n], id)
      else if events[n].Insert? then events[n].c.now else events[n].now
  }

  /** The time at which the id last joined the list, or -1. */
  function LastJoin(events: seq<Event>, id: Id): int {
    if events == [] then -1
    else
      var n := |events| - 1;
      if events[n].Insert? && events[n].c.id == id && Lacks(After(events[..n]).active, id) then n
      else LastJoin(events[..n], id)
  }

  /** What one event makes of the active nodes with the id it is about. */
  lemma RecordStep(b: BucketState, e: Event, n: Node)
    requires ValidState(b) && n in Step(b, e).active && n.id == EventId(e)
    ensures !e.Remove? && n.seen == if e.Insert? then e.c.now else e.now
    ensures e.Insert? ==> n.latency == e.c.latency && n.testMode == e.c.testMode
    ensures e.Insert? && Lacks(b.active, n.id) ==> n.address == e.c.address && n.failCount == 0
    ensures e.Seen? || !Lacks(b.active, n.id) ==>
              exists m :: m in b.active && m.id == n.id && m.address == n.address && m.failCount == n.failCount
                          && (e.Seen? ==> m.latency == n.latency && m.testMode == n.testMode)
  {
    match e
    case Remove(_) => RemovedExactly(b, e.id);
    case Seen(id, now) =>
      var a := Step(b, e).active;
      var i :| 0 <= i < |a| && a[i] == n;
      assert b.active[i] in b.active && b.active[i].id == id;
    case Insert(c) =>
      WithoutMember(b.active, c.id, n);
      if !Lacks(b.active, c.id) {
        var m := Find(b.active, c.id).value;
        assert m in b.active;
      }
  }

  /** What is recorded about a node, told from the events. */
  ghost predicate Recorded(events: seq<Event>, n: Node) {
    var t, j := LastInsert(events, n.id), LastJoin(events, n.id);
    && 0 <= j <= t < |events| && events[t].Insert? && events[j].Insert?
    && n.seen == LastSight(events, n.id)
    && n.latency == events[t].c.latency && n.testMode == events[t].c.testMode
    && n.address == events[j].c.address && n.failCount == 0
  }

  /** An event about another id changes neither the node nor what the events say about it. */
  lemma OtherEvent(events: seq<Event>, n: Node)
    requires events != [] && EventId(events[|events| - 1]) != n.id
    requires ValidState(After(events[..|events| - 1]))
    ensures n in After(events).active ==> n in After(events[..|events| - 1]).active
    ensures Recorded(events[..|events| - 1], n) ==> Recorded(events, n)
  {
    var m := |events| - 1;
    if n in After(events).active { StepMembers(After(events[..m]), events[m], n); }
  }

  /** In every run an active node carries the time of the last insertion or sighting of its id, the
      latency and mode of the last insertion, and the address it last joined with. */
  lemma {:induction false} RecordIsLatest(events: seq<Event>, n: Node)
    requires n in After(events).active
    ensures Recorded(events, n)
  {
    var m := |events| - 1;
    RunValid(events[..m]);
    if EventId(events[m]) != n.id {
      OtherEvent(events, n);
      RecordIsLatest(events[..m], n);
    } else {
      var b := After(events[..m]);
      RecordStep(b, events[m], n);
      if events[m].Seen? || !Lacks(b.active, n.id) {
        var o :| o in b.active && o.id == n.id && o.address == n.address && o.failCount == n.failCount
                 && (events[m].Seen? ==> o.latency == n.latency && o.testMode == n.testMode);
        RecordIsLatest(events[..m], o);
      }
    }
  }

  // ---------------------------------------------------------------- the promotion cache

  /** The event finds the list full and the id not in it. */
  predicate Overflows(b: BucketState, e: Event, id: Id) {
    e.Insert? && e.c.id == id && |b.active| == K && Lacks(b.active, id)
  }

  /** The first time an insertion of the id found the list full, or -1. */
  function FirstOverflow(events: seq<Event>, id: Id): int {
    if events == [] then -1
    else
      var n := |events| - 1;
      var t := FirstOverflow(events[..n], id);
      if t < 0 && Overflows(After(events[..n]), events[n], id) then n else t
  }

  lemma {:induction false} FirstOverflowBound(events: seq<Event>, id: Id)
    ensures -1 <= FirstOverflow(events, id) < |events|
    ensures FirstOverflow(events, id) >= 0 ==> events[FirstOverflow(events, id)].Insert?
  {
    if events != [] { FirstOverflowBound(events[..|events| - 1], id); }
  }

  /** The last time the id, in the cache and not active, was inserted again or seen. */
  function LastCacheSight(events: seq<Event>, id: Id): int {
    if events == [] then ZERO_TIME
    else
      var n := |events| - 1;
      var b, e := After(events[..n]), events[n];
      if FirstOverflow(events[..n], id) < 0 || !Lacks(b.active, id) then LastCacheSight(events[..n], id)
      else if Overflows(b, e, id) then e.c.now
      else if e.Seen? && e.id == id then e.now
      else LastCacheSight(events[..n], id)
  }

  /** What one event makes of the cache. */
  lemma CacheStep(b: BucketState, e: Event, i: nat)
    requires ValidState(b) && i < |Step(b, e).cache|
    ensures var r := Step(b, e).cache[i];
            if i < |b.cache| then
              r == b.cache[i].(seen := if Overflows(b, e, r.id) then e.c.now
                                       else if e.Seen? && e.id == r.id && Lacks(b.active, r.id) then e.now
                                       else b.cache[i].seen)
            else
              i == |b.cache| && Overflows(b, e, r.id) && Lacks(b.cache, r.id)
              && r == Node(e.c.id, e.c.address, ZERO_TIME, 0, e.c.latency, 0, e.c.testMode)
  {
  }

  lemma CacheGrows(b: BucketState, e: Event)
    requires ValidState(b)
    ensures |Step(b, e).cache| == |b.cache| + if Overflows(b, e, EventId(e)) && Lacks(b.cache, EventId(e)) then 1 else 0
  {
  }

  lemma CacheLackStep(b: BucketState, e: Event, id: Id)
    requires ValidState(b)
    ensures Lacks(Step(b, e).cache, id) <==> Lacks(b.cache, id) && !Overflows(b, e, id)
  {
    var c := Step(b, e).cache;
    CacheGrows(b, e);
    forall i | 0 <= i < |c| ensures if i < |b.cache| then c[i].id == b.cache[i].id else Overflows(b, e, c[i].id) {
      CacheStep(b, e, i);
    }
    if !Lacks(b.cache, id) {
      var i :| 0 <= i < |b.cache| && b.cache[i].id == id;
      assert c[i].id == id;
    } else if Overflows(b, e, id) {
      assert c[|b.cache|].id == id;
    }
  }

  /** In every run an id is in the cache if and only if it was once inserted when the list was full
      of other nodes; nothing ever takes it out. */
  lemma {:induction false} CachedIff(events: seq<Event>, id: Id)
    ensures !Lacks(After(events).cache, id) <==> FirstOverflow(events, id) >= 0
  {
    if events != [] {
      var n := |events| - 1;
      CachedIff(events[..n], id);
      RunValid(events[..n]);
      CacheLackStep(After(events[..n]), events[n], id);
    }
  }

  lemma {:induction false} NeverCached(events: seq<Event>, id: Id)
    requires FirstOverflow(events, id) < 0
    ensures LastCacheSight(events, id) == ZERO_TIME
  {
    if events != [] { NeverCached(events[..|events| - 1], id); }
  }

  /** In every run a cached node carries the contact it first overflowed with and the time it was
      last inserted or seen while cached and not active; the cache is in order of that first time. */
  lemma {:induction false} CacheRecord(events: seq<Event>, i: nat)
    requires i < |After(events).cache|
    ensures var r := After(events).cache[i];
            var t := FirstOverflow(events, r.id);
            && 0 <= t < |events| && events[t].Insert?
            && r == NewNode(events[t].c, LastCacheSight(events, r.id))
            && forall j | 0 <= j < i :: FirstOverflow(events, After(events).cache[j].id) < t
  {
    var n := |events| - 1;
    var b, e, r := After(events[..n]), events[n], After(events).cache[i];
    RunValid(events[..n]);
    CacheStep(b, e, i);
    CachedIff(events[..n], r.id);
    if i < |b.cache| {
      CacheRecord(events[..n], i);
    } else {
      NeverCached(events[..n], r.id);
    }
    forall j | 0 <= j < i ensures FirstOverflow(events, After(events).cache[j].id) < FirstOverflow(events, r.id) {
      CacheStep(b, e, j);
      CachedIff(events[..n], b.cache[j].id);
      FirstOverflowBound(events[..n], b.cache[j].id);
    }
  }

  // ---------------------------------------------------------------- the table

  /** The events that go to bucket `k`. */
  function EventsOf(local: Id, events: seq<Event>, k: nat): seq<Event> {
    if events == [] then []
    else
      var n := |events| - 1;
      EventsOf(local, events[..n], k) + if BucketId(local, EventId(events[n])) == k then [events[n]] else []
  }

  /** Each bucket of the table is what a bucket alone makes of the events with its ids. */
  lemma {:induction false} BucketsAreIndependent(local: Id, events: seq<Event>, k: nat)
    requires k < KEY_BITS
    ensures TableAfter(local, events).buckets[k] == After(EventsOf(local, events, k))
  {
    if events != [] {
      var n := |events| - 1;
      BucketsAreIndependent(local, events[..n], k);
      var own, all := EventsOf(local, events[..n], k), EventsOf(local, events, k);
      if BucketId(local, EventId(events[n])) == k {
        assert all[..|all| - 1] == own && all[|all| - 1] == events[n];
      } else {
        assert all == own;
      }
    }
  }

  /** In every run of the table an id is active if and only if it was inserted after its last removal,
      and at its last insertion it was active or its bucket had room. */
  lemma {:induction false} TableActiveIff(local: Id, events: seq<Event>, id: Id)
    ensures (exists n :: Active(TableAfter(local, events), n) && n.id == id)
            <==> LastRemove(events, id) < LastInsert(events, id) && OwnAdmits(local, events, LastInsert(events, id), id)
  {
    OwnActiveIff(local, events, id);
    RunPlaced(local, events);
    var t, k := TableAfter(local, events), BucketId(local, id);
    var a := t.buckets[k].active;
    if !Lacks(a, id) {
      var i :| 0 <= i < |a| && a[i].id == id;
      assert Active(t, a[i]);
    }
    forall n | Active(t, n) && n.id == id ensures !Lacks(a, id) {
      ActiveInOwnBucket(t, n);
    }
  }

  /** The id is active in its own bucket. */
  predicate OwnActive(local: Id, events: seq<Event>, id: Id) {
    !Lacks(TableAfter(local, events).buckets[BucketId(local, id)].active, id)
  }

  /** After the first `t` events its own bucket takes the id. */
  predicate OwnAdmits(local: Id, events: seq<Event>, t: int, id: Id) {
    0 <= t <= |events| && Admits(TableAfter(local, events[..t]).buckets[BucketId(local, id)], id)
  }

  lemma OwnStep(local: Id, events: seq<Event>, id: Id)
    requires events != []
    ensures var n := |events| - 1;
            OwnActive(local, events, id)
            <==> if EventId(events[n]) != id || events[n].Seen? then OwnActive(local, events[..n], id)
                 else events[n].Insert? && OwnAdmits(local, events, n, id)
  {
    var n, k := |events| - 1, BucketId(local, id);
    var before := TableAfter(local, events[..n]);
    RunPlaced(local, events[..n]);
    assert InPlace(local, before.buckets[k], k);
    ActiveStep(before.buckets[k], events[n], id);
  }

  lemma {:induction false} OwnActiveIff(local: Id, events: seq<Event>, id: Id)
    ensures OwnActive(local, events, id)
            <==> LastRemove(events, id) < LastInsert(events, id) && OwnAdmits(local, events, LastInsert(events, id), id)
  {
    if events != [] {
      var n := |events| - 1;
      OwnActiveIff(local, events[..n], id);
      OwnStep(local, events, id);
      LastInsertBound(events[..n], id);
      LastRemoveBound(events[..n], id);
      var t := LastInsert(events[..n], id);
      assert t >= 0 ==> events[..n][..t] == events[..t];
    }
  }
}

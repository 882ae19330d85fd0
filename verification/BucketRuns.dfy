/**
  Properties of a bucket over every run of insertions, removals and sightings.
 */
module BucketRuns {
  import opened Ids
  import opened Buckets

  datatype Event = Insert(c: Contact) | Remove(id: Id) | Seen(id: Id, now: int)

  function Step(b: BucketState, e: Event): BucketState {
    match e
    case Insert(c) => Inserted(b, c)
    case Remove(id) => Removed(b, id)
    case Seen(id, now) => Touched(b, id, now)
  }

  function After(events: seq<Event>): BucketState {
    if events == [] then BucketState([], [])
    else Step(After(events[..|events| - 1]), events[|events| - 1])
  }

  /** No run makes a bucket hold more than K nodes, an id twice, or a pending request; so the
      branch that replaces a stale entry is unreachable. */
  lemma {:induction false} RunValid(events: seq<Event>)
    ensures ValidState(After(events))
  {
    if events != [] {
      var n := |events| - 1;
      RunValid(events[..n]);
      match events[n]
      case Insert(c) => InsertedValid(After(events[..n]), c);
      case Remove(id) => RemovedValid(After(events[..n]), id);
      case Seen(id, now) => TouchedValid(After(events[..n]), id, now);
    }
  }

  /** An inserted id is known afterwards: at the back of the list, or, if the list was full of
      other nodes, in the promotion cache. All other nodes keep their order. */
  lemma InsertedIsKnown(b: BucketState, c: Contact)
    requires ValidState(b)
    ensures var r := Inserted(b, c);
            && Get(r, c.id).Some?
            && (if |b.active| == K && Lacks(b.active, c.id)
                then r.active == b.active && !Lacks(r.cache, c.id)
                else |r.active| > 0 && r.active[|r.active| - 1].id == c.id
                     && r.active[..|r.active| - 1] == Without(b.active, c.id) && r.cache == b.cache)
  {
    var r := Inserted(b, c);
    WithoutKeeps(b.active, c.id);
    if |b.active| == K && Lacks(b.active, c.id) {
      if Lacks(b.cache, c.id) {
        assert r.cache[|b.cache|].id == c.id;
      } else {
        var i :| 0 <= i < |b.cache| && b.cache[i].id == c.id;
        assert r.cache[i].id == c.id;
      }
    } else {
      if Lacks(b.active, c.id) { WithoutLacking(b.active, c.id); }
      assert r.active[|r.active| - 1].id == c.id;
    }
  }

  // ---------------------------------------------------------------- recency

  /** The time of the last insertion of an id, or -1. */
  function LastInsert(events: seq<Event>, id: Id): int {
    if events == [] then -1
    else
      var n := |events| - 1;
      if events[n].Insert? && events[n].c.id == id then n else LastInsert(events[..n], id)
  }

  lemma {:induction false} LastInsertBound(events: seq<Event>, id: Id)
    ensures -1 <= LastInsert(events, id) < |events|
  {
    if events != [] { LastInsertBound(events[..|events| - 1], id); }
  }

  ghost predicate ByRecency(events: seq<Event>, s: seq<Node>) {
    forall i, j | 0 <= i < j < |s| :: LastInsert(events, s[i].id) < LastInsert(events, s[j].id)
  }

  lemma WithoutByRecency(events: seq<Event>, s: seq<Node>, id: Id)
    requires ByRecency(events, s) && DistinctIds(s)
    ensures ByRecency(events, Without(s, id))
  {
    if Lacks(s, id) {
      WithoutLacking(s, id);
    } else {
      var i :| 0 <= i < |s| && s[i].id == id;
      WithoutCut(s, i);
    }
  }

  /** An event that inserts none of the listed nodes does not change their order of recency. */
  lemma ByRecencyLater(events: seq<Event>, s: seq<Node>)
    requires events != [] && ByRecency(events[..|events| - 1], s)
    requires events[|events| - 1].Insert? ==> Lacks(s, events[|events| - 1].c.id)
    ensures ByRecency(events, s)
  {
  }

  lemma ByRecencyAppend(events: seq<Event>, s: seq<Node>, n: Node)
    requires ByRecency(events, s) && Lacks(s, n.id)
    requires events != [] && events[|events| - 1].Insert? && events[|events| - 1].c.id == n.id
    ensures ByRecency(events, s + [n])
  {
    forall i | 0 <= i < |s| ensures LastInsert(events, s[i].id) < |events| - 1 {
      LastInsertBound(events[..|events| - 1], s[i].id);
    }
  }

  /** In every reachable bucket the active nodes stand in the order in which they were last
      inserted, whatever was removed, stashed or seen in between. */
  lemma {:induction false} ActiveByRecency(events: seq<Event>)
    ensures ByRecency(events, After(events).active)
  {
    if events != [] {
      var n := |events| - 1;
      ActiveByRecency(events[..n]);
      RunValid(events[..n]);
      StepByRecency(events, After(events[..n]));
    }
  }

  lemma StepByRecency(events: seq<Event>, b: BucketState)
    requires events != [] && ValidState(b) && ByRecency(events[..|events| - 1], b.active)
    ensures ByRecency(events, Step(b, events[|events| - 1]).active)
  {
    var n := |events| - 1;
    match events[n]
    case Insert(c) => InsertByRecency(events, b, c);
    case Remove(id) =>
      WithoutByRecency(events[..n], b.active, id);
      ByRecencyLater(events, Without(b.active, id));
    case Seen(id, now) =>
      ByRecencyLater(events, Touched(b, id, now).active);
  }

  lemma InsertByRecency(events: seq<Event>, b: BucketState, c: Contact)
    requires events != [] && events[|events| - 1] == Insert(c)
    requires ValidState(b) && ByRecency(events[..|events| - 1], b.active)
    ensures ByRecency(events, Inserted(b, c).active)
  {
    InsertedIsKnown(b, c);
    var a := Inserted(b, c).active;
    if |b.active| == K && Lacks(b.active, c.id) {
      ByRecencyLater(events, b.active);
    } else {
      var rest := Without(b.active, c.id);
      WithoutKeeps(b.active, c.id);
      WithoutByRecency(events[..|events| - 1], b.active, c.id);
      ByRecencyLater(events, rest);
      ByRecencyAppend(events, rest, a[|a| - 1]);
      assert a == rest + [a[|a| - 1]];
    }
  }
}

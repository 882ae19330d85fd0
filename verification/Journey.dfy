/**
  The journey as the source has it: two parallel fixed-size lists updated in place, sorted
  with `Less` and `Swap`, and shifted down when routes are handed out.
 */
module Journey {
  import opened Ids
  import opened Options
  import opened Buckets
  import opened Packets
  import opened Journeys

  function Pairs(nodes: seq<Node>, distances: seq<int>): (r: seq<Route>)
    requires |nodes| == |distances|
    ensures |r| == |nodes|
  {
    seq(|nodes|, i requires 0 <= i < |nodes| => Route(nodes[i], distances[i]))
  }

  function Swapped(s: seq<Route>, x: nat, y: nat): seq<Route>
    requires x < |s| && y < |s|
  {
    s[x := s[y]][y := s[x]]
  }

  lemma SwappedMultiset(s: seq<Route>, x: nat, y: nat)
    requires x < |s| && y < |s|
    ensures multiset(Swapped(s, x, y)) == multiset(s)
  {
  }

  class Journey {
    const hash: Hasher
    const source: Id
    const destination: Id
    var visited: set<Hash>
    var values: set<Hash>
    var outstanding: map<Hash, int>
    const nodes: array<Node>
    const distances: array<int>
    var routes: nat
    var remaining: int
    var inflight: int
    var completed: bool

    constructor (hash: Hasher, source: Id, destination: Id, iterations: int)
      ensures fresh(nodes) && fresh(distances)
      ensures Valid() && Value() == NewJourney(source, destination, iterations) && this.hash == hash
    {
      this.hash := hash;
      this.source := source;
      this.destination := destination;
      visited, values, outstanding := {}, {}, map[];
      nodes := new Node[K](_ => Node(source, Address([], 0), 0, 0, 0, 0, false));
      distances := new int[K](_ => 0);
      routes, remaining, inflight, completed := 0, iterations, 0, false;
    }

    ghost predicate Valid()
      reads this, nodes, distances
    {
      nodes.Length == K && distances.Length == K && routes <= K && inflight >= 0
    }

    ghost function Routes(): seq<Route>
      requires Valid()
      reads this, nodes, distances
    {
      Pairs(nodes[..routes], distances[..routes])
    }

    ghost function Value(): JourneyState
      requires Valid()
      reads this, nodes, distances
    {
      JourneyState(source, destination, visited, values, outstanding, Routes(), remaining, inflight, completed)
    }

    /** Offers routes, one after the other. */
    method Add(ns: seq<Node>)
      requires Valid()
      modifies this`visited, this`routes, nodes, distances
      ensures Valid() && Value() == AddNodes(hash, old(Value()), ns)
    {
      var i := 0;
      while i < |ns|
        invariant 0 <= i <= |ns| && Valid()
        invariant Value() == AddNodes(hash, old(Value()), ns[..i])
      {
        AddOne(ns[i]);
        assert ns[..i + 1][..i] == ns[..i];
        i := i + 1;
      }
      assert ns[..i] == ns;
    }

    method AddOne(n: Node)
      requires Valid()
      modifies this`visited, this`routes, nodes, distances
      ensures Valid() && Value() == AddNode(hash, old(Value()), n)
    {
      if n.id == source {
        return;
      }
      var k := hash(n.id);
      var d := Distance(n.id, destination);
      if k in visited {
        return;
      }
      visited := visited + {k};
      if routes < K {
        nodes[routes] := n;
        distances[routes] := d;
        routes := routes + 1;
        assert Routes() == old(Routes()) + [Route(n, d)];
        return;
      }
      var i := WorseSlot(d);
      if i < K {
        visited := visited - {hash(nodes[i].id)};
        nodes[i] := n;
        distances[i] := d;
        assert Routes() == old(Routes())[i := Route(n, d)];
      }
    }

    /** The first slot of the full list that is worse than `d`, or K. */
    method WorseSlot(d: int) returns (i: nat)
      requires Valid() && routes == K
      ensures i == FirstWorse(Routes(), d) && i <= K
    {
      i := 0;
      while i < K
        invariant 0 <= i <= K
        invariant FirstWorse(Routes(), d) == i + FirstWorse(Routes()[i..], d)
      {
        assert Routes()[i..][1..] == Routes()[i + 1..];
        if distances[i] < d {
          return;
        }
        i := i + 1;
      }
    }

    method Swap(x: nat, y: nat)
      requires Valid() && x < routes && y < routes
      modifies nodes, distances
      ensures Valid() && Routes() == Swapped(old(Routes()), x, y)
    {
      nodes[x], nodes[y] := nodes[y], nodes[x];
      distances[x], distances[y] := distances[y], distances[x];
    }

    predicate LessAt(x: nat, y: nat)
      requires Valid() && x < routes && y < routes
      reads this, nodes, distances
    {
      if distances[x] != distances[y] then distances[x] > distances[y] else nodes[x].latency < nodes[y].latency
    }

    /** sort.Sort on `Len`, `Less` and `Swap`; an insertion sort stands for it. */
    method Sort()
      requires Valid()
      modifies nodes, distances
      ensures Valid() && IsSorting(old(Routes()), Routes())
    {
      var i := 1;
      while i < routes
        invariant Valid() && 1 <= i && (i <= routes || routes == 0)
        invariant multiset(Routes()) == multiset(old(Routes()))
        invariant Sorted(Routes()[..Min(i, routes)])
      {
        Sink(i);
        i := i + 1;
      }
      assert Routes()[..Min(i, routes)] == Routes();
    }

    /** Moves the route at `i` down to its place among the sorted ones before it. */
    method Sink(i: nat)
      requires Valid() && 0 < i < routes && Sorted(Routes()[..i])
      modifies nodes, distances
      ensures Valid() && multiset(Routes()) == multiset(old(Routes())) && Sorted(Routes()[..i + 1])
    {
      var j := i;
      assert Routes()[..i + 1][..i] == Routes()[..i];
      SinkStart(Routes()[..i + 1], i);
      while j > 0 && LessAt(j, j - 1)
        invariant 0 <= j <= i && Valid()
        invariant multiset(Routes()) == multiset(old(Routes()))
        invariant SortedExcept(Routes()[..i + 1], j)
      {
        SwappedMultiset(Routes(), j, j - 1);
        SinkStep(Routes()[..i + 1], j);
        ghost var before := Routes();
        Swap(j, j - 1);
        assert Routes()[..i + 1] == Swapped(before[..i + 1], j, j - 1);
        j := j - 1;
      }
      SinkDone(Routes()[..i + 1], j);
    }

    /** The next routes to try, best first; nil when the journey is over. */
    method Next(count: nat) returns (r: Option<seq<Node>>, ghost sorted: seq<Route>)
      requires Valid()
      modifies this`remaining, this`inflight, this`routes, nodes, distances
      ensures Valid() && IsSorting(old(Routes()), sorted)
      ensures Value() == NextState(old(Value()), count, sorted)
      ensures r.None? <==> Exhausted(old(Value()))
      ensures r.Some? ==> r.value == NodesOf(Handed(old(Value()), count, sorted))
    {
      if remaining == 0 || routes == 0 || completed {
        sorted := SomeSorting(Routes());
        return None, sorted;
      }
      remaining := remaining - 1;
      var available := count;
      if routes < count {
        available := routes;
      }
      inflight := inflight + available;
      Sort();
      sorted := Routes();
      r := Some(nodes[..available]);
      ShiftDown(available);
    }

    method ShiftDown(a: nat)
      requires Valid() && a <= routes
      modifies this`routes, nodes, distances
      ensures Valid() && Routes() == old(Routes())[a..]
    {
      forall i | 0 <= i < K - a { nodes[i] := nodes[i + a]; }
      forall i | 0 <= i < K - a { distances[i] := distances[i + a]; }
      routes := routes - a;
    }

    /** The sum over all senders of the values still expected. */
    method SumOutstanding() returns (sum: int)
      ensures sum == SumValues(outstanding)
    {
      sum := 0;
      var rest := outstanding;
      while rest != map[]
        invariant sum + SumValues(rest) == SumValues(outstanding)
        decreases rest.Keys
      {
        var k :| k in rest;
        SumValuesAny(rest, k);
        sum := sum + rest[k];
        rest := rest - {k};
      }
    }

    /** Marks the journey as completed; true only for the caller that does so. */
    method Finish(force: bool) returns (done: bool)
      requires Valid()
      modifies this`completed
      ensures Valid() && done == CanFinish(old(Value()), force) && Value() == FinishState(old(Value()), force)
    {
      var sum := SumOutstanding();
      if force {
        if completed {
          return false;
        }
      } else if completed || inflight > 0 || sum > 0 {
        return false;
      }
      completed := true;
      return true;
    }

    method ResponseReceived() returns (done: bool, shouldError: bool)
      requires Valid()
      modifies this`inflight
      ensures Valid() && Value() == ResponseState(old(Value()))
      ensures done == completed && shouldError == ShouldError(Value())
    {
      if inflight > 0 {
        inflight := inflight - 1;
      }
      return completed, inflight < 1 && routes < 1;
    }

    method SeenValue(value: Bytes) returns (seen: bool)
      requires Valid()
      modifies this`values
      ensures Valid() && Value() == SeenState(hash, old(Value()), value)
      ensures seen <==> hash(value) in old(values)
    {
      var vh := hash(value);
      if vh in values {
        assert values == values + {vh};
        return true;
      }
      values := values + {vh};
      return false;
    }

    method AddOutstanding(from: Bytes, n: int)
      requires Valid()
      modifies this`outstanding
      ensures Valid() && Value() == AddOutstandingState(hash, old(Value()), from, n)
    {
      var fh := hash(from);
      if fh in outstanding {
        return;
      }
      outstanding := outstanding[fh := n];
    }

    method RemoveOutstanding(from: Bytes, received: int)
      requires Valid()
      modifies this`outstanding
      ensures Valid() && Value() == RemoveOutstandingState(hash, old(Value()), from, received)
    {
      var fh := hash(from);
      outstanding := outstanding[fh := (if fh in outstanding then outstanding[fh] else 0) - received];
    }
  }

  function NodesOf(routes: seq<Route>): seq<Node> {
    seq(|routes|, i requires 0 <= i < |routes| => routes[i].node)
  }

  /** Sorted but for the element at `j`, which belongs at `j` or before. */
  ghost predicate SortedExcept(s: seq<Route>, j: nat) {
    && (forall a, b | 0 <= a < b < |s| && a != j && b != j :: !Less(s[b], s[a]))
    && (forall b | j < b < |s| :: !Less(s[b], s[j]))
  }

  lemma SinkStart(s: seq<Route>, i: nat)
    requires |s| == i + 1 && Sorted(s[..i])
    ensures SortedExcept(s, i)
  {
  }

  lemma SinkStep(s: seq<Route>, j: nat)
    requires 0 < j < |s| && SortedExcept(s, j) && Less(s[j], s[j - 1])
    ensures SortedExcept(Swapped(s, j, j - 1), j - 1)
  {
  }

  lemma SinkDone(s: seq<Route>, j: nat)
    requires j < |s| && SortedExcept(s, j) && (j > 0 ==> !Less(s[j], s[j - 1]))
    ensures Sorted(s)
  {
  }

  lemma SomeSorting(routes: seq<Route>) returns (sorted: seq<Route>)
    ensures IsSorting(routes, sorted)
  {
    sorted := [];
    var i := 0;
    while i < |routes|
      invariant 0 <= i <= |routes| && IsSorting(routes[..i], sorted)
    {
      assert routes[..i + 1] == routes[..i] + [routes[i]];
      sorted := PutInto(sorted, routes[i]);
      i := i + 1;
    }
    assert routes[..i] == routes;
  }

  lemma PutInto(s: seq<Route>, r: Route) returns (t: seq<Route>)
    requires Sorted(s)
    ensures IsSorting(s + [r], t)
  {
    var k := 0;
    while k < |s| && !Less(r, s[k])
      invariant 0 <= k <= |s| && forall a | 0 <= a < k :: !Less(r, s[a])
    {
      k := k + 1;
    }
    t := s[..k] + [r] + s[k..];
    assert s == s[..k] + s[k..];
    PutSorted(s, r, k);
  }

  lemma PutSorted(s: seq<Route>, r: Route, k: nat)
    requires Sorted(s) && k <= |s| && (forall a | 0 <= a < k :: !Less(r, s[a])) && (k < |s| ==> Less(r, s[k]))
    ensures Sorted(s[..k] + [r] + s[k..])
  {
  }
}

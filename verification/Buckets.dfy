/**
  A k-bucket: a bounded list of active nodes, least recently inserted first, and a promotion
  cache for nodes that found it full.
 */
module Buckets {
  import opened Ids
  import opened Options

  const K := 20

  /** The zero value of a timestamp. */
  const ZERO_TIME := 0

  // ---------------------------------------------------------------- node lists

  predicate DistinctIds(s: seq<Node>) {
    forall i, j | 0 <= i < j < |s| :: s[i].id != s[j].id
  }

  predicate Lacks(s: seq<Node>, id: Id) {
    forall i | 0 <= i < |s| :: s[i].id != id
  }

  /** The list without the nodes of the given id. */
  function Without(s: seq<Node>, id: Id): seq<Node> {
    if s == [] then []
    else
      var n := |s| - 1;
      Without(s[..n], id) + if s[n].id == id then [] else [s[n]]
  }

  /** The first node of the given id. */
  function Find(s: seq<Node>, id: Id): (r: Option<Node>)
    ensures r.Some? ==> r.value in s && r.value.id == id
    ensures r.None? <==> Lacks(s, id)
  {
    if s == [] then None
    else if s[0].id == id then Some(s[0])
    else
      var r := Find(s[1..], id);
      assert r.None? ==> forall i | 0 < i < |s| :: s[i].id == s[1..][i - 1].id;
      assert Lacks(s, id) ==> Lacks(s[1..], id);
      r
  }

  /** The list with the timestamp of the nodes of the given id set. */
  function Stamped(s: seq<Node>, id: Id, now: int): (r: seq<Node>)
    ensures |r| == |s|
    ensures forall i | 0 <= i < |s| :: r[i] == if s[i].id == id then s[i].(seen := now) else s[i]
  {
    seq(|s|, i requires 0 <= i < |s| => if s[i].id == id then s[i].(seen := now) else s[i])
  }

  lemma {:induction false} WithoutLacking(s: seq<Node>, id: Id)
    requires Lacks(s, id)
    ensures Without(s, id) == s
  {
    if s != [] {
      var n := |s| - 1;
      WithoutLacking(s[..n], id);
      assert s == s[..n] + [s[n]];
    }
  }

  /** With distinct ids, removing an id is cutting out its position. */
  lemma {:induction false} WithoutCut(s: seq<Node>, i: nat)
    requires DistinctIds(s) && i < |s|
    ensures Without(s, s[i].id) == s[..i] + s[i + 1..]
  {
    var n := |s| - 1;
    if i == n {
      WithoutLacking(s[..n], s[n].id);
    } else {
      WithoutCut(s[..n], i);
      assert s[..n][..i] == s[..i];
      assert s[i + 1..] == s[..n][i + 1..] + [s[n]];
    }
  }

  lemma WithoutKeeps(s: seq<Node>, id: Id)
    requires DistinctIds(s)
    ensures var w := Without(s, id);
            && DistinctIds(w) && Lacks(w, id)
            && |w| == |s| - (if Lacks(s, id) then 0 else 1)
            && forall n | n in w :: n in s
  {
    if Lacks(s, id) {
      WithoutLacking(s, id);
    } else {
      var i :| 0 <= i < |s| && s[i].id == id;
      WithoutCut(s, i);
    }
  }

  lemma {:induction false} WithoutMember(s: seq<Node>, id: Id, n: Node)
    ensures n in Without(s, id) <==> n in s && n.id != id
  {
    if s != [] {
      var k := |s| - 1;
      WithoutMember(s[..k], id, n);
      assert s == s[..k] + [s[k]];
    }
  }

  // ---------------------------------------------------------------- the bucket as a value

  datatype BucketState = BucketState(active: seq<Node>, cache: seq<Node>)

  /** Room for K nodes, no id twice in either list, and no request is ever counted as pending. */
  predicate ValidState(b: BucketState) {
    && |b.active| <= K && DistinctIds(b.active) && DistinctIds(b.cache)
    && forall n | n in b.active :: n.pending == 0
  }

  /** What a caller of `insert` supplies, and the time of the call. */
  datatype Contact = Contact(id: Id, address: Address, latency: int, testMode: bool, now: int)

  function NewNode(c: Contact, seen: int): Node {
    Node(c.id, c.address, seen, 0, c.latency, 0, c.testMode)
  }

  function Inserted(b: BucketState, c: Contact): BucketState {
    var known := Find(b.active, c.id);
    if known.Some? then
      b.(active := Without(b.active, c.id)
                   + [known.value.(seen := c.now, latency := c.latency, testMode := c.testMode)])
    else if |b.active| < K then
      b.(active := b.active + [NewNode(c, c.now)])
    else if Lacks(b.cache, c.id) then
      b.(cache := b.cache + [NewNode(c, ZERO_TIME)])
    else
      b.(cache := Stamped(b.cache, c.id, c.now))
  }

  function Removed(b: BucketState, id: Id): BucketState {
    b.(active := Without(b.active, id))
  }

  function Get(b: BucketState, id: Id): Option<Node> {
    var n := Find(b.active, id);
    if n.Some? then n else Find(b.cache, id)
  }

  function Touched(b: BucketState, id: Id, now: int): BucketState {
    if Find(b.active, id).Some? then b.(active := Stamped(b.active, id, now))
    else b.(cache := Stamped(b.cache, id, now))
  }

  // ---------------------------------------------------------------- the bucket in place

  class Bucket {
    const nodes: array<Node>
    var size: nat
    var cache: seq<Node>
    const expiry: int

    constructor ()
      ensures fresh(nodes) && Valid() && Value() == BucketState([], [])
    {
      nodes := new Node[K](_ => Node(seq(KEY_BYTES, _ => 0), Address([], 0), 0, 0, 0, 0, false));
      size := 0;
      cache := [];
      expiry := 0;
    }

    ghost function Value(): BucketState
      requires size <= nodes.Length
      reads this, nodes
    {
      BucketState(nodes[..size], cache)
    }

    ghost predicate Valid()
      reads this, nodes
    {
      nodes.Length == K && size <= K && ValidState(Value())
    }

    /** Cuts the node with the given id out of the list, shifting the later ones down. */
    method Remove(id: Id) returns (r: Option<Node>)
      requires Valid()
      modifies this`size, nodes
      ensures Valid() && Value() == Removed(old(Value()), id)
      ensures forall n: Node :: n in Value().active <==> n in old(Value()).active && n.id != id
      ensures r == Find(old(Value()).active, id)
    {
      RemovedValid(Value(), id);
      RemovedExactly(Value(), id);
      r := CutOut(id);
    }

    method CutOut(id: Id) returns (r: Option<Node>)
      requires size <= nodes.Length && DistinctIds(nodes[..size])
      modifies this`size, nodes
      ensures size <= nodes.Length && nodes[..size] == Without(old(nodes[..size]), id)
      ensures r == Find(old(nodes[..size]), id)
    {
      var i := LastIndex(id);
      RemovedAt(nodes[..size], id, i);
      if i < 0 {
        r := None;
      } else {
        r := Some(nodes[i]);
        ShiftDown(i);
      }
    }

    method LastIndex(id: Id) returns (i: int)
      requires size <= nodes.Length
      ensures -1 <= i < size
      ensures i >= 0 ==> nodes[i].id == id
      ensures forall j | i < j < size :: nodes[j].id != id
    {
      i := size - 1;
      while i >= 0
        invariant -1 <= i < size
        invariant forall j | i < j < size :: nodes[j].id != id
      {
        if nodes[i].id == id {
          return;
        }
        i := i - 1;
      }
    }

    method ShiftDown(i: nat)
      requires i < size <= nodes.Length
      modifies this`size, nodes
      ensures size == old(size) - 1
      ensures nodes[..size] == old(nodes[..i]) + old(nodes[i + 1..size])
    {
      forall j | i <= j < nodes.Length - 1 {
        nodes[j] := nodes[j + 1];
      }
      size := size - 1;
    }

    /** Inserts a node, or moves it to the end of the list if it is there already; succeeds also
        when the bucket is full. */
    method Insert(c: Contact) returns (ok: bool)
      requires Valid()
      modifies this`size, this`cache, nodes
      ensures Valid() && Value() == Inserted(old(Value()), c) && ok
    {
      InsertedValid(Value(), c);
      var rn := Remove(c.id);
      if rn.Some? {
        Append(rn.value.(seen := c.now, latency := c.latency, testMode := c.testMode));
        assert Value() == Inserted(old(Value()), c);
        return true;
      }
      WithoutLacking(old(Value()).active, c.id);
      if !Full() {
        Append(NewNode(c, c.now));
        assert Value() == Inserted(old(Value()), c);
        return true;
      }
      var stale := Stalest(c.now);
      // Nothing ever raises `pending`, so no entry is stale and the replacement branch, which
      // would write past the end of the full list, is never taken.
      if stale.Some? {
        assert false;
      }
      Stash(NewNode(c, ZERO_TIME), c.now);
      ok := true;
    }

    /** The entry to replace in a full bucket: the one with most pending requests, if it has
        more than one. The source measures age from the timestamp of the new node, which is zero. */
    method Stalest(now: int) returns (stale: Option<Node>)
      requires size <= nodes.Length
      ensures stale.Some? <==> now > ZERO_TIME + expiry && exists i :: 0 <= i < size && nodes[i].pending > 1
      ensures stale.Some? ==> stale.value in nodes[..size] && stale.value.pending > 1
      ensures stale.Some? ==> forall i | 0 <= i < size :: nodes[i].pending <= stale.value.pending
    {
      stale := None;
      var i := 0;
      while i < size
        invariant 0 <= i <= size
        invariant stale.Some? ==> now > ZERO_TIME + expiry && stale.value in nodes[..size] && stale.value.pending > 1
        invariant stale.Some? ==> forall j | 0 <= j < i :: nodes[j].pending <= stale.value.pending
        invariant stale.None? ==> now <= ZERO_TIME + expiry || forall j | 0 <= j < i :: nodes[j].pending <= 1
      {
        var en := nodes[i];
        assert nodes[..size][i] == en;
        if now > ZERO_TIME + expiry {
          if stale.None? && en.pending > 1 {
            stale := Some(en);
          } else if stale.Some? && en.pending > stale.value.pending {
            stale := Some(en);
          }
        }
        i := i + 1;
      }
    }

    method Append(n: Node)
      requires size < nodes.Length
      modifies this`size, nodes
      ensures size == old(size) + 1 && nodes[..size] == old(nodes[..size]) + [n]
    {
      nodes[size] := n;
      size := size + 1;
    }

    method Stash(n: Node, now: int)
      requires Valid()
      modifies this`cache
      ensures cache == if Lacks(old(cache), n.id) then old(cache) + [n] else Stamped(old(cache), n.id, now)
    {
      var i := 0;
      while i < |cache|
        invariant 0 <= i <= |cache| && cache == old(cache)
        invariant forall j | 0 <= j < i :: cache[j].id != n.id
      {
        if cache[i].id == n.id {
          cache := cache[i := cache[i].(seen := now)];
          assert cache == Stamped(old(cache), n.id, now);
          return;
        }
        i := i + 1;
      }
      cache := cache + [n];
    }

    /** Calls back for every active node; the callback here appends to a list. */
    method Iterate(acc: seq<Node>) returns (r: seq<Node>)
      requires size <= nodes.Length
      ensures r == acc + nodes[..size]
    {
      r := acc;
      var i := 0;
      while i < size
        invariant 0 <= i <= size && r == acc + nodes[..i]
      {
        r := r + [nodes[i]];
        i := i + 1;
      }
    }

    predicate Full()
      reads this
    {
      size == K
    }

    /** Marks a node as just seen; false if the bucket does not know it. */
    method Seen(id: Id, now: int) returns (known: bool)
      requires Valid()
      modifies this`cache, nodes
      ensures Valid() && Value() == Touched(old(Value()), id, now)
      ensures known <==> Get(old(Value()), id).Some?
    {
      ghost var before := Value();
      var i := 0;
      while i < size
        invariant 0 <= i <= size && Value() == before
        invariant forall j | 0 <= j < i :: nodes[j].id != id
      {
        if nodes[i].id == id {
          nodes[i] := nodes[i].(seen := now);
          assert Value().active == Stamped(before.active, id, now);
          return true;
        }
        i := i + 1;
      }
      i := 0;
      while i < |cache|
        invariant 0 <= i <= |cache| && Value() == before
        invariant forall j | 0 <= j < i :: cache[j].id != id
      {
        if cache[i].id == id {
          cache := cache[i := cache[i].(seen := now)];
          assert cache == Stamped(before.cache, id, now);
          return true;
        }
        i := i + 1;
      }
      assert Stamped(before.cache, id, now) == before.cache;
      return false;
    }
  }

  /** What is found and what remains when `i` is the last position of the id, or -1. */
  lemma RemovedAt(s: seq<Node>, id: Id, i: int)
    requires DistinctIds(s) && -1 <= i < |s|
    requires i >= 0 ==> s[i].id == id
    requires forall j | i < j < |s| :: s[j].id != id
    ensures Find(s, id) == if i < 0 then None else Some(s[i])
    ensures Without(s, id) == if i < 0 then s else s[..i] + s[i + 1..]
  {
    if i < 0 {
      WithoutLacking(s, id);
    } else {
      FindUnique(s, i);
      WithoutCut(s, i);
    }
  }

  lemma {:induction false} FindUnique(s: seq<Node>, i: nat)
    requires DistinctIds(s) && i < |s|
    ensures Find(s, s[i].id) == Some(s[i])
  {
  }

  // ---------------------------------------------------------------- one operation

  lemma RemovedValid(b: BucketState, id: Id)
    requires ValidState(b)
    ensures ValidState(Removed(b, id))
  {
    WithoutKeeps(b.active, id);
  }

  /** Removing cuts out exactly the node with the id, keeps the order of all others, and leaves the
      promotion cache alone. */
  lemma RemovedExactly(b: BucketState, id: Id)
    requires ValidState(b)
    ensures var r := Removed(b, id);
            && Lacks(r.active, id) && r.cache == b.cache
            && (forall n :: n in r.active <==> n in b.active && n.id != id)
            && (Lacks(b.active, id) ==> r.active == b.active)
            && (forall i | 0 <= i < |b.active| && b.active[i].id == id ::
                  r.active == b.active[..i] + b.active[i + 1..])
  {
    WithoutKeeps(b.active, id);
    forall n ensures n in Removed(b, id).active <==> n in b.active && n.id != id {
      WithoutMember(b.active, id, n);
    }
    if Lacks(b.active, id) { WithoutLacking(b.active, id); }
    forall i | 0 <= i < |b.active| && b.active[i].id == id
      ensures Without(b.active, id) == b.active[..i] + b.active[i + 1..]
    {
      WithoutCut(b.active, i);
    }
  }

  lemma InsertedValid(b: BucketState, c: Contact)
    requires ValidState(b)
    ensures ValidState(Inserted(b, c))
  {
    WithoutKeeps(b.active, c.id);
  }

  lemma TouchedValid(b: BucketState, id: Id, now: int)
    requires ValidState(b)
    ensures ValidState(Touched(b, id, now))
  {
  }
}

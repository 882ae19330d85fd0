/**
  The in-memory storage: several values per key, each value once.
 */
module Storage {
  import opened Ids
  import opened Options
  import opened Packets
  import opened Batching

  datatype Item = Item(contains: set<Hash>, values: seq<Value>)

  type Store = map<Hash, Item>

  function Inserted(h: Hasher, st: Store, v: Value): Store {
    var k, vh := h(v.key), h(v.value);
    if k !in st then st[k := Item({vh}, [v])]
    else if vh in st[k].contains then st
    else st[k := Item(st[k].contains + {vh}, st[k].values + [v])]
  }

  function AfterSets(h: Hasher, log: seq<Value>): Store {
    if log == [] then map[] else Inserted(h, AfterSets(h, log[..|log| - 1]), log[|log| - 1])
  }

  // ---------------------------------------------------------------- what is kept

  ghost predicate Fresh(h: Hasher, kept: seq<Value>, v: Value) {
    forall i | 0 <= i < |kept| :: h(kept[i].value) != h(v.value)
  }

  /** Of all values set under a key hash, the first with each value hash, in order. */
  ghost function FirstOfEach(h: Hasher, log: seq<Value>, k: Hash): seq<Value> {
    if log == [] then []
    else
      var kept, v := FirstOfEach(h, log[..|log| - 1], k), log[|log| - 1];
      if h(v.key) == k && Fresh(h, kept, v) then kept + [v] else kept
  }

  ghost predicate Indexed(h: Hasher, it: Item) {
    forall x :: x in it.contains <==> exists i :: 0 <= i < |it.values| && h(it.values[i].value) == x
  }

  /** After every sequence of `Set` calls, a key has exactly the first of each of its values. */
  lemma {:induction false} StoreKeepsFirstOfEach(h: Hasher, log: seq<Value>, k: Hash)
    ensures var st := AfterSets(h, log);
            if k in st then st[k].values == FirstOfEach(h, log, k) != [] && Indexed(h, st[k])
            else FirstOfEach(h, log, k) == []
  {
    if log != [] {
      var n := |log| - 1;
      StoreKeepsFirstOfEach(h, log[..n], k);
      var st, v := AfterSets(h, log[..n]), log[n];
      if h(v.key) == k {
        var it := if k in st then st[k] else Item({}, []);
        InsertIndexed(h, it, v);
        assert k !in st ==> it.contains + {h(v.value)} == {h(v.value)} && it.values + [v] == [v];
      }
    }
  }

  lemma InsertIndexed(h: Hasher, it: Item, v: Value)
    requires Indexed(h, it)
    ensures h(v.value) in it.contains <==> !Fresh(h, it.values, v)
    ensures Indexed(h, Item(it.contains + {h(v.value)}, it.values + [v]))
  {
    var t := Item(it.contains + {h(v.value)}, it.values + [v]);
    forall x ensures x in t.contains <==> exists i :: 0 <= i < |t.values| && h(t.values[i].value) == x {
      if x in it.contains {
        var i :| 0 <= i < |it.values| && h(it.values[i].value) == x;
        assert t.values[i] == it.values[i];
      } else if x == h(v.value) {
        assert t.values[|it.values|] == v;
      }
    }
  }

  // ---------------------------------------------------------------- get

  /** The number of values created before a time. */
  function Before(vs: seq<Value>, from: int): (n: nat)
    ensures n <= |vs|
  {
    if vs == [] then 0 else Before(vs[..|vs| - 1], from) + if vs[|vs| - 1].created < from then 1 else 0
  }

  /** The values not created before a time. */
  function Since(vs: seq<Value>, from: int): seq<Value> {
    if vs == [] then []
    else Since(vs[..|vs| - 1], from) + if vs[|vs| - 1].created < from then [] else [vs[|vs| - 1]]
  }

  /** `Get`: all values without a start time; otherwise it skips as many values as are too old. */
  function Lookup(h: Hasher, st: Store, key: Bytes, from: Option<int>): Option<seq<Value>> {
    if h(key) !in st then None
    else
      var vs := st[h(key)].values;
      if from.None? then Some(vs)
      else if Before(vs, from.value) >= |vs| then None
      else Some(vs[Before(vs, from.value)..])
  }

  /** All values that are too old come first. */
  ghost predicate OldFirst(vs: seq<Value>, from: int) {
    forall i, j | 0 <= i < j < |vs| && vs[j].created < from :: vs[i].created < from
  }

  lemma {:induction false} CountsAll(vs: seq<Value>, from: int)
    ensures |Since(vs, from)| == |vs| - Before(vs, from)
    ensures forall v | v in Since(vs, from) :: v.created >= from
    ensures Before(vs, from) == |vs| ==> forall i | 0 <= i < |vs| :: vs[i].created < from
  {
    if vs != [] { CountsAll(vs[..|vs| - 1], from); }
  }

  lemma {:induction false} OldFirstSplits(vs: seq<Value>, from: int)
    requires OldFirst(vs, from)
    ensures vs[Before(vs, from)..] == Since(vs, from)
  {
    if vs != [] {
      var n := |vs| - 1;
      if vs[n].created < from {
        assert forall i | 0 <= i < n :: vs[i].created < from;
        AllOld(vs, from);
      } else {
        OldFirstSplits(vs[..n], from);
        assert vs[Before(vs, from)..] == vs[..n][Before(vs[..n], from)..] + [vs[n]];
      }
    }
  }

  lemma {:induction false} AllOld(vs: seq<Value>, from: int)
    requires forall i | 0 <= i < |vs| :: vs[i].created < from
    ensures Before(vs, from) == |vs| && Since(vs, from) == []
  {
    if vs != [] { AllOld(vs[..|vs| - 1], from); }
  }

  lemma {:induction false} BeforeSplits(vs: seq<Value>, ws: seq<Value>, from: int)
    ensures Before(vs + ws, from) == Before(vs, from) + Before(ws, from)
  {
    if ws == [] {
      assert vs + ws == vs;
    } else {
      var n := |ws| - 1;
      BeforeSplits(vs, ws[..n], from);
      assert (vs + ws)[..|vs| + n] == vs + ws[..n];
    }
  }

  lemma {:induction false} NoneOld(vs: seq<Value>, from: int)
    requires forall i | 0 <= i < |vs| :: vs[i].created >= from
    ensures Before(vs, from) == 0
  {
    if vs != [] { NoneOld(vs[..|vs| - 1], from); }
  }

  /** Skipping the count of old values gives the values since a time if and only if the old
      ones all come first. */
  lemma SkipIsFilterIffOldFirst(vs: seq<Value>, from: int)
    ensures vs[Before(vs, from)..] == Since(vs, from) <==> OldFirst(vs, from)
  {
    if OldFirst(vs, from) {
      OldFirstSplits(vs, from);
    }
    if vs[Before(vs, from)..] == Since(vs, from) {
      SkipMeansOldFirst(vs, from, Before(vs, from));
    }
  }

  /** After every sequence of `Set` calls, asking for a key without a start time gives all that was
      kept for it, and nothing if no value was set. */
  lemma GetsFirstOfEach(h: Hasher, log: seq<Value>, key: Bytes)
    ensures var kept := FirstOfEach(h, log, h(key));
            Lookup(h, AfterSets(h, log), key, None) == if kept == [] then None else Some(kept)
  {
    StoreKeepsFirstOfEach(h, log, h(key));
  }

  /** Asked with a start time it answers if and only if a kept value is not too old, with as many
      values as are not; they are these values if and only if the old ones were set first. */
  lemma GetsSinceIff(h: Hasher, log: seq<Value>, key: Bytes, from: int)
    ensures var kept := FirstOfEach(h, log, h(key));
            var due := Since(kept, from);
            var got := Lookup(h, AfterSets(h, log), key, Some(from));
            && (got.None? <==> due == [])
            && (got.Some? ==> |got.value| == |due|)
            && (got == (if due == [] then None else Some(due)) <==> OldFirst(kept, from))
  {
    var kept := FirstOfEach(h, log, h(key));
    StoreKeepsFirstOfEach(h, log, h(key));
    CountsAll(kept, from);
    SkipIsFilterIffOldFirst(kept, from);
  }

  /** Two values under one key, the older one set later: asked for what is not before the newer
      one's time, the store gives the older one and leaves the newer one out. */
  lemma LateOldValueIsReturned(h: Hasher, v: Value, w: Value)
    requires v.key == w.key && h(v.value) != h(w.value) && w.created < v.created
    ensures AfterSets(h, [v, w])[h(v.key)].values == [v, w] && !OldFirst([v, w], v.created)
    ensures Lookup(h, AfterSets(h, [v, w]), v.key, Some(v.created)) == Some([w])
  {
    assert [v, w][..1] == [v] && [v][..0] == [];
    assert AfterSets(h, [v]) == map[h(v.key) := Item({h(v.value)}, [v])];
    assert [v] + [w] == [v, w];
    assert Before([], v.created) == 0 && Before([v], v.created) == 0;
    assert Before([v, w], v.created) == 1;
  }

  lemma SkipMeansOldFirst(vs: seq<Value>, from: int, k: nat)
    requires k == Before(vs, from) && vs[k..] == Since(vs, from)
    ensures OldFirst(vs, from)
  {
    CountsAll(vs, from);
    assert forall v | v in vs[k..] :: v.created >= from;
    assert vs == vs[..k] + vs[k..];
    FrontIsOld(vs[..k], vs[k..], from);
    OldThenNew(vs[..k], vs[k..], from);
  }

  lemma OldThenNew(front: seq<Value>, back: seq<Value>, from: int)
    requires forall i | 0 <= i < |front| :: front[i].created < from
    requires forall v | v in back :: v.created >= from
    ensures OldFirst(front + back, from)
  {
  }

  /** If there are as many old values as the front has, and none in the back, they are the front. */
  lemma FrontIsOld(front: seq<Value>, back: seq<Value>, from: int)
    requires Before(front + back, from) == |front|
    requires forall v | v in back :: v.created >= from
    ensures forall i | 0 <= i < |front| :: front[i].created < from
  {
    NoneOld(back, from);
    BeforeSplits(front, back, from);
    CountsAll(front, from);
  }

  // ---------------------------------------------------------------- in place

  class Memory {
    const hash: Hasher
    var store: Store
    /** Everything passed to `Set`. */
    ghost var log: seq<Value>

    constructor (hash: Hasher)
      ensures Valid() && this.hash == hash && log == []
    {
      this.hash := hash;
      store := map[];
      log := [];
    }

    ghost predicate Valid()
      reads this
    {
      store == AfterSets(hash, log)
    }

    /** Stores a value, unless its key has it already; succeeds in either case. */
    method Set(v: Value) returns (ok: bool)
      requires Valid()
      modifies this
      ensures Valid() && log == old(log) + [v] && ok
    {
      ghost var before := log;
      log := log + [v];
      assert log[..|log| - 1] == before;
      var k := hash(v.key);
      var vh := hash(v.value);
      if k in store {
        var it := store[k];
        if vh in it.contains {
          return true;
        }
        store := store[k := Item(it.contains + {vh}, it.values + [v])];
        return true;
      }
      store := store[k := Item({vh}, [v])];
      ok := true;
    }

    /** The values kept for the key, or those after as many as are too old. */
    method Get(key: Bytes, from: Option<int>) returns (r: Option<seq<Value>>)
      requires Valid()
      ensures r == Lookup(hash, store, key, from)
      ensures var kept := FirstOfEach(hash, log, hash(key));
              var due := if from.None? then kept else Since(kept, from.value);
              && (r.None? <==> due == [])
              && (from.None? || OldFirst(kept, from.value) ==> r == if due == [] then None else Some(due))
    {
      r := Search(key, from);
      GetsFirstOfEach(hash, log, key);
      if from.Some? { GetsSinceIff(hash, log, key, from.value); }
    }

    method Search(key: Bytes, from: Option<int>) returns (r: Option<seq<Value>>)
      ensures r == Lookup(hash, store, key, from)
    {
      var k := hash(key);
      if k !in store {
        return None;
      }
      var vs := store[k].values;
      if from.None? {
        return Some(vs);
      }
      var index, i := 0, 0;
      while i < |vs|
        invariant 0 <= i <= |vs| && index == Before(vs[..i], from.value)
      {
        assert vs[..i + 1][..i] == vs[..i];
        if vs[i].created < from.value {
          index := index + 1;
        }
        i := i + 1;
      }
      assert vs[..i] == vs;
      if index >= |vs| {
        return None;
      }
      return Some(vs[index..]);
    }
  }
}

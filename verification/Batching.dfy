/**
  How a responder splits a list of values into response events.
 */
module Batching {
  import opened Ids

  const MAX_EVENT_SIZE := 65024

  /** The overhead the source assumes for the data in a value table. */
  const VALUE_OVERHEAD := 50

  datatype Value = Value(key: Bytes, value: Bytes, ttl: int, created: int)

  function ValueSize(v: Value): nat {
    |v.key| + |v.value| + VALUE_OVERHEAD
  }

  function Size(vs: seq<Value>): nat {
    if vs == [] then 0 else Size(vs[..|vs| - 1]) + ValueSize(vs[|vs| - 1])
  }

  function Flatten(batches: seq<seq<Value>>): seq<Value> {
    if batches == [] then [] else batches[0] + Flatten(batches[1..])
  }

  /** The batches cut from `vs`, with `current` already collected. */
  function BatchesFrom(current: seq<Value>, vs: seq<Value>): seq<seq<Value>>
    decreases |vs|
  {
    if vs == [] then (if current == [] then [] else [current])
    else if Size(current) >= MAX_EVENT_SIZE then [current] + BatchesFrom([vs[0]], vs[1..])
    else BatchesFrom(current + [vs[0]], vs[1..])
  }

  function Batches(vs: seq<Value>): seq<seq<Value>> {
    BatchesFrom([], vs)
  }

  // ---------------------------------------------------------------- what the batches are

  /** Not empty, and full only with its last value. */
  ghost predicate Tight(b: seq<Value>) {
    b != [] && Size(b[..|b| - 1]) < MAX_EVENT_SIZE
  }

  /** The batches are exactly the values in order, each one closed as soon as it is full. */
  ghost predicate IsBatching(vs: seq<Value>, batches: seq<seq<Value>>) {
    && Flatten(batches) == vs
    && (forall i | 0 <= i < |batches| :: Tight(batches[i]))
    && (forall i | 0 <= i < |batches| - 1 :: Size(batches[i]) >= MAX_EVENT_SIZE)
  }

  lemma IsBatchingCons(b: seq<Value>, vs: seq<Value>, rest: seq<seq<Value>>)
    requires Tight(b) && Size(b) >= MAX_EVENT_SIZE && IsBatching(vs, rest)
    ensures IsBatching(b + vs, [b] + rest)
  {
  }

  lemma {:induction false} BatchesFromAre(current: seq<Value>, vs: seq<Value>)
    requires current == [] || Tight(current)
    ensures IsBatching(current + vs, BatchesFrom(current, vs))
    decreases |vs|
  {
    if vs == [] {
      if current != [] {
        assert [current][1..] == [];
        assert Flatten([current]) == current + Flatten([]);
      }
    } else if Size(current) >= MAX_EVENT_SIZE {
      var b := [vs[0]];
      assert b[..0] == [];
      BatchesFromAre(b, vs[1..]);
      assert b + vs[1..] == vs;
      IsBatchingCons(current, vs, BatchesFrom(b, vs[1..]));
    } else {
      var c := current + [vs[0]];
      assert c[..|c| - 1] == current;
      BatchesFromAre(c, vs[1..]);
      assert c + vs[1..] == current + vs;
    }
  }

  /** The batches are non-empty, concatenate to exactly the values, and each is closed by the
      first value that fills it. */
  lemma BatchesAre(vs: seq<Value>)
    ensures IsBatching(vs, Batches(vs))
  {
    BatchesFromAre([], vs);
    assert [] + vs == vs;
  }

  /** There is only one such division. */
  lemma {:induction false} BatchingUnique(vs: seq<Value>, a: seq<seq<Value>>, b: seq<seq<Value>>)
    requires IsBatching(vs, a) && IsBatching(vs, b)
    ensures a == b
    decreases |a|
  {
    if a == [] || b == [] {
      assert a == [] && b == [];
    } else {
      FirstBatch(a[0], Flatten(a[1..]), b[0], Flatten(b[1..]), |a| > 1, |b| > 1);
      assert IsBatching(Flatten(a[1..]), a[1..]) && IsBatching(Flatten(b[1..]), b[1..]);
      BatchingUnique(Flatten(a[1..]), a[1..], b[1..]);
      assert a == [a[0]] + a[1..] && b == [b[0]] + b[1..];
    }
  }

  lemma {:induction false} SizeMonotone(b: seq<Value>, n: nat)
    requires n <= |b|
    ensures Size(b[..n]) <= Size(b)
    decreases |b| - n
  {
    if n < |b| {
      SizeMonotone(b, n + 1);
      assert b[..n + 1][..n] == b[..n];
    } else {
      assert b[..n] == b;
    }
  }

  /** Two ways to cut a first batch off the same values agree. */
  lemma FirstBatch(x: seq<Value>, xs: seq<Value>, y: seq<Value>, ys: seq<Value>, more: bool, more': bool)
    requires x + xs == y + ys && Tight(x) && Tight(y)
    requires if more then Size(x) >= MAX_EVENT_SIZE else xs == []
    requires if more' then Size(y) >= MAX_EVENT_SIZE else ys == []
    ensures x == y && xs == ys
  {
    var all := x + xs;
    assert x == all[..|x|] && y == all[..|y|];
    if |x| < |y| {
      assert y[..|y| - 1][..|x|] == x;
      SizeMonotone(y[..|y| - 1], |x|);
    } else if |y| < |x| {
      assert x[..|x| - 1][..|y|] == y;
      SizeMonotone(x[..|x| - 1], |y|);
    }
    assert xs == all[|x|..] && ys == all[|y|..];
  }

  // ---------------------------------------------------------------- how large a batch gets

  /** Values under keys of the store's length, of at most `bound` bytes with their overhead. */
  ghost predicate Bounded(vs: seq<Value>, bound: nat) {
    forall v | v in vs :: |v.key| == KEY_BYTES && ValueSize(v) <= bound
  }

  /** Every batch, with `overhead` bytes of the event around it, has at most `limit` bytes. */
  ghost predicate BatchesFit(bound: nat, overhead: nat, limit: nat) {
    forall vs, b | Bounded(vs, bound) && b in Batches(vs) :: Size(b) + overhead <= limit
  }

  lemma {:induction false} FlattenMember(batches: seq<seq<Value>>, b: seq<Value>, v: Value)
    requires b in batches && v in b
    ensures v in Flatten(batches)
  {
    if batches[0] != b { FlattenMember(batches[1..], b, v); }
  }

  /** The smallest size of a value, empty under a key of the store's length. */
  const MIN_VALUE_SIZE := KEY_BYTES + VALUE_OVERHEAD

  /** The size of the largest batch of values of at most `bound` bytes: the largest size at which a
      batch is still open, and one more value. Empty values alone do not reach that size. */
  function LargestBatch(bound: nat): nat {
    if bound < MIN_VALUE_SIZE then 0
    else if bound == MIN_VALUE_SIZE then 793 * 82
    else MAX_EVENT_SIZE - 1 + bound
  }

  lemma BatchSize(vs: seq<Value>, bound: nat, b: seq<Value>)
    requires Bounded(vs, bound) && b in Batches(vs)
    ensures bound >= MIN_VALUE_SIZE && Size(b) <= LargestBatch(bound)
  {
    BatchesAre(vs);
    assert Tight(b);
    forall v | v in b ensures |v.key| == KEY_BYTES && ValueSize(v) <= bound {
      FlattenMember(Batches(vs), b, v);
    }
    assert b[|b| - 1] in b;
    if bound == MIN_VALUE_SIZE {
      EmptyValues(b);
      EmptyValues(b[..|b| - 1]);
    }
  }

  lemma {:induction false} EmptyValues(vs: seq<Value>)
    requires Bounded(vs, MIN_VALUE_SIZE)
    ensures Size(vs) == 82 * |vs|
  {
    if vs != [] {
      assert vs[|vs| - 1] in vs;
      EmptyValues(vs[..|vs| - 1]);
    }
  }

  function Sized(n: nat): (v: Value)
    requires n >= MIN_VALUE_SIZE
    ensures |v.key| == KEY_BYTES && ValueSize(v) == n
  {
    Value(seq(KEY_BYTES, _ => 0), seq(n - MIN_VALUE_SIZE, _ => 0), 0, 0)
  }

  /** `k` empty values, the first `longer` of them one byte longer. */
  lemma {:induction false} Small(k: nat, longer: nat) returns (vs: seq<Value>)
    ensures Bounded(vs, if longer == 0 then MIN_VALUE_SIZE else MIN_VALUE_SIZE + 1)
    ensures Size(vs) == 82 * k + if k < longer then k else longer
  {
    vs := [];
    if k > 0 {
      var rest := Small(k - 1, longer);
      var v := Sized(if k <= longer then MIN_VALUE_SIZE + 1 else MIN_VALUE_SIZE);
      SizeSnoc(rest, v);
      vs := rest + [v];
    }
  }

  /** 792 values that just do not fill a batch, and one more of the given size. */
  lemma Filling(last: nat, bound: nat) returns (vs: seq<Value>)
    requires MIN_VALUE_SIZE < bound && MIN_VALUE_SIZE <= last <= bound
    ensures Bounded(vs, bound) && Batches(vs) == [vs] && Size(vs) == MAX_EVENT_SIZE - 1 + last
  {
    var rest := Small(792, 79);
    vs := rest + [Sized(last)];
    SizeSnoc(rest, Sized(last));
    OneBatch(vs);
  }

  /** 793 empty values. */
  lemma FillingEmpty() returns (vs: seq<Value>)
    ensures Bounded(vs, MIN_VALUE_SIZE) && Batches(vs) == [vs] && Size(vs) == LargestBatch(MIN_VALUE_SIZE)
  {
    var rest := Small(792, 0);
    vs := rest + [Sized(MIN_VALUE_SIZE)];
    SizeSnoc(rest, Sized(MIN_VALUE_SIZE));
    OneBatch(vs);
  }

  lemma OneBatch(vs: seq<Value>)
    requires Tight(vs)
    ensures Batches(vs) == [vs]
  {
    assert [vs][1..] == [] && Flatten([vs]) == vs + Flatten([vs][1..]);
    BatchesAre(vs);
    BatchingUnique(vs, Batches(vs), [vs]);
  }

  /** The size is tested before a value is appended. So batches of values of up to `bound` bytes stay
      within a limit if and only if the largest one does. */
  lemma BatchesFitIff(bound: nat, overhead: nat, limit: nat)
    ensures BatchesFit(bound, overhead, limit)
            <==> bound < MIN_VALUE_SIZE || LargestBatch(bound) + overhead <= limit
  {
    if bound < MIN_VALUE_SIZE || LargestBatch(bound) + overhead <= limit {
      forall vs, b | Bounded(vs, bound) && b in Batches(vs) ensures Size(b) + overhead <= limit {
        BatchSize(vs, bound, b);
      }
    } else if bound == MIN_VALUE_SIZE {
      var vs := FillingEmpty();
      assert vs in Batches(vs);
    } else {
      var vs := Filling(bound, bound);
      assert vs in Batches(vs);
    }
  }

  // ---------------------------------------------------------------- the loops

  lemma BatchesFromCons(current: seq<Value>, v: Value, rest: seq<Value>)
    ensures BatchesFrom(current, [v] + rest) ==
            if Size(current) >= MAX_EVENT_SIZE then [current] + BatchesFrom([v], rest)
            else BatchesFrom(current + [v], rest)
  {
  }

  lemma SizeSnoc(vs: seq<Value>, v: Value)
    ensures Size(vs + [v]) == Size(vs) + ValueSize(v)
  {
  }

  /** The found branch of `findValue`: sends the stored values batch by batch, each with the
      total announced. The first `writes` writes succeed; the next one, if any, fails and ends it. */
  method SendFound(vs: seq<Value>, writes: nat) returns (sent: seq<seq<Value>>, err: bool)
    ensures err <==> |Batches(vs)| > writes
    ensures sent == if err then Batches(vs)[..writes] else Batches(vs)
  {
    sent, err := [], false;
    var values: seq<Value> := [];
    var size := 0;
    var i := 0;
    assert vs[0..] == vs;
    while i < |vs|
      invariant 0 <= i <= |vs| && size == Size(values) && |sent| <= writes
      invariant Batches(vs) == sent + BatchesFrom(values, vs[i..])
    {
      assert vs[i..] == [vs[i]] + vs[i + 1..];
      BatchesFromCons(values, vs[i], vs[i + 1..]);
      if size >= MAX_EVENT_SIZE {
        if |sent| == writes {
          return sent, true;
        }
        sent := sent + [values];
        values := [];
        size := 0;
      }
      SizeSnoc(values, vs[i]);
      values := values + [vs[i]];
      size := size + |vs[i].key| + |vs[i].value| + 50;
      i := i + 1;
    }
    if |values| > 0 {
      if |sent| == writes {
        return sent, true;
      }
      sent := sent + [values];
    }
  }

  /** The values `transferKeys` sends to a new node: all of them in a small network, otherwise
      those closer to the node than to us. */
  function Transferred(vs: seq<Value>, local: Id, id: Id, all: bool): seq<Value>
    requires forall v | v in vs :: |v.key| == KEY_BYTES
  {
    if vs == [] then []
    else
      (if all || PrefixLen(id, vs[0].key) > PrefixLen(local, vs[0].key) then [vs[0]] else [])
      + Transferred(vs[1..], local, id, all)
  }

  lemma TransferredFirst(vs: seq<Value>, i: nat, local: Id, id: Id, all: bool)
    requires i < |vs| && forall v | v in vs :: |v.key| == KEY_BYTES
    ensures Transferred(vs[i..], local, id, all) ==
            if all || PrefixLen(id, vs[i].key) > PrefixLen(local, vs[i].key)
            then [vs[i]] + Transferred(vs[i + 1..], local, id, all)
            else Transferred(vs[i + 1..], local, id, all)
  {
  }

  /** A value is sent to a new node if and only if the network is small or its key shares more leading
      bits with the node than with us, and then as often as it is stored. */
  lemma {:induction false} TransferredIff(vs: seq<Value>, local: Id, id: Id, all: bool, v: Value)
    requires forall v | v in vs :: |v.key| == KEY_BYTES
    ensures var sent := multiset(Transferred(vs, local, id, all))[v];
            if v in vs && (all || PrefixLen(id, v.key) > PrefixLen(local, v.key)) then sent == multiset(vs)[v]
            else sent == 0
  {
    if vs != [] {
      assert vs == [vs[0]] + vs[1..];
      TransferredIff(vs[1..], local, id, all, v);
    }
  }

  /** Sends a new node its values in store requests, every request succeeding. */
  method TransferKeys(vs: seq<Value>, local: Id, id: Id, all: bool) returns (sent: seq<seq<Value>>)
    requires forall v | v in vs :: |v.key| == KEY_BYTES
    ensures sent == Batches(Transferred(vs, local, id, all))
  {
    sent := [];
    var values: seq<Value> := [];
    var size := 0;
    var i := 0;
    assert vs[0..] == vs;
    while i < |vs|
      invariant 0 <= i <= |vs| && size == Size(values)
      invariant Batches(Transferred(vs, local, id, all))
                == sent + BatchesFrom(values, Transferred(vs[i..], local, id, all))
    {
      TransferredFirst(vs, i, local, id, all);
      var d1 := Distance(local, vs[i].key);
      var d2 := Distance(id, vs[i].key);
      if all || d2 > d1 {
        sent, values, size := Collect(sent, values, size, vs[i], Transferred(vs[i + 1..], local, id, all));
      }
      i := i + 1;
    }
    if |values| > 0 {
      sent := sent + [values];
    }
  }

  /** Appends a value, after sending what has been collected if that is a full batch. */
  method Collect(sent: seq<seq<Value>>, values: seq<Value>, size: nat, v: Value, ghost rest: seq<Value>)
    returns (sent': seq<seq<Value>>, values': seq<Value>, size': nat)
    requires size == Size(values)
    ensures size' == Size(values')
    ensures sent' + BatchesFrom(values', rest) == sent + BatchesFrom(values, [v] + rest)
  {
    TakeOne(sent, values, v, rest);
    sent', values', size' := sent, values, size;
    if size >= MAX_EVENT_SIZE {
      sent', values', size' := sent + [values], [], 0;
    }
    values' := values' + [v];
    size' := size' + |v.key| + |v.value| + 50;
  }

  /** One turn of the loop: the batch is sent if it is full, and the value appended. */
  lemma TakeOne(sent: seq<seq<Value>>, values: seq<Value>, v: Value, rest: seq<Value>)
    ensures Size([] + [v]) == ValueSize(v) && Size(values + [v]) == Size(values) + ValueSize(v)
    ensures sent + BatchesFrom(values, [v] + rest) ==
            if Size(values) >= MAX_EVENT_SIZE then sent + [values] + BatchesFrom([] + [v], rest)
            else sent + BatchesFrom(values + [v], rest)
  {
    BatchesFromCons(values, v, rest);
    SizeSnoc(values, v);
    SizeSnoc([], v);
    assert [] + [v] == [v];
  }
}

/**
  The sending side of a listener: fragments are collected in a fixed batch that is handed to
  the socket when it is full or when the flush timer fires.
 */
module WriteQueue {
  import opened Ids
  import opened Options
  import opened Packets
  import PacketManager

  datatype Datagram = Datagram(to: Address, bytes: Bytes)

  /** What has been handed to the socket, and what waits in the batch. */
  datatype Queue = Queue(sent: seq<Datagram>, pending: seq<Datagram>)

  function Flushed(q: Queue): Queue {
    Queue(q.sent + q.pending, [])
  }

  function Push(q: Queue, d: Datagram): Queue {
    q.(pending := q.pending + [d])
  }

  /** Queues the frames one by one, flushing a batch of `capacity` whenever it is full. The
      first `flushes` socket writes succeed; if a further one is needed it fails, and the
      rest of the frames are dropped. */
  function WriteFrames(q: Queue, to: Address, frames: seq<Bytes>, capacity: nat, flushes: nat): (r: (Queue, bool))
    decreases |frames|
  {
    if frames == [] then (q, false)
    else
      var p := Push(q, Datagram(to, frames[0]));
      if |p.pending| < capacity then WriteFrames(p, to, frames[1..], capacity, flushes)
      else if flushes == 0 then (p, true)
      else WriteFrames(Flushed(p), to, frames[1..], capacity, flushes - 1)
  }

  class Sender {
    const manager: PacketManager.Manager
    const batch: array<Datagram>
    var batchSize: nat
    ghost var sent: seq<Datagram>

    constructor (manager: PacketManager.Manager, batchLen: nat)
      requires batchLen > 0
      ensures this.manager == manager && fresh(batch) && batch.Length == batchLen
      ensures Valid() && State() == Queue([], [])
    {
      this.manager := manager;
      batch := new Datagram[batchLen](_ => Datagram(Address([], 0), []));
      batchSize := 0;
      sent := [];
    }

    /** Between calls there is always room for one more fragment. */
    ghost predicate Valid()
      reads this
    {
      batchSize < batch.Length
    }

    ghost function State(): Queue
      requires batchSize <= batch.Length
      reads this, batch
    {
      Queue(sent, batch[..batchSize])
    }

    /** Hands the batch to the socket. `ok` is the socket's answer; a failed write keeps the batch. */
    method Flush(ok: bool) returns (err: bool)
      requires batchSize <= batch.Length && batch.Length > 0
      modifies this`batchSize, this`sent
      ensures err <==> !ok && old(batchSize) > 0
      ensures batchSize == if err then old(batchSize) else 0
      ensures State() == if err then old(State()) else Flushed(old(State()))
    {
      if batchSize < 1 {
        assert Flushed(State()) == State();
        return false;
      }
      if !ok {
        return true;
      }
      sent := sent + batch[..batchSize];
      batchSize := 0;
      return false;
    }

    /** Fragments the message and queues every fragment. */
    method Write(to: Address, id: Id, data: Bytes, flushes: nat) returns (err: bool)
      requires Valid() && manager.Valid() && |data| <= MAX_FRAGMENTED
      modifies this`batchSize, this`sent, batch, manager`pool, manager`owner, manager.pool, manager.owner.Keys
      ensures manager.Valid() && manager.Model() == old(manager.Model())
      ensures batchSize <= batch.Length && (err <==> !Valid())
      ensures (State(), err) == WriteFrames(old(State()), to, Fragments(id, data), batch.Length, flushes)
    {
      var p := manager.Fragment(id, data);
      err := WriteOwned(to, p, Fragments(id, data), flushes);
      manager.Done(p);
    }

    /** Reading the packet out leaves everything under reassembly alone. */
    method WriteOwned(to: Address, p: PacketManager.Packet, ghost frames: seq<Bytes>, flushes: nat) returns (err: bool)
      requires Valid() && manager.Valid() && manager.Outside(p) && manager.Owned(p)
      requires p.pos == 0 && PacketManager.ReadsAs(p.buf[..], p.len, frames)
      modifies this`batchSize, this`sent, batch, p`pos
      ensures manager.Valid() && manager.Model() == old(manager.Model())
      ensures batchSize <= batch.Length && (err <==> !Valid())
      ensures (State(), err) == WriteFrames(old(State()), to, frames, batch.Length, flushes)
    {
      err := WriteAll(to, p, frames, flushes);
      assert forall k | k in manager.packets :: manager.packets[k] in manager.packets.Values;
    }

    /** The loop of the source's `write`: takes fragments from the packet until it has none left. */
    method WriteAll(to: Address, p: PacketManager.Packet, ghost frames: seq<Bytes>, flushes: nat) returns (err: bool)
      requires Valid() && p.pos == 0 && PacketManager.ReadsAs(p.buf[..], p.len, frames)
      modifies this`batchSize, this`sent, batch, p`pos
      ensures batchSize <= batch.Length && (err <==> !Valid())
      ensures (State(), err) == WriteFrames(old(State()), to, frames, batch.Length, flushes)
    {
      var left := flushes;
      ghost var i := 0;
      assert frames[0..] == frames;
      var f := NextPiece(p, frames, i);
      while f.Some?
        invariant Valid() && i <= |frames| && PacketManager.ReadsAs(p.buf[..], p.len, frames)
        invariant WriteFrames(State(), to, frames[i..], batch.Length, left)
                  == WriteFrames(old(State()), to, frames, batch.Length, flushes)
        invariant p.pos == Min(MAX_PACKET_SIZE * (i + if f.Some? then 1 else 0), p.len)
        invariant f == if i < |frames| then Some(frames[i]) else None
        decreases |frames| - i
      {
        assert frames[i..][1..] == frames[i + 1..];
        err, left := Enqueue(to, f.value, left);
        if err {
          return;
        }
        i := i + 1;
        f := NextPiece(p, frames, i);
      }
      err := false;
    }

    /** Puts one fragment in the batch and flushes the batch if that fills it. */
    method Enqueue(to: Address, f: Bytes, flushes: nat) returns (err: bool, left: nat)
      requires Valid()
      modifies this`batchSize, this`sent, batch
      ensures batchSize <= batch.Length && (err <==> !Valid())
      ensures var p, full := Push(old(State()), Datagram(to, f)), old(batchSize) + 1 == batch.Length;
              && (err <==> full && flushes == 0)
              && (!err ==> left == if full then flushes - 1 else flushes)
              && State() == if full && !err then Flushed(p) else p
    {
      batch[batchSize] := Datagram(to, f);
      batchSize := batchSize + 1;
      err, left := false, flushes;
      if batchSize >= batch.Length {
        err := Flush(flushes > 0);
        if !err {
          left := left - 1;
        }
      }
    }

    method NextPiece(p: PacketManager.Packet, ghost frames: seq<Bytes>, ghost i: nat) returns (f: Option<Bytes>)
      requires i <= |frames| && PacketManager.ReadsAs(p.buf[..], p.len, frames)
      requires p.pos == Min(MAX_PACKET_SIZE * i, p.len)
      modifies p`pos
      ensures p.pos == Min(MAX_PACKET_SIZE * (i + if f.Some? then 1 else 0), p.len)
      ensures f == if i < |frames| then Some(frames[i]) else None
    {
      f := p.Next();
    }
  }

  // ---------------------------------------------------------------- first in, first out

  function Addressed(to: Address, frames: seq<Bytes>): (r: seq<Datagram>)
    ensures |r| == |frames|
  {
    seq(|frames|, i requires 0 <= i < |frames| => Datagram(to, frames[i]))
  }

  /** How many frames are queued before the write fails, if it does. */
  function Accepted(pending: nat, frames: nat, capacity: nat, flushes: nat): nat
    requires pending < capacity
  {
    if pending + frames >= capacity * (flushes + 1) then capacity * (flushes + 1) - pending else frames
  }

  lemma AcceptedStep(pending: nat, frames: nat, capacity: nat, flushes: nat)
    requires pending < capacity && frames > 0
    ensures 0 < Accepted(pending, frames, capacity, flushes) <= frames
    ensures pending + 1 < capacity ==>
              Accepted(pending, frames, capacity, flushes) == 1 + Accepted(pending + 1, frames - 1, capacity, flushes)
    ensures pending + 1 == capacity ==>
              Accepted(pending, frames, capacity, flushes)
              == 1 + if flushes == 0 then 0 else Accepted(0, frames - 1, capacity, flushes - 1)
  {
  }

  /** A write fails exactly when it needs one more socket write than succeeds. Then the batch
      is left full; otherwise there is room in it. */
  lemma {:induction false} WriteFails(q: Queue, to: Address, frames: seq<Bytes>, capacity: nat, flushes: nat)
    requires |q.pending| < capacity
    ensures var (w, err) := WriteFrames(q, to, frames, capacity, flushes);
            && (err <==> |q.pending| + |frames| >= capacity * (flushes + 1))
            && (if err then |w.pending| == capacity else |w.pending| < capacity)
    decreases |frames|
  {
    assert capacity * (flushes + 1) == capacity * flushes + capacity;
    if frames != [] {
      var p := Push(q, Datagram(to, frames[0]));
      if |p.pending| < capacity {
        WriteFails(p, to, frames[1..], capacity, flushes);
      } else if flushes > 0 {
        WriteFails(Flushed(p), to, frames[1..], capacity, flushes - 1);
      }
    }
  }

  /** A write appends the frames it accepts in order, whatever the flushing pattern: all of
      them when it succeeds, a prefix when it fails. */
  lemma {:induction false} WriteIsFifo(q: Queue, to: Address, frames: seq<Bytes>, capacity: nat, flushes: nat)
    requires |q.pending| < capacity
    ensures 0 <= Accepted(|q.pending|, |frames|, capacity, flushes) <= |frames|
    ensures var w := WriteFrames(q, to, frames, capacity, flushes).0;
            w.sent + w.pending
            == q.sent + q.pending + Addressed(to, frames[..Accepted(|q.pending|, |frames|, capacity, flushes)])
    decreases |frames|
  {
    var n := Accepted(|q.pending|, |frames|, capacity, flushes);
    if frames == [] {
      assert capacity * (flushes + 1) == capacity * flushes + capacity;
      assert q.sent + q.pending + Addressed(to, []) == q.sent + q.pending;
    } else {
      AcceptedStep(|q.pending|, |frames|, capacity, flushes);
      AddressedCons(to, frames, n);
      var d, rest := Datagram(to, frames[0]), frames[1..];
      var p := Push(q, d);
      Regroup(q, d, Addressed(to, rest[..n - 1]));
      if |p.pending| < capacity {
        WriteIsFifo(p, to, rest, capacity, flushes);
      } else if flushes > 0 {
        WriteIsFifo(Flushed(p), to, rest, capacity, flushes - 1);
      }
    }
  }

  lemma Regroup(q: Queue, d: Datagram, rest: seq<Datagram>)
    ensures var p := Push(q, d);
            && p.sent + p.pending + rest == q.sent + q.pending + ([d] + rest)
            && Flushed(p).sent + Flushed(p).pending == p.sent + p.pending
  {
  }

  lemma AddressedCons(to: Address, frames: seq<Bytes>, n: nat)
    requires 0 < n <= |frames|
    ensures Addressed(to, frames[..n]) == [Datagram(to, frames[0])] + Addressed(to, frames[1..][..n - 1])
  {
  }
}

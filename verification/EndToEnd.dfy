/**
  A sender's write queue composed with a receiver's reassembly: any run of writes and timer
  flushes, any reordering on the way.
 */
module EndToEnd {
  import opened Ids
  import opened Options
  import opened Packets
  import opened RoundTrip
  import opened WriteQueue

  /** What can happen to the queue: a message is written to a peer, or the flush timer fires. */
  datatype Event = Write(to: Address, msg: Message) | Tick

  /** The queue after a run in which every socket write succeeds. */
  function Outgoing(events: seq<Event>, capacity: nat): Queue {
    if events == [] then Queue([], [])
    else
      var q := Outgoing(events[..|events| - 1], capacity);
      match events[|events| - 1]
      case Write(to, m) =>
        var frames := Fragments(m.id, m.data);
        WriteFrames(q, to, frames, capacity, |frames|).0
      case Tick => Flushed(q)
  }

  /** All fragments of all messages, in the order of the writes. */
  function Log(events: seq<Event>): seq<Datagram> {
    if events == [] then []
    else
      var log := Log(events[..|events| - 1]);
      match events[|events| - 1]
      case Write(to, m) => log + Addressed(to, Fragments(m.id, m.data))
      case Tick => log
  }

  /** The queue neither loses, duplicates nor reorders anything, and always has room between calls. */
  lemma {:induction false} QueueIsLossless(events: seq<Event>, capacity: nat)
    requires capacity > 0
    ensures var q := Outgoing(events, capacity);
            q.sent + q.pending == Log(events) && |q.pending| < capacity
  {
    if events != [] {
      var rest := events[..|events| - 1];
      QueueIsLossless(rest, capacity);
      var q := Outgoing(rest, capacity);
      match events[|events| - 1]
      case Write(to, m) =>
        var frames := Fragments(m.id, m.data);
        assert capacity * (|frames| + 1) >= capacity + |frames| by { Grows(capacity, |frames|); }
        WriteFails(q, to, frames, capacity, |frames|);
        WriteIsFifo(q, to, frames, capacity, |frames|);
        assert frames[..|frames|] == frames;
      case Tick =>
        assert Flushed(q).sent + Flushed(q).pending == q.sent + q.pending;
    }
  }

  lemma {:induction false} Grows(c: nat, n: nat)
    requires c > 0
    ensures c * (n + 1) >= c + n
  {
  }

  /** No datagram exceeds the packet size. */
  lemma {:induction false} DatagramsFit(events: seq<Event>, d: Datagram)
    requires d in Log(events)
    ensures |d.bytes| <= MAX_PACKET_SIZE
  {
    var rest, log := events[..|events| - 1], Log(events[..|events| - 1]);
    if d in log {
      DatagramsFit(rest, d);
    } else {
      var m := events[|events| - 1].msg;
      var i :| 0 <= i < FragmentCount(|m.data|) && d.bytes == Fragment(m.id, m.data, i);
    }
  }

  // ---------------------------------------------------------------- what a peer receives

  function MessagesTo(peer: Address, events: seq<Event>): seq<Message> {
    if events == [] then []
    else
      var e := events[|events| - 1];
      MessagesTo(peer, events[..|events| - 1]) + if e.Write? && e.to == peer then [e.msg] else []
  }

  function FramesTo(peer: Address, log: seq<Datagram>): seq<Bytes> {
    if log == [] then []
    else
      var d := log[|log| - 1];
      FramesTo(peer, log[..|log| - 1]) + if d.to == peer then [d.bytes] else []
  }

  function FramesOf(msgs: seq<Message>): seq<Bytes> {
    if msgs == [] then []
    else
      var m := msgs[|msgs| - 1];
      FramesOf(msgs[..|msgs| - 1]) + Fragments(m.id, m.data)
  }

  lemma {:induction false} FramesToAppend(peer: Address, log: seq<Datagram>, to: Address, frames: seq<Bytes>)
    ensures FramesTo(peer, log + Addressed(to, frames)) == FramesTo(peer, log) + if to == peer then frames else []
  {
    if frames == [] {
      assert log + Addressed(to, frames) == log;
    } else {
      var n := |frames| - 1;
      FramesToAppend(peer, log, to, frames[..n]);
      var all := log + Addressed(to, frames);
      assert all[..|all| - 1] == log + Addressed(to, frames[..n]);
      assert frames[..n] + [frames[n]] == frames;
    }
  }

  lemma {:induction false} LogByPeer(peer: Address, events: seq<Event>)
    ensures FramesTo(peer, Log(events)) == FramesOf(MessagesTo(peer, events))
  {
    if events != [] {
      var rest, e := events[..|events| - 1], events[|events| - 1];
      LogByPeer(peer, rest);
      if e.Write? {
        FramesToAppend(peer, Log(rest), e.to, Fragments(e.msg.id, e.msg.data));
      }
      if e.Write? && e.to == peer {
        FramesOfAppend(MessagesTo(peer, rest), e.msg);
      } else {
        assert MessagesTo(peer, events) == MessagesTo(peer, rest);
      }
    }
  }

  lemma FramesOfAppend(msgs: seq<Message>, m: Message)
    ensures FramesOf(msgs + [m]) == FramesOf(msgs) + Fragments(m.id, m.data)
  {
  }

  ghost predicate DistinctHashes(h: Hasher, msgs: seq<Message>) {
    forall i, j | 0 <= i < j < |msgs| :: h(msgs[i].id) != h(msgs[j].id)
  }

  ghost predicate NoDuplicates(frames: seq<Bytes>) {
    forall a, b | 0 <= a < b < |frames| :: frames[a] != frames[b]
  }

  /** Every frame belongs to one of the messages. */
  lemma {:induction false} FrameOrigin(msgs: seq<Message>, a: nat) returns (w: nat, i: nat)
    requires a < |FramesOf(msgs)|
    ensures w < |msgs| && i < FragmentCount(|msgs[w].data|)
    ensures FramesOf(msgs)[a] == Fragment(msgs[w].id, msgs[w].data, i)
  {
    var n := |msgs| - 1;
    var before := FramesOf(msgs[..n]);
    if a < |before| {
      w, i := FrameOrigin(msgs[..n], a);
    } else {
      w, i := n, a - |before|;
    }
  }

  lemma {:induction false} FramePresent(msgs: seq<Message>, w: nat, i: nat) returns (a: nat)
    requires w < |msgs| && i < FragmentCount(|msgs[w].data|)
    ensures a < |FramesOf(msgs)| && FramesOf(msgs)[a] == Fragment(msgs[w].id, msgs[w].data, i)
  {
    var n := |msgs| - 1;
    if w < n {
      a := FramePresent(msgs[..n], w, i);
    } else {
      a := |FramesOf(msgs[..n])| + i;
    }
  }

  lemma DifferentIds(m: Message, i: nat, m': Message, j: nat)
    requires i < FragmentCount(|m.data|) && j < FragmentCount(|m'.data|) && m.id != m'.id
    ensures Fragment(m.id, m.data, i) != Fragment(m'.id, m'.data, j)
  {
    FragmentFields(m.id, m.data, i);
    FragmentFields(m'.id, m'.data, j);
  }

  lemma {:induction false} FramesDistinct(h: Hasher, msgs: seq<Message>)
    requires DistinctHashes(h, msgs)
    requires forall m | m in msgs :: |m.data| <= MAX_FRAGMENTED
    ensures NoDuplicates(FramesOf(msgs))
  {
    if msgs != [] {
      var n := |msgs| - 1;
      var m := msgs[n];
      FramesDistinct(h, msgs[..n]);
      var before, own := FramesOf(msgs[..n]), Fragments(m.id, m.data);
      forall a, b | 0 <= a < b < |before + own| ensures (before + own)[a] != (before + own)[b] {
        if a < |before| <= b {
          var w, i := FrameOrigin(msgs[..n], a);
          DifferentIds(msgs[w], i, m, b - |before|);
        } else if |before| <= a {
          if own[a - |before|] == own[b - |before|] {
            FragmentsDistinct(m.id, m.data, a - |before|, b - |before|);
          }
        }
      }
    }
  }

  // ---------------------------------------------------------------- main result

  /** `order[t]` is the place in the sending order of what arrives at time `t`: everything
      sent arrives, once. */
  ghost predicate Reorders(order: seq<nat>, n: nat) {
    && |order| == n
    && (forall t | 0 <= t < n :: order[t] < n)
    && (forall t, u | 0 <= t < u < n :: order[t] != order[u])
    && (forall a | 0 <= a < n :: a in order)
  }

  ghost predicate Received(arrivals: seq<Arrival>, frames: seq<Bytes>, order: seq<nat>) {
    && |arrivals| == |frames| && Reorders(order, |frames|)
    && forall t | 0 <= t < |arrivals| :: arrivals[t].frame == frames[order[t]]
  }

  lemma ReceivedOnceEach(h: Hasher, msgs: seq<Message>, arrivals: seq<Arrival>, order: seq<nat>, w: nat)
    requires DistinctHashes(h, msgs) && w < |msgs|
    requires forall m | m in msgs :: |m.data| <= MAX_FRAGMENTED
    requires Received(arrivals, FramesOf(msgs), order)
    ensures OnceEach(h, msgs[w].id, msgs[w].data, arrivals)
  {
    var frames := FramesOf(msgs);
    forall t | 0 <= t < |arrivals|
      ensures Foreign(h, msgs[w].id, arrivals[t].frame) || arrivals[t].frame in Fragments(msgs[w].id, msgs[w].data)
    {
      var v, i := FrameOrigin(msgs, order[t]);
      FragmentFields(msgs[v].id, msgs[v].data, i);
      if v == w {
        assert Fragments(msgs[w].id, msgs[w].data)[i] == arrivals[t].frame;
      }
    }
    FramesDistinct(h, msgs);
    forall t, u | 0 <= t < u < |arrivals| ensures arrivals[t].frame != arrivals[u].frame {
      assert order[t] != order[u];
    }
  }

  lemma ReceivedComplete(msgs: seq<Message>, arrivals: seq<Arrival>, order: seq<nat>, w: nat)
    requires w < |msgs| && Received(arrivals, FramesOf(msgs), order)
    ensures Complete(msgs[w].id, msgs[w].data, arrivals)
  {
    forall i | 0 <= i < FragmentCount(|msgs[w].data|)
      ensures Arrived(arrivals, Fragment(msgs[w].id, msgs[w].data, i))
    {
      var a := FramePresent(msgs, w, i);
      assert a in order;
      var t :| 0 <= t < |order| && order[t] == a;
      assert arrivals[t].frame == Fragment(msgs[w].id, msgs[w].data, i);
    }
  }

  /** For each message written to a peer that receives, in any order, everything flushed to it: the
      message is returned if and only if it is not empty and fits the length field, and then its
      completing fragment returns it and every other fragment of it returns nil. */
  lemma WrittenMessagesAreReassembled(h: Hasher, capacity: nat, events: seq<Event>, peer: Address,
                                      arrivals: seq<Arrival>, order: seq<nat>, w: nat)
    requires capacity > 0 && Outgoing(events, capacity).pending == []
    requires DistinctHashes(h, MessagesTo(peer, events))
    requires forall m | m in MessagesTo(peer, events) :: |m.data| <= MAX_FRAGMENTED
    requires ValidArrivals(arrivals)
    requires Received(arrivals, FramesTo(peer, Outgoing(events, capacity).sent), order)
    requires w < |MessagesTo(peer, events)|
    ensures var m := MessagesTo(peer, events)[w];
            && (Returned(h, map[], m.id, m.data, arrivals) <==> 1 <= |m.data| <= MAX_LENGTH_FIELD)
            && (1 <= |m.data| <= MAX_LENGTH_FIELD ==>
                  forall t | 0 <= t < |arrivals| && !Foreign(h, m.id, arrivals[t].frame) ::
                    Output(h, map[], arrivals, t) ==
                    if Complete(m.id, m.data, arrivals[..t + 1]) then Some(m.data) else None)
  {
    var msgs := MessagesTo(peer, events);
    var m := msgs[w];
    QueueIsLossless(events, capacity);
    assert Outgoing(events, capacity).sent == Log(events);
    LogByPeer(peer, events);
    ReceivedOnceEach(h, msgs, arrivals, order, w);
    ReceivedComplete(msgs, arrivals, order, w);
    ReturnedIffLengthFits(h, map[], m.id, m.data, arrivals);
    if 1 <= |m.data| <= MAX_LENGTH_FIELD {
      forall t | 0 <= t < |arrivals| && !Foreign(h, m.id, arrivals[t].frame)
        ensures Output(h, map[], arrivals, t) ==
                if Complete(m.id, m.data, arrivals[..t + 1]) then Some(m.data) else None
      {
        ReassemblyRoundTrip(h, map[], m.id, m.data, arrivals, t);
      }
    }
  }

  // ---------------------------------------------------------------- nothing else comes out

  /** Call `t` delivers the last fragment of message `w` and returns its data. */
  ghost predicate Returns(h: Hasher, msgs: seq<Message>, arrivals: seq<Arrival>, t: nat, w: nat)
    requires ValidArrivals(arrivals) && t < |arrivals| && w < |msgs|
  {
    && !Foreign(h, msgs[w].id, arrivals[t].frame) && Complete(msgs[w].id, msgs[w].data, arrivals[..t + 1])
    && Output(h, map[], arrivals, t) == Some(msgs[w].data)
  }

  /** Every packet returned is one of the messages, and every message is returned, once. */
  ghost predicate ExactlyTheMessages(h: Hasher, msgs: seq<Message>, arrivals: seq<Arrival>)
    requires ValidArrivals(arrivals)
  {
    && (forall t: nat | t < |arrivals| :: Output(h, map[], arrivals, t) == None || SomeReturned(h, msgs, arrivals, t))
    && (forall t: nat, w: nat, w': nat | t < |arrivals| && w < |msgs| && w' < |msgs|
                                         && Returns(h, msgs, arrivals, t, w) && Returns(h, msgs, arrivals, t, w') ::
          w == w')
    && (forall w: nat | w < |msgs| :: ReturnedSomewhere(h, msgs, arrivals, w))
    && (forall t: nat, t': nat, w: nat | t < |arrivals| && t' < |arrivals| && w < |msgs|
                                         && Returns(h, msgs, arrivals, t, w) && Returns(h, msgs, arrivals, t', w) ::
          t == t')
  }

  ghost predicate SomeReturned(h: Hasher, msgs: seq<Message>, arrivals: seq<Arrival>, t: nat)
    requires ValidArrivals(arrivals) && t < |arrivals|
  {
    exists w: nat :: w < |msgs| && Returns(h, msgs, arrivals, t, w)
  }

  ghost predicate ReturnedSomewhere(h: Hasher, msgs: seq<Message>, arrivals: seq<Arrival>, w: nat)
    requires ValidArrivals(arrivals) && w < |msgs|
  {
    exists t: nat :: t < |arrivals| && Returns(h, msgs, arrivals, t, w)
  }

  predicate Fits(m: Message) {
    1 <= |m.data| <= MAX_LENGTH_FIELD
  }

  lemma ArrivalOrigin(h: Hasher, msgs: seq<Message>, arrivals: seq<Arrival>, order: seq<nat>, t: nat) returns (w: nat)
    requires Received(arrivals, FramesOf(msgs), order) && t < |arrivals|
    ensures w < |msgs| && !Foreign(h, msgs[w].id, arrivals[t].frame)
  {
    var i;
    w, i := FrameOrigin(msgs, order[t]);
    FragmentFields(msgs[w].id, msgs[w].data, i);
  }

  /** A frame belongs to one message only. */
  lemma OneOwner(h: Hasher, msgs: seq<Message>, f: Bytes, w: nat, w': nat)
    requires DistinctHashes(h, msgs) && w < |msgs| && w' < |msgs| && |f| >= PACKET_HEADER_SIZE
    requires !Foreign(h, msgs[w].id, f) && !Foreign(h, msgs[w'].id, f)
    ensures w == w'
  {
  }

  /** Nothing of a message arrives after it is complete. */
  lemma CompletesOnce(h: Hasher, m: Message, arrivals: seq<Arrival>, t: nat, t': nat)
    requires OnceEach(h, m.id, m.data, arrivals) && t < t' < |arrivals|
    requires Complete(m.id, m.data, arrivals[..t + 1])
    ensures Foreign(h, m.id, arrivals[t'].frame)
  {
    var f := arrivals[t'].frame;
    if f in Fragments(m.id, m.data) {
      var i :| 0 <= i < FragmentCount(|m.data|) && f == Fragments(m.id, m.data)[i];
      assert i in Delivered(m.id, m.data, arrivals[..t + 1]);
      var u :| 0 <= u < |arrivals[..t + 1]| && arrivals[..t + 1][u].frame == Fragment(m.id, m.data, i);
      assert arrivals[u].frame == arrivals[t'].frame;
    }
  }

  lemma ReturnsIff(h: Hasher, msgs: seq<Message>, arrivals: seq<Arrival>, order: seq<nat>, t: nat, w: nat)
    requires DistinctHashes(h, msgs) && ValidArrivals(arrivals) && Received(arrivals, FramesOf(msgs), order)
    requires (forall m | m in msgs :: |m.data| <= MAX_FRAGMENTED) && t < |arrivals| && w < |msgs| && Fits(msgs[w])
    requires !Foreign(h, msgs[w].id, arrivals[t].frame)
    ensures Returns(h, msgs, arrivals, t, w) || Output(h, map[], arrivals, t) == None
    ensures Complete(msgs[w].id, msgs[w].data, arrivals[..t + 1]) ==> Returns(h, msgs, arrivals, t, w)
  {
    ReceivedOnceEach(h, msgs, arrivals, order, w);
    ReassemblyRoundTrip(h, map[], msgs[w].id, msgs[w].data, arrivals, t);
  }

  lemma FittingIsReturned(h: Hasher, msgs: seq<Message>, arrivals: seq<Arrival>, order: seq<nat>, w: nat)
    requires DistinctHashes(h, msgs) && ValidArrivals(arrivals) && Received(arrivals, FramesOf(msgs), order)
    requires (forall m | m in msgs :: |m.data| <= MAX_FRAGMENTED) && w < |msgs| && Fits(msgs[w])
    ensures ReturnedSomewhere(h, msgs, arrivals, w)
  {
    ReceivedOnceEach(h, msgs, arrivals, order, w);
    ReceivedComplete(msgs, arrivals, order, w);
    var t := LastPart(h, msgs[w].id, msgs[w].data, arrivals);
    ReturnsIff(h, msgs, arrivals, order, t, w);
  }

  lemma AllFitIsExact(h: Hasher, msgs: seq<Message>, arrivals: seq<Arrival>, order: seq<nat>)
    requires DistinctHashes(h, msgs) && ValidArrivals(arrivals) && Received(arrivals, FramesOf(msgs), order)
    requires forall m | m in msgs :: |m.data| <= MAX_FRAGMENTED
    requires forall m | m in msgs :: Fits(m)
    ensures ExactlyTheMessages(h, msgs, arrivals)
  {
    forall t: nat | t < |arrivals| ensures Output(h, map[], arrivals, t) == None || SomeReturned(h, msgs, arrivals, t) {
      var w := ArrivalOrigin(h, msgs, arrivals, order, t);
      ReturnsIff(h, msgs, arrivals, order, t, w);
    }
    forall t: nat, w: nat, w': nat | t < |arrivals| && w < |msgs| && w' < |msgs|
      && Returns(h, msgs, arrivals, t, w) && Returns(h, msgs, arrivals, t, w') ensures w == w'
    {
      OneOwner(h, msgs, arrivals[t].frame, w, w');
    }
    forall w: nat | w < |msgs| ensures ReturnedSomewhere(h, msgs, arrivals, w) {
      FittingIsReturned(h, msgs, arrivals, order, w);
    }
    forall t: nat, t': nat, w: nat | t < |arrivals| && t' < |arrivals| && w < |msgs|
      && Returns(h, msgs, arrivals, t, w) && Returns(h, msgs, arrivals, t', w) ensures t == t'
    {
      ReceivedOnceEach(h, msgs, arrivals, order, w);
      if t < t' { CompletesOnce(h, msgs[w], arrivals, t, t'); }
      if t' < t { CompletesOnce(h, msgs[w], arrivals, t', t); }
    }
  }

  lemma ExactMeansFit(h: Hasher, msgs: seq<Message>, arrivals: seq<Arrival>, order: seq<nat>, w: nat)
    requires DistinctHashes(h, msgs) && ValidArrivals(arrivals) && Received(arrivals, FramesOf(msgs), order)
    requires (forall m | m in msgs :: |m.data| <= MAX_FRAGMENTED) && w < |msgs|
    requires ReturnedSomewhere(h, msgs, arrivals, w)
    ensures Fits(msgs[w])
  {
    ReceivedOnceEach(h, msgs, arrivals, order, w);
    ReceivedComplete(msgs, arrivals, order, w);
    ReturnedIffLengthFits(h, map[], msgs[w].id, msgs[w].data, arrivals);
    var t: nat :| t < |arrivals| && Returns(h, msgs, arrivals, t, w);
    assert arrivals[t].frame in Fragments(msgs[w].id, msgs[w].data);
  }

  /** A peer that receives, in any order, everything flushed to it gets back exactly the messages
      written to it, each once and nothing else, if and only if each of them has 1 to 65535 bytes. */
  lemma ExactlyIffAllFit(h: Hasher, capacity: nat, events: seq<Event>, peer: Address,
                         arrivals: seq<Arrival>, order: seq<nat>)
    requires capacity > 0 && Outgoing(events, capacity).pending == []
    requires DistinctHashes(h, MessagesTo(peer, events))
    requires forall m | m in MessagesTo(peer, events) :: |m.data| <= MAX_FRAGMENTED
    requires ValidArrivals(arrivals)
    requires Received(arrivals, FramesTo(peer, Outgoing(events, capacity).sent), order)
    ensures ExactlyTheMessages(h, MessagesTo(peer, events), arrivals)
            <==> forall m | m in MessagesTo(peer, events) :: Fits(m)
  {
    var msgs := MessagesTo(peer, events);
    QueueIsLossless(events, capacity);
    assert Outgoing(events, capacity).sent == Log(events);
    LogByPeer(peer, events);
    if forall m | m in msgs :: Fits(m) {
      AllFitIsExact(h, msgs, arrivals, order);
    }
    if ExactlyTheMessages(h, msgs, arrivals) {
      forall w: nat | w < |msgs| ensures Fits(msgs[w]) { ExactMeansFit(h, msgs, arrivals, order, w); }
    }
  }
}

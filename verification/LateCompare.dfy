/**
  When concurrent reassembly gives each message to its receiver once.

  A listener adds to the byte count of its packet and afterwards reads the packet's length
  to compare it with (packet.go:238). By then the message can be complete, returned and its
  packet recycled, and the length read can be that of another message. It is shown which
  compares go wrong, that one goes wrong exactly when a message is returned twice, and for
  which lengths of messages no run has one that does.
 */
module LateCompare {
  import opened Ids
  import opened Options
  import opened Packets
  import opened RoundTrip
  import opened ConcurrentReassembly

  datatype Trace = Trace(states: seq<State>, actions: seq<Action>)
  {
    function Last(): State
      requires states != []
    {
      states[|states| - 1]
    }
  }

  ghost predicate StepAt(c: Config, tr: Trace, i: nat)
    requires |tr.states| == |tr.actions| + 1 && i < |tr.actions|
  {
    Enabled(c, tr.states[i], tr.actions[i]) && tr.states[i + 1] == Step(c, tr.states[i], tr.actions[i])
  }

  ghost predicate IsRun(c: Config, tr: Trace) {
    && |tr.states| == |tr.actions| + 1 && Initial(tr.states[0])
    && forall i | 0 <= i < |tr.actions| :: StepAt(c, tr, i)
  }

  ghost predicate RightBefore(c: Config, tr: Trace, n: nat)
    requires IsRun(c, tr) && n <= |tr.actions|
  {
    forall i | 0 <= i < n :: Right(c, tr.states[i], tr.actions[i])
  }

  /** As long as compares are right every state satisfies the invariant. */
  lemma {:induction false} RunKeeps(c: Config, tr: Trace, n: nat)
    requires c.Valid() && IsRun(c, tr) && n <= |tr.actions| && RightBefore(c, tr, n)
    ensures Inv(c, tr.states[n])
  {
    if n == 0 {
      InitialInv(c, tr.states[0]);
    } else {
      RunKeeps(c, tr, n - 1);
      assert StepAt(c, tr, n - 1);
      StepKeeps(c, tr.states[n - 1], tr.actions[n - 1]);
    }
  }

  // ---------------------------------------------------------------- the length of a packet

  /** The action takes packet `p` out of the pool. */
  predicate Retakes(a: Action, p: Ref) {
    (a.Get? || a.Send?) && a.r == p
  }

  /** The action takes packet `p` and sets its length to `v`. */
  predicate SetsLength(c: Config, a: Action, p: Ref, v: int) {
    Retakes(a, p) && if a.Get? then c.Has(a.l) && c.Length(a.l) == v else a.q.len == v
  }

  lemma LengthStep(c: Config, s: State, a: Action, p: Ref)
    requires c.Valid() && Enabled(c, s, a) && p in s.heap
    ensures var s' := Step(c, s, a);
            && p in s'.heap
            && if Retakes(a, p) then SetsLength(c, a, p, s'.heap[p].len) else s'.heap[p].len == s.heap[p].len
  {
    if a.Get? { NewPacketFields(c.msgs[a.l.msg].id, c.msgs[a.l.msg].data, a.l.part, a.stale); }
  }

  lemma {:induction false} LengthStays(c: Config, tr: Trace, p: Ref, i: nat, n: nat)
    requires c.Valid() && IsRun(c, tr) && i <= n <= |tr.actions| && p in tr.states[i].heap
    requires forall j | i <= j < n :: !Retakes(tr.actions[j], p)
    ensures p in tr.states[n].heap && tr.states[n].heap[p].len == tr.states[i].heap[p].len
    decreases n - i
  {
    if i < n {
      assert StepAt(c, tr, i);
      LengthStep(c, tr.states[i], tr.actions[i], p);
      LengthStays(c, tr, p, i + 1, n);
    }
  }

  // ---------------------------------------------------------------- which compares go wrong

  /** At step `g`, while the listener stands between its add and its compare, its packet is taken
      again and given the length `v` that the add resulted in, and not taken again before `n`. */
  ghost predicate RetakenAt(c: Config, tr: Trace, n: nat, l: Listener, p: Ref, v: int, g: nat)
    requires IsRun(c, tr) && n < |tr.actions|
  {
    && g < n && tr.states[g].At(l) == Added(p, v) && SetsLength(c, tr.actions[g], p, v)
    && forall j | g < j < n :: !Retakes(tr.actions[j], p)
  }

  ghost predicate Late(c: Config, tr: Trace, n: nat)
    requires IsRun(c, tr) && n < |tr.actions|
  {
    && tr.actions[n].Compare? && tr.states[n].At(tr.actions[n].l).Added?
    && var l := tr.actions[n].l;
       var Added(p, v) := tr.states[n].At(l);
       exists g: nat :: RetakenAt(c, tr, n, l, p, v, g)
  }

  ghost predicate NeverLate(c: Config, tr: Trace)
    requires IsRun(c, tr)
  {
    forall n | 0 <= n < |tr.actions| :: !Late(c, tr, n)
  }

  lemma LateIsWrong(c: Config, tr: Trace, n: nat)
    requires c.Valid() && IsRun(c, tr) && n < |tr.actions| && RightBefore(c, tr, n) && Late(c, tr, n)
    ensures !Right(c, tr.states[n], tr.actions[n])
  {
    assert StepAt(c, tr, n);
    var l := tr.actions[n].l;
    var Added(p, v) := tr.states[n].At(l);
    var g: nat :| RetakenAt(c, tr, n, l, p, v, g);
    RunKeeps(c, tr, g);
    assert StepAt(c, tr, g);
    TakenIsFinished(c, tr.states[g], tr.actions[g], l);
    LengthStep(c, tr.states[g], tr.actions[g], p);
    LengthStays(c, tr, p, g + 1, n);
  }

  /** A packet that can be taken is not the one a finisher is about to return. */
  lemma TakenIsFinished(c: Config, s: State, a: Action, l: Listener)
    requires Inv(c, s) && Enabled(c, s, a) && c.Has(l) && s.At(l).Added? && Retakes(a, s.At(l).p)
    ensures s.At(l).v < c.Length(l) && s.At(l).p in s.heap
  {
    assert LocalInv(c, s, l);
  }

  lemma WrongLengthStep(c: Config, tr: Trace, j: nat, l: Listener, p: Ref, v: int)
    requires c.Valid() && IsRun(c, tr) && j < |tr.actions| && RightBefore(c, tr, j) && c.Has(l)
    requires tr.states[j + 1].At(l) == Added(p, v) && v != c.Length(l)
    requires p in tr.states[j + 1].heap && tr.states[j + 1].heap[p].len == v
    ensures tr.states[j].At(l) == Added(p, v)
    ensures if Retakes(tr.actions[j], p) then SetsLength(c, tr.actions[j], p, v)
            else p in tr.states[j].heap && tr.states[j].heap[p].len == v
  {
    RunKeeps(c, tr, j);
    assert StepAt(c, tr, j);
    WrongLengthBefore(c, tr.states[j], tr.actions[j], l);
  }

  /** Going back from a listener that would find a wrong length to where that length was set. */
  lemma {:induction false} FindRetake(c: Config, tr: Trace, n: nat, l: Listener, p: Ref, v: int, j: nat)
    returns (g: nat)
    requires c.Valid() && IsRun(c, tr) && j <= n < |tr.actions| && RightBefore(c, tr, n) && c.Has(l)
    requires tr.states[j].At(l) == Added(p, v) && v != c.Length(l)
    requires p in tr.states[j].heap && tr.states[j].heap[p].len == v
    requires forall i | j <= i < n :: !Retakes(tr.actions[i], p)
    ensures RetakenAt(c, tr, n, l, p, v, g)
    decreases j
  {
    assert j > 0;
    WrongLengthStep(c, tr, j - 1, l, p, v);
    if Retakes(tr.actions[j - 1], p) {
      g := j - 1;
    } else {
      g := FindRetake(c, tr, n, l, p, v, j - 1);
    }
  }

  /** A listener about to compare was so before, or has just added to the packet of its message. */
  lemma AddedBefore(c: Config, s: State, a: Action, l: Listener)
    requires Enabled(c, s, a) && c.Has(l) && LocalInv(c, s, l) && Step(c, s, a).At(l).Added?
    ensures s.At(l) != Step(c, s, a).At(l) ==> a == Add(l)
    ensures Step(c, s, a).At(l).p in s.heap
  {
  }

  /** What an add gives is the sum of some parts, in the packet of the message. */
  lemma AddIsPartial(c: Config, s: State, l: Listener)
    requires c.Valid() && Inv(c, s) && Enabled(c, s, Add(l))
    ensures var s' := Step(c, s, Add(l));
            s'.heap[s'.At(l).p].len == c.Length(l) && PartialSum(c.Length(l), s'.At(l).v)
  {
    assert LocalInv(c, s, l) && MessageInv(c, s, l.msg);
    var s' := Step(c, s, Add(l));
    AddOwn(c, s, l);
    assert l.part in Counted(c, s', l.msg);
    assert SumsTo(c.Length(l), Counted(c, s', l.msg), s'.At(l).v);
  }

  lemma WrongLengthBefore(c: Config, s: State, a: Action, l: Listener)
    requires c.Valid() && Inv(c, s) && Enabled(c, s, a) && c.Has(l) && Step(c, s, a).At(l).Added?
    requires Step(c, s, a).At(l).v != c.Length(l)
    requires var s' := Step(c, s, a); s'.At(l).p in s'.heap && s'.heap[s'.At(l).p].len == s'.At(l).v
    ensures var Added(p, v) := Step(c, s, a).At(l);
            && s.At(l) == Added(p, v)
            && if Retakes(a, p) then SetsLength(c, a, p, v) else p in s.heap && s.heap[p].len == v
  {
    assert LocalInv(c, s, l);
    AddedBefore(c, s, a, l);
    if a == Add(l) { AddIsPartial(c, s, l); }
    LengthStep(c, s, a, Step(c, s, a).At(l).p);
  }

  /** `v` is the number of bytes in some of the fragments of a message of `n` bytes. */
  ghost predicate PartialSum(n: nat, v: int) {
    exists parts: set<nat> :: SumsTo(n, parts, v)
  }

  ghost predicate SumsTo(n: nat, parts: set<nat>, v: int) {
    parts != {} && (forall i | i in parts :: i < FragmentCount(n)) && v == BytesIn(n, parts)
  }

  lemma WrongIsLate(c: Config, tr: Trace, n: nat)
    requires c.Valid() && IsRun(c, tr) && n < |tr.actions| && RightBefore(c, tr, n)
    requires !Right(c, tr.states[n], tr.actions[n])
    ensures Late(c, tr, n)
  {
    var l := tr.actions[n].l;
    var Added(p, v) := tr.states[n].At(l);
    RunKeeps(c, tr, n);
    WrongIsShort(c, tr.states[n], l);
    var g := FindRetake(c, tr, n, l, p, v, n);
  }

  /** A wrong compare finds its sum equal to the length although parts are missing from the sum;
      then another listener has already made the message complete and returned it. */
  lemma WrongIsShort(c: Config, s: State, l: Listener)
    requires c.Valid() && Inv(c, s) && Enabled(c, s, Compare(l)) && !RightCompare(c, s, l)
    ensures s.At(l).v == s.heap[s.At(l).p].len < c.Length(l)
    ensures c.Key(l.msg) !in s.table && HasFinisher(c, s, l.msg)
  {
    assert LocalInv(c, s, l) && MessageInv(c, s, l.msg);
  }

  /** If all compares before were right, a compare goes wrong exactly when its packet was taken
      again since its add, with the sum it has as its new length. */
  lemma WrongCompareIffLate(c: Config, tr: Trace, n: nat)
    requires c.Valid() && IsRun(c, tr) && n < |tr.actions| && RightBefore(c, tr, n)
    ensures !Right(c, tr.states[n], tr.actions[n]) <==> Late(c, tr, n)
  {
    if Late(c, tr, n) {
      LateIsWrong(c, tr, n);
    }
    if !Right(c, tr.states[n], tr.actions[n]) {
      WrongIsLate(c, tr, n);
    }
  }

  // ---------------------------------------------------------------- one result

  /** No message is given to two receivers. */
  ghost predicate OneResult(c: Config, s: State) {
    forall m, i, j | c.Has(Listener(m, i)) && c.Has(Listener(m, j))
                     && HasResult(s.At(Listener(m, i))) && HasResult(s.At(Listener(m, j))) :: i == j
  }

  lemma {:induction false} NeverLateIsRight(c: Config, tr: Trace, n: nat)
    requires c.Valid() && IsRun(c, tr) && n <= |tr.actions|
    requires forall i | 0 <= i < n :: !Late(c, tr, i)
    ensures RightBefore(c, tr, n)
  {
    if n > 0 {
      NeverLateIsRight(c, tr, n - 1);
      WrongCompareIffLate(c, tr, n - 1);
    }
  }

  lemma InvOneResult(c: Config, s: State)
    requires OneFinisher(c, s)
    ensures OneResult(c, s)
  {
    assert forall m, i | c.Has(Listener(m, i)) && HasResult(s.At(Listener(m, i))) :: IsFinisher(c, s, Listener(m, i));
  }

  /** A wrong compare gives the message to a second receiver. */
  lemma WrongGivesTwo(c: Config, s: State, l: Listener)
    requires c.Valid() && Inv(c, s) && Enabled(c, s, Compare(l)) && !RightCompare(c, s, l)
    ensures !OneResult(c, Step(c, s, Compare(l)))
  {
    WrongIsShort(c, s, l);
    var i :| IsFinisher(c, s, Listener(l.msg, i));
    var s' := Step(c, s, Compare(l));
    assert LocalInv(c, s, Listener(l.msg, i));
    assert HasResult(s'.At(Listener(l.msg, i))) && HasResult(s'.At(Listener(l.msg, l.part)));
  }

  /** The first late compare of a run. */
  lemma {:induction false} FirstLate(c: Config, tr: Trace, n: nat) returns (k: nat)
    requires IsRun(c, tr) && n < |tr.actions| && Late(c, tr, n)
    ensures k <= n && Late(c, tr, k) && forall i | 0 <= i < k :: !Late(c, tr, i)
  {
    k := n;
    if i: nat :| i < n && Late(c, tr, i) { k := FirstLate(c, tr, i); }
  }

  /** Over a whole run every message goes to one receiver if and only if no compare is late. */
  lemma OneResultIffNeverLate(c: Config, tr: Trace)
    requires c.Valid() && IsRun(c, tr)
    ensures (forall n | 0 <= n < |tr.states| :: OneResult(c, tr.states[n])) <==> NeverLate(c, tr)
  {
    if NeverLate(c, tr) {
      forall n | 0 <= n < |tr.states| ensures OneResult(c, tr.states[n]) {
        NeverLateKeeps(c, tr, n);
        InvOneResult(c, tr.states[n]);
      }
    } else {
      var n: nat :| n < |tr.actions| && Late(c, tr, n);
      var k := FirstLate(c, tr, n);
      NeverLateIsRight(c, tr, k);
      RunKeeps(c, tr, k);
      WrongCompareIffLate(c, tr, k);
      assert StepAt(c, tr, k);
      WrongGivesTwo(c, tr.states[k], tr.actions[k].l);
    }
  }

  lemma NeverLateKeeps(c: Config, tr: Trace, n: nat)
    requires c.Valid() && IsRun(c, tr) && NeverLate(c, tr) && n <= |tr.actions|
    ensures Inv(c, tr.states[n])
  {
    NeverLateIsRight(c, tr, n);
    RunKeeps(c, tr, n);
  }

  // ---------------------------------------------------------------- what holds when no compare is late

  /** The packet a listener is working on for its message. */
  function WorksOn(x: Stage): Option<Ref> {
    match x
    case Yielding(_, shared) => Some(shared)
    case Copying(p, _) => Some(p)
    case Completing(p) => Some(p)
    case _ => None
  }

  /** All listeners of a message work on one packet, and listeners of different messages on
      different ones. */
  lemma OnePacketPerMessage(c: Config, tr: Trace, n: nat, l: Listener, x: Listener)
    requires c.Valid() && IsRun(c, tr) && NeverLate(c, tr) && n < |tr.states|
    requires c.Has(l) && c.Has(x) && WorksOn(tr.states[n].At(l)).Some? && WorksOn(tr.states[n].At(x)).Some?
    ensures WorksOn(tr.states[n].At(l)) == WorksOn(tr.states[n].At(x)) <==> l.msg == x.msg
  {
    NeverLateKeeps(c, tr, n);
    assert LocalInv(c, tr.states[n], l) && LocalInv(c, tr.states[n], x);
    if l.msg != x.msg { KeysDistinct(c, l.msg, x.msg); }
  }

  /** Packet `p` holds the whole message of `l`, and neither the pool, the map nor another
      listener has it. */
  ghost predicate HoldsMessageAlone(c: Config, s: State, l: Listener, p: Ref)
    requires c.Has(l)
  {
    var data := c.msgs[l.msg].data;
    && p in s.heap && s.heap[p].len == |data| <= |s.heap[p].buf| && s.heap[p].buf[..|data|] == data
    && p !in s.pool && Unmapped(s, p)
    && forall x | c.Has(x) && x != l :: WorksOn(s.At(x)) != Some(p) && Exclusive(s.At(x)) != Some(p)
  }

  /** From its return by `assemble` until it is back in the pool a packet holds the message. */
  lemma ReturnedPacketIsTheMessage(c: Config, tr: Trace, n: nat, l: Listener)
    requires c.Valid() && IsRun(c, tr) && NeverLate(c, tr) && n < |tr.states|
    requires c.Has(l) && tr.states[n].At(l).Returned?
    ensures HoldsMessageAlone(c, tr.states[n], l, tr.states[n].At(l).p)
  {
    NeverLateKeeps(c, tr, n);
    var s := tr.states[n];
    var p := s.At(l).p;
    assert LocalInv(c, s, l) && Owns(c, s, l, p);
    forall x | c.Has(x) && x != l ensures WorksOn(s.At(x)) != Some(p) && Exclusive(s.At(x)) != Some(p) {
      assert LocalInv(c, s, x);
      assert !Owns(c, s, x, p);
    }
  }

  /** No listener of a message is to return it before every listener of it has added its
      fragment, and once all have, exactly one of them is. */
  lemma ExactlyOneResult(c: Config, tr: Trace, n: nat, m: nat)
    requires c.Valid() && IsRun(c, tr) && NeverLate(c, tr) && n < |tr.states| && m < |c.msgs|
    ensures AllCounted(c, tr.states[n], m) <==> HasFinisher(c, tr.states[n], m)
    ensures OneFinisher(c, tr.states[n])
  {
    NeverLateKeeps(c, tr, n);
    var s := tr.states[n];
    assert MessageInv(c, s, m);
    if HasFinisher(c, s, m) { FinisherMeansCounted(c, s, m); }
  }

  lemma FinisherMeansCounted(c: Config, s: State, m: nat)
    requires LocalsInv(c, s) && m < |c.msgs| && HasFinisher(c, s, m)
    ensures AllCounted(c, s, m)
  {
  }

  predicate Ended(x: Stage) {
    x.ReturnedNil? || x.Released?
  }

  /** A listener whose call has not ended can take a step, so no index is ever out of range and
      no lookup of a packet fails. */
  lemma EveryListenerCanStep(c: Config, tr: Trace, n: nat, l: Listener) returns (a: Action)
    requires c.Valid() && IsRun(c, tr) && NeverLate(c, tr) && n < |tr.states|
    requires c.Has(l) && !Ended(tr.states[n].At(l))
    ensures !a.Send? && a.l == l && Enabled(c, tr.states[n], a)
  {
    NeverLateKeeps(c, tr, n);
    var s := tr.states[n];
    assert LocalInv(c, s, l);
    match s.At(l)
    case Start => a := Load(l);
    case Missed =>
      var r := Unused(s.heap.Keys);
      a := Get(l, r, seq(BUFFER_SIZE, _ => 0));
    case Holding(_) => a := LoadOrStore(l);
    case Yielding(_, _) => a := PutBack(l);
    case Copying(_, k) => a := if k < PayloadSize(c.Length(l), l.part) then CopyByte(l) else Add(l);
    case Added(_, _) => a := Compare(l);
    case Completing(_) => a := Delete(l);
    case Returned(_) => a := Done(l);
  }

  lemma Unused(used: set<Ref>) returns (r: Ref)
    ensures r !in used
  {
    r := 0;
    var rest := used;
    while rest != {}
      invariant rest <= used && forall x | x in used && x >= r :: x in rest
      decreases rest
    {
      var x :| x in rest;
      rest := rest - {x};
      if x >= r { r := x + 1; }
    }
  }

  /** Packets are taken again only when nobody still has to compare with their length. */
  ghost predicate Patient(c: Config, tr: Trace)
    requires IsRun(c, tr)
  {
    forall n, p, l | 0 <= n < |tr.actions| && Retakes(tr.actions[n], p) && c.Has(l) && tr.states[n].At(l).Added? ::
      tr.states[n].At(l).p != p
  }

  lemma PatientIsNeverLate(c: Config, tr: Trace)
    requires IsRun(c, tr) && Patient(c, tr)
    ensures NeverLate(c, tr)
  {
    forall n | 0 <= n < |tr.actions| ensures !Late(c, tr, n) {
      assert StepAt(c, tr, n);
      assert forall l, p, v, g: nat ::
        tr.actions[n].Compare? && l == tr.actions[n].l ==> !RetakenAt(c, tr, n, l, p, v, g);
    }
  }

  // ---------------------------------------------------------------- every call ends

  /** At most so many steps a listener with a payload of `size` bytes has before it. */
  function StepsLeft(size: nat, x: Stage): nat {
    match x
    case Start => size + 8
    case Missed => size + 7
    case Holding(_) => size + 6
    case Yielding(_, _) => size + 5
    case Copying(_, n) => size - Min(size, n) + 4
    case Added(_, _) => 3
    case Completing(_) => 2
    case Returned(_) => 1
    case _ => 0
  }

  predicate IsStepOf(a: Action, l: Listener) {
    !a.Send? && a.l == l
  }

  function StepsOf(actions: seq<Action>, l: Listener): nat {
    if actions == [] then 0
    else
      var n := |actions| - 1;
      StepsOf(actions[..n], l) + if IsStepOf(actions[n], l) then 1 else 0
  }

  lemma StepCosts(c: Config, s: State, a: Action, l: Listener)
    requires Enabled(c, s, a) && c.Has(l)
    ensures var size := PayloadSize(c.Length(l), l.part);
            StepsLeft(size, Step(c, s, a).At(l)) + (if IsStepOf(a, l) then 1 else 0) <= StepsLeft(size, s.At(l))
  {
  }

  /** No listener takes more steps than its payload has bytes, and eight, in any run. */
  lemma {:induction false} CallsEnd(c: Config, tr: Trace, n: nat, l: Listener)
    requires IsRun(c, tr) && n < |tr.states| && c.Has(l)
    ensures var size := PayloadSize(c.Length(l), l.part);
            StepsOf(tr.actions[..n], l) + StepsLeft(size, tr.states[n].At(l)) <= size + 8
  {
    if n > 0 {
      CallsEnd(c, tr, n - 1, l);
      assert StepAt(c, tr, n - 1);
      StepCosts(c, tr.states[n - 1], tr.actions[n - 1], l);
      assert tr.actions[..n][..n - 1] == tr.actions[..n - 1];
    }
  }

  /** So a run in which no listener can take a step any more is reached, and in it every call has
      ended and every message has been returned by exactly one of them. */
  lemma EveryMessageIsReturned(c: Config, tr: Trace, m: nat) returns (i: nat)
    requires c.Valid() && IsRun(c, tr) && NeverLate(c, tr) && m < |c.msgs|
    requires forall a: Action | !a.Send? :: !Enabled(c, tr.Last(), a)
    ensures forall l | c.Has(l) :: Ended(tr.Last().At(l))
    ensures c.Has(Listener(m, i)) && tr.Last().At(Listener(m, i)).Released?
    ensures forall j | c.Has(Listener(m, j)) && j != i :: tr.Last().At(Listener(m, j)).ReturnedNil?
  {
    var n := |tr.states| - 1;
    forall l | c.Has(l) ensures Ended(tr.states[n].At(l)) {
      if !Ended(tr.states[n].At(l)) { var a := EveryListenerCanStep(c, tr, n, l); }
    }
    ExactlyOneResult(c, tr, n, m);
    assert forall j | 0 <= j < FragmentCount(|c.msgs[m].data|) :: Ended(tr.states[n].At(Listener(m, j)));
    i :| IsFinisher(c, tr.states[n], Listener(m, i));
  }
}

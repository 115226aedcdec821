/** Permits are conserved in every interleaving, and what that bounds. */
module ChannelAccounting {
  import opened BoundedChannel

  // ---------------------------------------------------------------- sums

  lemma {:induction false} SumConcat(a: seq<Permit>, b: seq<Permit>)
    ensures Sum(a + b) == Sum(a) + Sum(b)
  {
    if a == [] {
      assert a + b == b;
    } else {
      assert (a + b)[1..] == a[1..] + b;
      SumConcat(a[1..], b);
    }
  }

  lemma {:induction false} SumWithout(ps: seq<Permit>, i: nat)
    requires i < |ps|
    ensures Sum(ps) == Sum(Without(ps, i)) + ps[i].count
  {
    assert ps == ps[..i] + ([ps[i]] + ps[i + 1..]);
    SumConcat(ps[..i], [ps[i]] + ps[i + 1..]);
    SumConcat(ps[..i], ps[i + 1..]);
    assert ([ps[i]] + ps[i + 1..])[1..] == ps[i + 1..];
  }

  lemma {:induction false} GrantedConcat<T>(a: seq<Waiter<T>>, b: seq<Waiter<T>>)
    ensures Granted(a + b) == Granted(a) + Granted(b)
  {
    if a == [] {
      assert a + b == b;
    } else {
      assert (a + b)[1..] == a[1..] + b;
      GrantedConcat(a[1..], b);
    }
  }

  lemma {:induction false} GrantedWithout<T>(ws: seq<Waiter<T>>, i: nat)
    requires i < |ws|
    ensures Granted(ws) == Granted(Without(ws, i)) + ws[i].got
  {
    assert ws == ws[..i] + ([ws[i]] + ws[i + 1..]);
    GrantedConcat(ws[..i], [ws[i]] + ws[i + 1..]);
    GrantedConcat(ws[..i], ws[i + 1..]);
    assert ([ws[i]] + ws[i + 1..])[1..] == ws[i + 1..];
  }

  lemma {:induction false} GrantedSnoc<T>(ws: seq<Waiter<T>>, w: Waiter<T>)
    ensures Granted(ws + [w]) == Granted(ws) + w.got
  {
    GrantedConcat(ws, [w]);
  }

  lemma {:induction false} GrantedHead<T>(ws: seq<Waiter<T>>)
    requires ws != []
    ensures Granted(ws) == ws[0].got + Granted(ws[1..])
  {
  }

  lemma {:induction false} GrantedFront<T>(front: Waiter<T>, rest: seq<Waiter<T>>)
    ensures Granted([front] + rest) == front.got + Granted(rest)
  {
    assert ([front] + rest)[1..] == rest;
  }

  lemma {:induction false} SumAdded(ps: seq<Permit>, p: Permit)
    ensures Sum(ps + [p]) == Sum(ps) + p.count
  {
    SumConcat(ps, [p]);
  }

  lemma SumNone<T>()
    ensures Sum(PermitsOf<T>([])) == 0
  {
  }

  /** Adding one envelope adds its permit. */
  lemma {:induction false} SumSnoc<T>(es: seq<Envelope<T>>, e: Envelope<T>)
    ensures Sum(PermitsOf(es + [e])) == Sum(PermitsOf(es)) + e.permit.count
  {
    assert PermitsOf(es + [e]) == PermitsOf(es) + [e.permit];
    SumConcat(PermitsOf(es), [e.permit]);
  }

  /** Removing one envelope removes its permit. */
  lemma {:induction false} SumRemoved<T>(es: seq<Envelope<T>>, i: nat)
    requires i < |es|
    ensures Sum(PermitsOf(es)) == Sum(PermitsOf(Without(es, i))) + es[i].permit.count
  {
    assert PermitsOf(Without(es, i)) == Without(PermitsOf(es), i);
    SumWithout(PermitsOf(es), i);
  }

  lemma {:induction false} SumHead<T>(es: seq<Envelope<T>>)
    requires es != []
    ensures Sum(PermitsOf(es)) == es[0].permit.count + Sum(PermitsOf(es[1..]))
  {
    assert Without(es, 0) == es[1..];
    SumRemoved(es, 0);
  }

  lemma {:induction false} SumHolders<T>(s: State<T>)
    ensures Sum(Holders(s))
            == Sum(PermitsOf(s.ready)) + Sum(PermitsOf(s.queue)) + Sum(PermitsOf(s.received)) + Sum(s.detached)
  {
    SumConcat(PermitsOf(s.ready), PermitsOf(s.queue));
    SumConcat(PermitsOf(s.ready) + PermitsOf(s.queue), PermitsOf(s.received));
    SumConcat(PermitsOf(s.ready) + PermitsOf(s.queue) + PermitsOf(s.received), s.detached);
  }

  // ---------------------------------------------------------------- conservation

  /** Every permit is free, in the line, or held by exactly one live item. */
  predicate Conserved<T>(s: State<T>) {
    s.free + Granted(s.waiting) + Sum(Holders(s)) == s.total
  }

  /** No waiter asks for more than the total, and only the front of the line has been given a part. */
  predicate Orderly<T>(ws: seq<Waiter<T>>, total: nat) {
    (forall i :: 0 <= i < |ws| ==> Reasonable(ws[i], total)) &&
    (forall i :: 1 <= i < |ws| ==> ws[i].got == 0)
  }

  predicate Reasonable<T>(w: Waiter<T>, total: nat) {
    w.need == PermitsFor(w.len) <= total && w.len <= total && w.got < w.need
  }

  predicate Charged(p: Permit, total: nat) { p.count == PermitsFor(p.len) && p.len <= total }

  predicate AllCharged<T>(es: seq<Envelope<T>>, total: nat) {
    forall i :: 0 <= i < |es| ==> Charged(es[i].permit, total)
  }

  predicate PermitsCharged(ps: seq<Permit>, total: nat) {
    forall i :: 0 <= i < |ps| ==> Charged(ps[i], total)
  }

  /** Every permit was charged for its payload, and no payload is larger than the budget. */
  predicate FairlyCharged<T>(s: State<T>) {
    AllCharged(s.ready, s.total) && AllCharged(s.queue, s.total) && AllCharged(s.received, s.total) &&
    PermitsCharged(s.detached, s.total)
  }

  /** The queue is within its capacity, and empty once the receiver is gone. */
  predicate QueueBounded<T>(s: State<T>) {
    |s.queue| <= s.capacity && (s.receiver == Gone ==> s.queue == [])
  }

  predicate Sound<T>(s: State<T>) {
    Conserved(s) && Orderly(s.waiting, s.total) && FairlyCharged(s) && QueueBounded(s)
  }

  lemma {:induction false} StepConserves<T>(s: State<T>, a: Action<T>)
    requires Conserved(s)
    ensures Conserved(Step(s, a))
  {
    hide Sum, Granted, PermitsOf, Holders;
    var t := Step(s, a);
    SumHolders(s);
    SumHolders(t);
    match a {
      case TrySend(value, len) => SumSnoc(s.queue, Charge(value, len));
      case Send(value, len) => GrantedSnoc(s.waiting, Waiter(value, len, PermitsFor(len), 0));
      case Grant(amount) =>
        if s.waiting != [] {
          var front := s.waiting[0].(got := s.waiting[0].got + amount);
          GrantedHead(s.waiting);
          GrantedFront(front, s.waiting[1..]);
          SumSnoc(s.ready, Envelope(front.value, Permit(front.len, front.got)));
        }
      case CancelWaiting(i) => if i < |s.waiting| { GrantedWithout(s.waiting, i); }
      case Enqueue(i) => if i < |s.ready| { SumRemoved(s.ready, i); SumSnoc(s.queue, s.ready[i]); }
      case CancelReady(i) => if i < |s.ready| { SumRemoved(s.ready, i); }
      case Receive => if s.queue != [] { SumHead(s.queue); SumSnoc(s.received, s.queue[0]); }
      case Split(i) =>
        if i < |s.received| { SumRemoved(s.received, i); SumAdded(s.detached, s.received[i].permit); }
      case DropEnvelope(i) => if i < |s.received| { SumRemoved(s.received, i); }
      case DropPermit(i) => if i < |s.detached| { SumWithout(s.detached, i); }
      case CloseReceiver =>
      case DropReceiver => SumNone<T>();
    }
  }

  lemma JoinLine<T>(ws: seq<Waiter<T>>, w: Waiter<T>, total: nat)
    requires Orderly(ws, total) && Reasonable(w, total) && w.got == 0
    ensures Orderly(ws + [w], total)
  {
  }

  lemma LeaveLine<T>(ws: seq<Waiter<T>>, i: nat, total: nat)
    requires Orderly(ws, total) && i < |ws|
    ensures Orderly(Without(ws, i), total)
  {
  }

  lemma ServeFront<T>(ws: seq<Waiter<T>>, front: Waiter<T>, total: nat)
    requires Orderly(ws, total) && ws != []
    ensures Reasonable(ws[0], total) && Orderly(ws[1..], total)
    ensures Reasonable(front, total) ==> Orderly([front] + ws[1..], total)
  {
  }

  lemma {:induction false} StepKeepsLine<T>(s: State<T>, a: Action<T>)
    requires Orderly(s.waiting, s.total)
    ensures Orderly(Step(s, a).waiting, s.total)
  {
    hide Orderly;
    match a {
      case Send(value, len) =>
        if Fits(len, s.total) { JoinLine(s.waiting, Waiter(value, len, PermitsFor(len), 0), s.total); }
      case CancelWaiting(i) => if i < |s.waiting| { LeaveLine(s.waiting, i, s.total); }
      case Grant(amount) =>
        if s.waiting != [] {
          ServeFront(s.waiting, s.waiting[0].(got := s.waiting[0].got + amount), s.total);
        }
      case _ =>
    }
  }

  lemma ChargedSnoc<T>(es: seq<Envelope<T>>, e: Envelope<T>, total: nat)
    requires AllCharged(es, total) && Charged(e.permit, total)
    ensures AllCharged(es + [e], total)
  {
  }

  lemma ChargedWithout<T>(es: seq<Envelope<T>>, i: nat, total: nat)
    requires AllCharged(es, total) && i < |es|
    ensures AllCharged(Without(es, i), total) && Charged(es[i].permit, total)
  {
  }

  lemma ChargedTail<T>(es: seq<Envelope<T>>, total: nat)
    requires AllCharged(es, total) && es != []
    ensures AllCharged(es[1..], total) && Charged(es[0].permit, total)
  {
  }

  lemma ChargedNone<T>(total: nat)
    ensures AllCharged<T>([], total)
  {
  }

  lemma PermitsChange(ps: seq<Permit>, p: Permit, total: nat)
    requires PermitsCharged(ps, total)
    ensures Charged(p, total) ==> PermitsCharged(ps + [p], total)
    ensures forall i :: 0 <= i < |ps| ==> PermitsCharged(Without(ps, i), total)
  {
  }

  lemma {:induction false} StepKeepsCharges<T>(s: State<T>, a: Action<T>)
    requires Orderly(s.waiting, s.total) && FairlyCharged(s)
    ensures FairlyCharged(Step(s, a))
  {
    hide AllCharged, PermitsCharged, Orderly;
    match a {
      case TrySend(value, len) =>
        if TrySendResult(s, value, len) == Sent { ChargedSnoc(s.queue, Charge(value, len), s.total); }
      case Grant(amount) =>
        if s.waiting != [] {
          var front := s.waiting[0];
          ServeFront(s.waiting, front, s.total);
          ChargedSnoc(s.ready, Charge(front.value, front.len), s.total);
        }
      case Enqueue(i) =>
        if i < |s.ready| {
          ChargedWithout(s.ready, i, s.total);
          ChargedSnoc(s.queue, s.ready[i], s.total);
        }
      case CancelReady(i) => if i < |s.ready| { ChargedWithout(s.ready, i, s.total); }
      case Receive =>
        if s.queue != [] {
          ChargedTail(s.queue, s.total);
          ChargedSnoc(s.received, s.queue[0], s.total);
        }
      case Split(i) =>
        if i < |s.received| {
          ChargedWithout(s.received, i, s.total);
          PermitsChange(s.detached, s.received[i].permit, s.total);
        }
      case DropEnvelope(i) => if i < |s.received| { ChargedWithout(s.received, i, s.total); }
      case DropPermit(i) => if i < |s.detached| { PermitsChange(s.detached, s.detached[i], s.total); }
      case DropReceiver => ChargedNone<T>(s.total);
      case _ =>
    }
  }

  lemma {:induction false} StepKeepsBounds<T>(s: State<T>, a: Action<T>)
    requires QueueBounded(s)
    ensures var t := Step(s, a);
            QueueBounded(t) && t.capacity == s.capacity && t.total == s.total
  {
  }

  /** Every step keeps the books. */
  lemma {:induction false} StepSound<T>(s: State<T>, a: Action<T>)
    requires Sound(s)
    ensures var t := Step(s, a); Sound(t) && t.capacity == s.capacity && t.total == s.total
  {
    hide Step, Conserved, Orderly, FairlyCharged, QueueBounded;
    StepConserves(s, a);
    StepKeepsLine(s, a);
    StepKeepsCharges(s, a);
    StepKeepsBounds(s, a);
  }

  lemma {:induction false} InitSound<T>(capacity: nat, total: nat)
    ensures Sound(Init<T>(capacity, total))
  {
  }

  /** Every interleaving keeps the books. */
  lemma {:induction false} RunSound<T>(capacity: nat, total: nat, run: seq<Action<T>>)
    ensures var s := Run(Init(capacity, total), run);
            Sound(s) && s.total == total && s.capacity == capacity
  {
    hide Step, Sound;
    InitSound<T>(capacity, total);
    if run != [] {
      RunSound(capacity, total, run[..|run| - 1]);
      StepSound(Run(Init<T>(capacity, total), run[..|run| - 1]), run[|run| - 1]);
    }
  }

  // ---------------------------------------------------------------- progress

  /** A step by which the receiver consumes, or a sender that has its permits moves on. */
  predicate Consumes<T>(a: Action<T>) {
    a.Receive? || a.DropEnvelope? || a.DropPermit? || a.Enqueue?
  }

  /** With no item holding permits the front waiter can be served in full: nobody behind it keeps a part. */
  lemma {:induction false} FrontCanBeServed<T>(s: State<T>)
    requires Sound(s) && s.waiting != [] && Holders(s) == []
    ensures var front := s.waiting[0];
            var t := Step(s, Grant(front.need - front.got));
            t.waiting == s.waiting[1..] && t.ready == [Charge(front.value, front.len)]
  {
    OnlyFrontHolds(s.waiting[1..]);
    assert |Holders(s)| == 0;
    assert |PermitsOf(s.ready)| == |s.ready|;
  }

  lemma {:induction false} RunCons<T>(s: State<T>, a: Action<T>, rest: seq<Action<T>>)
    ensures Run(s, [a] + rest) == Run(Step(s, a), rest)
  {
    hide Step;
    var run := [a] + rest;
    if rest == [] {
      assert run == [a] && run[..0] == [];
    } else {
      var n := |rest| - 1;
      assert run[..|run| - 1] == [a] + rest[..n];
      RunCons(s, a, rest[..n]);
    }
  }

  /** How far the items are from being consumed. */
  function Distance<T>(s: State<T>): nat {
    3 * |s.ready| + 2 * |s.queue| + |s.received| + |s.detached|
  }

  /** While some item holds permits a consuming step brings them nearer to release. */
  lemma {:induction false} NextConsumer<T>(s: State<T>) returns (a: Action<T>)
    requires QueueBounded(s) && s.capacity > 0 && Distance(s) > 0
    ensures Consumes(a) && Distance(Step(s, a)) < Distance(s) && Step(s, a).waiting == s.waiting
  {
    if s.detached != [] {
      a := DropPermit(0);
    } else if s.received != [] {
      a := DropEnvelope(0);
    } else if s.queue != [] {
      a := Receive;
    } else {
      a := Enqueue(0);
    }
  }

  lemma NothingHeld<T>(s: State<T>)
    requires Distance(s) == 0
    ensures Holders(s) == []
  {
  }

  /** Consuming alone, with no sender giving up, releases every permit held by an item. */
  lemma {:induction false} Drain<T>(s: State<T>) returns (rest: seq<Action<T>>)
    requires Sound(s) && s.capacity > 0
    ensures forall i :: 0 <= i < |rest| ==> Consumes(rest[i])
    ensures var t := Run(s, rest); Sound(t) && t.waiting == s.waiting && Holders(t) == []
    decreases Distance(s)
  {
    rest := [];
    if Distance(s) == 0 {
      NothingHeld(s);
    } else {
      var a := NextConsumer(s);
      hide Step, Sound, Holders;
      StepSound(s, a);
      var more := Drain(Step(s, a));
      RunCons(s, a, more);
      rest := [a] + more;
    }
  }

  /**
    * The line never jams: from every reachable state with a waiter, a run in which the receiver
    * consumes and senders that have their permits move on lets the front waiter be served in full.
    */
  lemma {:induction false} LineNeverJams<T>(
    capacity: nat, total: nat, run: seq<Action<T>>) returns (rest: seq<Action<T>>)
    requires capacity > 0 && Run(Init(capacity, total), run).waiting != []
    ensures forall i :: 0 <= i < |rest| ==> Consumes(rest[i])
    ensures var s := Run(Init(capacity, total), run);
            var front := s.waiting[0];
            front.got <= front.need &&
            var t := Step(Run(s, rest), Grant(front.need - front.got));
            t.waiting == s.waiting[1..] && t.ready == [Charge(front.value, front.len)]
  {
    var s := Run(Init<T>(capacity, total), run);
    RunSound(capacity, total, run);
    hide Step, Run, Holders;
    rest := Drain(s);
    FrontCanBeServed(Run(s, rest));
  }

  lemma {:induction false} OnlyFrontHolds<T>(ws: seq<Waiter<T>>)
    requires forall i :: 0 <= i < |ws| ==> ws[i].got == 0
    ensures Granted(ws) == 0
  {
    if ws != [] { OnlyFrontHolds(ws[1..]); }
  }

  // ---------------------------------------------------------------- live bytes

  lemma {:induction false} BytesAtMostSum(ps: seq<Permit>, total: nat)
    requires total <= MAX_U32 && PermitsCharged(ps, total)
    ensures Bytes(ps) <= Sum(ps)
  {
    if ps != [] {
      assert Charged(ps[0], total);
      BytesAtMostSum(ps[1..], total);
    }
  }

  /** Payload bytes alive anywhere past admission stay within the budget. */
  lemma {:induction false} LiveBytesBounded<T>(s: State<T>)
    requires Sound(s) && s.total <= MAX_U32
    ensures Bytes(Holders(s)) <= s.total
  {
    AllHoldersCharged(s);
    BytesAtMostSum(Holders(s), s.total);
  }

  lemma {:induction false} AllHoldersCharged<T>(s: State<T>)
    requires FairlyCharged(s)
    ensures PermitsCharged(Holders(s), s.total)
  {
  }

  /** In every run of a channel with this budget, live payload bytes stay within it. */
  ghost predicate MemoryBounded<T(!new)>(capacity: nat, total: nat) {
    forall run: seq<Action<T>> :: Bytes(Holders(Run(Init(capacity, total), run))) <= total
  }

  /**
    * The byte bound holds exactly for budgets that fit 32 bits. With a larger one a payload of
    * the whole budget is undercharged and leaves room for one more.
    */
  lemma {:induction false} MemoryBoundedIff<T(!new)>(capacity: nat, total: nat, value: T)
    requires capacity > 0
    ensures MemoryBounded<T>(capacity, total) <==> total <= MAX_U32
  {
    if total <= MAX_U32 {
      forall run: seq<Action<T>>
        ensures Bytes(Holders(Run(Init(capacity, total), run))) <= total
      {
        RunSound(capacity, total, run);
        LiveBytesBounded(Run(Init(capacity, total), run));
      }
    } else {
      var run := Undercharged(capacity, total, value);
    }
  }

  lemma {:induction false} Undercharged<T>(capacity: nat, total: nat, value: T) returns (run: seq<Action<T>>)
    requires capacity > 0 && total > MAX_U32
    ensures Bytes(Holders(Run(Init(capacity, total), run))) > total
  {
    var s0 := Init<T>(capacity, total);
    var whole, extra := Charge(value, total), Charge(value, 1);
    var first := [TrySend(value, total)];
    var second := first + [Receive];
    run := second + [TrySend(value, 1)];
    assert first[..0] == [] && second[..1] == first && run[..2] == second;
    var s1 := s0.(free := total - MAX_U32, queue := [whole]);
    assert Run(s0, first) == s1;
    var s2 := s1.(queue := [], received := [whole]);
    assert s1.queue[1..] == [];
    assert Run(s0, second) == s2;
    var s3 := s2.(free := s2.free - 1, queue := [extra]);
    assert Run(s0, run) == s3;
    assert Holders(s3) == [extra.permit, whole.permit];
    assert Holders(s3)[1..] == [whole.permit];
  }
}

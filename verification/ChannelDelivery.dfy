/** What is sent arrives once and in order. */
module ChannelDelivery {
  import opened BoundedChannel

  /** The item a step reports as sent, and the one it hands to the receiver. */
  function AdmittedBy<T>(s: State<T>, a: Action<T>): seq<T> {
    match a
    case TrySend(value, len) => if TrySendResult(s, value, len) == Sent then [value] else []
    case Enqueue(i) =>
      if i < |s.ready| && s.receiver == Listening && |s.queue| < s.capacity then [s.ready[i].value] else []
    case _ => []
  }

  function ReceivedBy<T>(s: State<T>, a: Action<T>): seq<T> {
    if a == Receive && s.queue != [] && s.receiver != Gone then [s.queue[0].value] else []
  }

  function Admitted<T>(s: State<T>, run: seq<Action<T>>): seq<T> {
    if run == [] then []
    else
      var before := run[..|run| - 1];
      Admitted(s, before) + AdmittedBy(Run(s, before), run[|run| - 1])
  }

  function Delivered<T>(s: State<T>, run: seq<Action<T>>): seq<T> {
    if run == [] then []
    else
      var before := run[..|run| - 1];
      Delivered(s, before) + ReceivedBy(Run(s, before), run[|run| - 1])
  }

  function Values<T>(es: seq<Envelope<T>>): seq<T> { seq(|es|, i requires 0 <= i < |es| => es[i].value) }

  lemma {:induction false} StepDelivers<T>(s: State<T>, a: Action<T>)
    ensures var t := Step(s, a);
            t.receiver != Gone ==>
              s.receiver != Gone && Values(s.queue) + AdmittedBy(s, a) == ReceivedBy(s, a) + Values(t.queue)
    ensures Step(s, a).receiver == Gone ==> ReceivedBy(s, a) == []
  {
  }

  lemma {:induction false} Regroup<T>(
    admitted: seq<T>, delivered: seq<T>, queued: seq<T>, more: seq<T>, out: seq<T>, left: seq<T>)
    requires delivered <= admitted
    ensures out == [] ==> delivered + out <= admitted + more
    ensures admitted == delivered + queued && queued + more == out + left ==>
              admitted + more == delivered + out + left && delivered + out <= admitted + more
  {
    assert delivered + [] == delivered;
    if admitted == delivered + queued && queued + more == out + left {
      assert admitted + more == delivered + (queued + more);
      assert delivered + (out + left) == delivered + out + left;
    }
  }

  /**
    * Admitted items arrive once and in order: what was admitted is what was delivered followed
    * by what is queued. Once the receiver is gone, what was delivered is a prefix of it.
    */
  lemma {:induction false} DeliveredInOrder<T>(capacity: nat, total: nat, run: seq<Action<T>>)
    ensures var s0 := Init<T>(capacity, total);
            var s := Run(s0, run);
            && Delivered(s0, run) <= Admitted(s0, run)
            && (s.receiver != Gone ==> Admitted(s0, run) == Delivered(s0, run) + Values(s.queue))
  {
    if run != [] {
      hide Step, AdmittedBy, ReceivedBy, Values, Init;
      var s0 := Init<T>(capacity, total);
      var before, a := run[..|run| - 1], run[|run| - 1];
      var s := Run(s0, before);
      DeliveredInOrder(capacity, total, before);
      StepDelivers(s, a);
      Regroup(Admitted(s0, before), Delivered(s0, before), Values(s.queue),
              AdmittedBy(s, a), ReceivedBy(s, a), Values(Step(s, a).queue));
    }
  }
}

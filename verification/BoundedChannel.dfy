/**
  * A queue bounded both by item count and by bytes. Permits of a semaphore pay for the bytes:
  * a sender takes them before it may enqueue, they travel with the item, and they return when
  * the item's envelope, or the permit split off from it, is dropped.
  *
  * Senders run concurrently, so an awaited send is several atomic steps: it waits in line for
  * permits, which the semaphore hands to the front of the line as they become free, possibly
  * a part at a time; then it waits for a slot in the queue. Either wait can be cancelled.
  */
module BoundedChannel {
  const MAX_U32: nat := 0xFFFF_FFFF

  /** Permits charged for a payload: at least one, and never more than fit 32 bits. */
  function PermitsFor(len: nat): (count: nat)
    ensures len == 0 ==> count == 1
    ensures 1 <= len <= 0xFFFF_FFFF ==> count == len
    ensures len > 0xFFFF_FFFF ==> count == 0xFFFF_FFFF
  {
    var floored := if len < 1 then 1 else len;
    if floored > MAX_U32 then MAX_U32 else floored
  }

  /** Could a payload ever fit the whole budget? An empty one needs a byte too. */
  predicate Fits(len: nat, total: nat) { (if len < 1 then 1 else len) <= total }

  /** A share of the budget; `len` remembers the payload bytes it stands for. */
  datatype Permit = Permit(len: nat, count: nat)

  datatype Envelope<T> = Envelope(value: T, permit: Permit)

  /** A sender in line for permits: it needs `need` and has been given `got` so far. */
  datatype Waiter<T> = Waiter(value: T, len: nat, need: nat, got: nat)

  datatype Receiver = Listening | Closed | Gone

  datatype SendResult<T> =
    | Sent
    | BudgetExceeded(value: T)
    | ChannelFull(value: T)
    | ChannelClosed(value: T)

  /**
    * `ready` holds senders that have their permits and wait for a slot, `received` the live
    * envelopes on the receiver's side and `detached` the permits split off from them.
    */
  datatype State<T> = State(
    total: nat, capacity: nat, free: nat,
    waiting: seq<Waiter<T>>, ready: seq<Envelope<T>>, queue: seq<Envelope<T>>,
    received: seq<Envelope<T>>, detached: seq<Permit>, receiver: Receiver)

  datatype Action<T> =
    | TrySend(value: T, len: nat)
    | Send(value: T, len: nat)
    | Grant(amount: nat)
    | CancelWaiting(i: nat)
    | Enqueue(i: nat)
    | CancelReady(i: nat)
    | Receive
    | Split(i: nat)
    | DropEnvelope(i: nat)
    | DropPermit(i: nat)
    | CloseReceiver
    | DropReceiver

  function Without<A>(s: seq<A>, i: nat): seq<A>
    requires i < |s|
  {
    s[..i] + s[i + 1..]
  }

  function PermitsOf<T>(es: seq<Envelope<T>>): seq<Permit> { seq(|es|, i requires 0 <= i < |es| => es[i].permit) }

  function Sum(ps: seq<Permit>): nat { if ps == [] then 0 else ps[0].count + Sum(ps[1..]) }

  function Bytes(ps: seq<Permit>): nat { if ps == [] then 0 else ps[0].len + Bytes(ps[1..]) }

  function Granted<T>(ws: seq<Waiter<T>>): nat { if ws == [] then 0 else ws[0].got + Granted(ws[1..]) }

  /** Every permit in existence outside the semaphore and its line. */
  function Holders<T>(s: State<T>): seq<Permit> {
    PermitsOf(s.ready) + PermitsOf(s.queue) + PermitsOf(s.received) + s.detached
  }

  function Init<T>(capacity: nat, total: nat): State<T> {
    State(total, capacity, total, [], [], [], [], [], Listening)
  }

  // ---------------------------------------------------------------- steps

  /** The verdict on an immediate send; the budget is asked before the queue. */
  function TrySendResult<T>(s: State<T>, value: T, len: nat): SendResult<T> {
    if !Fits(len, s.total) || PermitsFor(len) > s.free then BudgetExceeded(value)
    else if s.receiver != Listening then ChannelClosed(value)
    else if |s.queue| >= s.capacity then ChannelFull(value)
    else Sent
  }

  function Charge<T>(value: T, len: nat): Envelope<T> { Envelope(value, Permit(len, PermitsFor(len))) }

  function Step<T>(s: State<T>, a: Action<T>): State<T> {
    match a
    case TrySend(value, len) =>
      if TrySendResult(s, value, len) == Sent
      then s.(free := s.free - PermitsFor(len), queue := s.queue + [Charge(value, len)])
      else s
    case Send(value, len) =>
      if Fits(len, s.total) then s.(waiting := s.waiting + [Waiter(value, len, PermitsFor(len), 0)]) else s
    case Grant(amount) =>
      if s.waiting == [] || amount > s.free || s.waiting[0].got + amount > s.waiting[0].need then s
      else
        var front := s.waiting[0].(got := s.waiting[0].got + amount);
        if front.got == front.need then
          s.(free := s.free - amount, waiting := s.waiting[1..],
             ready := s.ready + [Envelope(front.value, Permit(front.len, front.got))])
        else
          s.(free := s.free - amount, waiting := [front] + s.waiting[1..])
    case CancelWaiting(i) =>
      if i < |s.waiting| then s.(free := s.free + s.waiting[i].got, waiting := Without(s.waiting, i)) else s
    case Enqueue(i) =>
      if i >= |s.ready| then s
      else if s.receiver != Listening then
        s.(free := s.free + s.ready[i].permit.count, ready := Without(s.ready, i))
      else if |s.queue| >= s.capacity then s
      else s.(queue := s.queue + [s.ready[i]], ready := Without(s.ready, i))
    case CancelReady(i) =>
      if i < |s.ready| then s.(free := s.free + s.ready[i].permit.count, ready := Without(s.ready, i)) else s
    case Receive =>
      if s.queue == [] || s.receiver == Gone then s
      else s.(queue := s.queue[1..], received := s.received + [s.queue[0]])
    case Split(i) =>
      if i < |s.received|
      then s.(received := Without(s.received, i), detached := s.detached + [s.received[i].permit])
      else s
    case DropEnvelope(i) =>
      if i < |s.received|
      then s.(free := s.free + s.received[i].permit.count, received := Without(s.received, i))
      else s
    case DropPermit(i) =>
      if i < |s.detached|
      then s.(free := s.free + s.detached[i].count, detached := Without(s.detached, i))
      else s
    case CloseReceiver => if s.receiver == Listening then s.(receiver := Closed) else s
    case DropReceiver => s.(free := s.free + Sum(PermitsOf(s.queue)), queue := [], receiver := Gone)
  }

  function Run<T>(s: State<T>, run: seq<Action<T>>): State<T> {
    if run == [] then s else Step(Run(s, run[..|run| - 1]), run[|run| - 1])
  }
}

/** The channel as an object that its senders and its receiver update in place. */
module ByteBoundedChannel {
  import opened BoundedChannel
  import ChannelAccounting

  class ByteBoundedChannel<T(==)> {
    const total: nat
    const capacity: nat
    var free: nat
    var waiting: seq<Waiter<T>>
    var ready: seq<Envelope<T>>
    var queue: seq<Envelope<T>>
    var received: seq<Envelope<T>>
    var detached: seq<Permit>
    var receiver: Receiver

    function Current(): State<T>
      reads this
    {
      State(total, capacity, free, waiting, ready, queue, received, detached, receiver)
    }

    /** Permits are conserved, fairly charged and orderly awaited, and the queue is bounded. */
    ghost predicate Valid()
      reads this
    {
      ChannelAccounting.Sound(Current())
    }

    /** The queue must have room for an item. */
    constructor (itemCapacity: nat, maxQueuedBytes: nat)
      requires itemCapacity > 0
      ensures Valid()
      ensures Current() == Init(itemCapacity, maxQueuedBytes)
    {
      total, capacity, free := maxQueuedBytes, itemCapacity, maxQueuedBytes;
      waiting, ready, queue, received, detached, receiver := [], [], [], [], [], Listening;
      ChannelAccounting.InitSound<T>(itemCapacity, maxQueuedBytes);
    }

    /**
      * Takes the permits, then tries the queue; a refused envelope is dropped and its permits
      * go back, so a rejection leaves no trace and returns the value.
      */
    method TrySend(value: T, len: nat) returns (result: SendResult<T>)
      requires Valid()
      modifies this
      ensures Valid()
      ensures Current() == Step(old(Current()), Action.TrySend(value, len))
      ensures result == TrySendResult(old(Current()), value, len)
      ensures var bytes := if len == 0 then 1 else len;
              var count := if bytes > 0xFFFF_FFFF then 0xFFFF_FFFF else bytes;
              if bytes > total || count > old(free) then result == BudgetExceeded(value) && Current() == old(Current())
              else if old(receiver) != Listening then result == ChannelClosed(value) && Current() == old(Current())
              else if |old(queue)| >= capacity then result == ChannelFull(value) && Current() == old(Current())
              else
                && result == Sent
                && Current() == old(Current()).(
                     free := old(free) - count, queue := old(queue) + [Envelope(value, Permit(len, count))])
    {
      hide ChannelAccounting.Sound;
      ChannelAccounting.StepSound(Current(), Action.TrySend(value, len));
      if (if len < 1 then 1 else len) > total {
        return BudgetExceeded(value);
      }
      var count := PermitsFor(len);
      if count > free {
        return BudgetExceeded(value);
      }
      free := free - count;
      if receiver != Listening {
        result := ChannelClosed(value);
        free := free + count;
      } else if |queue| >= capacity {
        result := ChannelFull(value);
        free := free + count;
      } else {
        queue := queue + [Envelope(value, Permit(len, count))];
        result := Sent;
      }
    }

    /** Starts an awaited send: refused at once if it could never fit, else it joins the line. */
    method BeginSend(value: T, len: nat) returns (accepted: bool)
      requires Valid()
      modifies this
      ensures Valid()
      ensures var bytes := if len == 0 then 1 else len;
              && (accepted <==> bytes <= total)
              && Current() == old(Current()).(waiting := old(waiting) + if !accepted then [] else
                   [Waiter(value, len, if bytes > 0xFFFF_FFFF then 0xFFFF_FFFF else bytes, 0)])
      ensures Current() == Step(old(Current()), Send(value, len))
    {
      hide ChannelAccounting.Sound;
      ChannelAccounting.StepSound(Current(), Send(value, len));
      if (if len < 1 then 1 else len) > total {
        return false;
      }
      waiting := waiting + [Waiter(value, len, PermitsFor(len), 0)];
      accepted := true;
    }

    /** The semaphore moves free permits to the front of the line. */
    method GrantPermits(amount: nat)
      requires Valid() && waiting != [] && amount <= free && waiting[0].got + amount <= waiting[0].need
      modifies this
      ensures Valid()
      ensures Current() == Step(old(Current()), Grant(amount))
      ensures var front := old(waiting)[0];
              var got := front.got + amount;
              Current() ==
                if got == front.need then
                  old(Current()).(free := old(free) - amount, waiting := old(waiting)[1..],
                                  ready := old(ready) + [Envelope(front.value, Permit(front.len, got))])
                else
                  old(Current()).(free := old(free) - amount, waiting := [front.(got := got)] + old(waiting)[1..])
    {
      hide ChannelAccounting.Sound;
      ChannelAccounting.StepSound(Current(), Grant(amount));
      var front := waiting[0].(got := waiting[0].got + amount);
      free := free - amount;
      if front.got == front.need {
        waiting := waiting[1..];
        ready := ready + [Envelope(front.value, Permit(front.len, front.got))];
      } else {
        waiting := [front] + waiting[1..];
      }
    }

    /** A sender gives up while in line. */
    method CancelSend(i: nat)
      requires Valid() && i < |waiting|
      modifies this
      ensures Valid()
      ensures Current() == Step(old(Current()), CancelWaiting(i))
      ensures free == old(free) + old(waiting)[i].got && waiting == old(waiting)[..i] + old(waiting)[i + 1..]
    {
      hide ChannelAccounting.Sound;
      ChannelAccounting.StepSound(Current(), CancelWaiting(i));
      free := free + waiting[i].got;
      waiting := Without(waiting, i);
    }

    /** A sender with its permits gets a slot, or the value back if nobody listens. */
    method FinishSend(i: nat) returns (result: SendResult<T>)
      requires Valid() && i < |ready| && (receiver == Listening ==> |queue| < capacity)
      modifies this
      ensures Valid()
      ensures Current() == Step(old(Current()), Enqueue(i))
      ensures ready == old(ready)[..i] + old(ready)[i + 1..]
      ensures old(receiver) == Listening ==>
                result == Sent && queue == old(queue) + [old(ready)[i]] && free == old(free)
      ensures old(receiver) != Listening ==>
                && result == ChannelClosed(old(ready)[i].value) && queue == old(queue)
                && free == old(free) + old(ready)[i].permit.count
    {
      hide ChannelAccounting.Sound;
      ChannelAccounting.StepSound(Current(), Enqueue(i));
      var envelope := ready[i];
      ready := Without(ready, i);
      if receiver == Listening {
        queue := queue + [envelope];
        result := Sent;
      } else {
        free := free + envelope.permit.count;
        result := ChannelClosed(envelope.value);
      }
    }

    /** Hands the oldest item to the receiver; its permits stay charged. */
    method Recv() returns (envelope: Envelope<T>)
      requires Valid() && queue != [] && receiver != Gone
      modifies this
      ensures Valid()
      ensures envelope == old(queue)[0] && queue == old(queue)[1..]
      ensures received == old(received) + [envelope] && free == old(free)
      ensures Current() == Step(old(Current()), Receive)
    {
      hide ChannelAccounting.Sound;
      ChannelAccounting.StepSound(Current(), Receive);
      envelope := queue[0];
      queue := queue[1..];
      received := received + [envelope];
    }

    /** Detaches the payload while its bytes stay charged. */
    method SplitEnvelope(i: nat) returns (value: T, permit: Permit)
      requires Valid() && i < |received|
      modifies this
      ensures Valid()
      ensures value == old(received)[i].value && permit == old(received)[i].permit
      ensures received == old(received)[..i] + old(received)[i + 1..]
      ensures detached == old(detached) + [permit] && free == old(free)
      ensures Current() == Step(old(Current()), Split(i))
    {
      hide ChannelAccounting.Sound;
      ChannelAccounting.StepSound(Current(), Split(i));
      value, permit := received[i].value, received[i].permit;
      received := Without(received, i);
      detached := detached + [permit];
    }

    /** Unwraps the payload; its bytes are released. */
    method IntoInner(i: nat) returns (value: T)
      requires Valid() && i < |received|
      modifies this
      ensures Valid()
      ensures value == old(received)[i].value
      ensures received == old(received)[..i] + old(received)[i + 1..]
      ensures free == old(free) + old(received)[i].permit.count
      ensures Current() == Step(old(Current()), DropEnvelope(i))
    {
      hide ChannelAccounting.Sound;
      ChannelAccounting.StepSound(Current(), DropEnvelope(i));
      value := received[i].value;
      free := free + received[i].permit.count;
      received := Without(received, i);
    }

    method ReleasePermit(i: nat)
      requires Valid() && i < |detached|
      modifies this
      ensures Valid()
      ensures Current() == Step(old(Current()), DropPermit(i))
      ensures free == old(free) + old(detached)[i].count && detached == old(detached)[..i] + old(detached)[i + 1..]
    {
      hide ChannelAccounting.Sound;
      ChannelAccounting.StepSound(Current(), DropPermit(i));
      free := free + detached[i].count;
      detached := Without(detached, i);
    }

    /** A sender with its permits gives up while it waits for a slot. */
    method CancelReadySend(i: nat)
      requires Valid() && i < |ready|
      modifies this
      ensures Valid()
      ensures Current() == Step(old(Current()), CancelReady(i))
      ensures free == old(free) + old(ready)[i].permit.count && ready == old(ready)[..i] + old(ready)[i + 1..]
    {
      hide ChannelAccounting.Sound;
      ChannelAccounting.StepSound(Current(), CancelReady(i));
      free := free + ready[i].permit.count;
      ready := Without(ready, i);
    }

    /** A receiver that closes takes no more items; what is queued it can still receive. */
    method Close()
      requires Valid()
      modifies this
      ensures Valid()
      ensures Current() == Step(old(Current()), CloseReceiver)
      ensures receiver == (if old(receiver) == Listening then Closed else old(receiver))
      ensures queue == old(queue) && free == old(free)
    {
      hide ChannelAccounting.Sound;
      ChannelAccounting.StepSound(Current(), CloseReceiver);
      if receiver == Listening {
        receiver := Closed;
      }
    }

    /** Dropping the receiver drops what is still queued, item by item. */
    method DropReceiverHalf()
      requires Valid()
      modifies this
      ensures Valid()
      ensures Current() == Step(old(Current()), DropReceiver)
      ensures queue == [] && receiver == Gone && free == old(free) + Sum(PermitsOf(old(queue)))
    {
      hide ChannelAccounting.Sound, Sum, PermitsOf;
      ChannelAccounting.StepSound(Current(), DropReceiver);
      receiver := Gone;
      while queue != []
        invariant receiver == Gone
        invariant Current() == old(Current()).(free := free, queue := queue, receiver := Gone)
        invariant free + Sum(PermitsOf(queue)) == old(free) + Sum(PermitsOf(old(queue)))
        decreases |queue|
      {
        ChannelAccounting.SumHead(queue);
        free := free + queue[0].permit.count;
        queue := queue[1..];
      }
      ChannelAccounting.SumNone<T>();
    }

    /** Slots still open for items, whatever the byte budget. */
    method Capacity() returns (slots: nat)
      requires Valid()
      ensures slots + |queue| == capacity
    {
      slots := capacity - |queue|;
    }

    /** Whatever calls were made, live payload bytes are within a budget that fits 32 bits. */
    lemma LiveBytesWithinBudget()
      requires Valid() && total <= MAX_U32
      ensures Bytes(Holders(Current())) <= total
      ensures Sum(Holders(Current())) <= total - free
    {
      ChannelAccounting.LiveBytesBounded(Current());
    }
  }

  /** A new channel of `n` slots and at least as many bytes takes `n` items of one byte; the next finds
      the queue full, or the budget spent when the bytes run out with the slots. */
  method FillUp<T(==)>(n: nat, total: nat, value: T) returns (results: seq<SendResult<T>>, next: SendResult<T>)
    requires 0 < n <= total
    ensures results == seq(n, _ => Sent)
    ensures next == if total > n then ChannelFull(value) else BudgetExceeded(value)
  {
    hide ChannelAccounting.Sound, Step, TrySendResult;
    var channel := new ByteBoundedChannel<T>(n, total);
    results := [];
    for i := 0 to n
      invariant channel.Valid() && channel.capacity == n && channel.total == total
      invariant channel.free == total - i && |channel.queue| == i && channel.receiver == Listening
      invariant results == seq(i, _ => Sent)
    {
      var result := channel.TrySend(value, 1);
      results := results + [result];
    }
    next := channel.TrySend(value, 1);
  }
}

/**
 The mutable session object (src/mediator-transport.js, class MediatorSession): each
 method is one synchronous stretch of the source between two awaits, proved against
 the functions of `Mailbox` and `SeenSet`.
 */
module MediatorSession {
  import opened Wrappers
  import opened Mailbox
  import S = SeenSet

  /** The callback `_deliver` awaits before the frame is acked. */
  datatype Listener = NoListener | OnMessage | OnMediatorMessage

  /** What the frame task does after its dedup check. */
  datatype Dispatch = Reack | Handed(resolved: Option<Waiter>, listener: Listener)

  class MediatorSession {
    const mediator: string
    const hasOnMessage: bool
    const hasOnMediatorMessage: bool
    var inbox: seq<Delivery>
    var waiters: seq<Waiter>
    var seen: seq<string>
    var userClosed: bool
    var timers: nat
    var serials: nat
    ghost var log: seq<Settlement>
    ghost var entered: seq<string>

    ghost function View(): Box
      reads this
    {
      Box(inbox, waiters, timers, serials, log)
    }

    ghost predicate Valid()
      reads this
    {
      Inv(View()) && S.IsWindow(seen, entered)
    }

    constructor (mediator: string, hasOnMessage: bool, hasOnMediatorMessage: bool)
      ensures Valid() && View() == EMPTY && seen == [] && !userClosed
      ensures this.mediator == mediator
      ensures this.hasOnMessage == hasOnMessage && this.hasOnMediatorMessage == hasOnMediatorMessage
    {
      this.mediator := mediator;
      this.hasOnMessage := hasOnMessage;
      this.hasOnMediatorMessage := hasOnMediatorMessage;
      inbox, waiters, seen, userClosed := [], [], [], false;
      timers, serials := 0, 0;
      log, entered := [], [];
    }

    /** `_waiters.findIndex`. */
    method FindWaiter(d: Delivery) returns (i: nat)
      ensures i == FirstWaiter(waiters, d)
    {
      i := 0;
      while i < |waiters|
        invariant i <= |waiters|
        invariant FirstWaiter(waiters, d) == i + FirstWaiter(waiters[i..], d)
      {
        if Matches(waiters[i], d) {
          return;
        }
        assert waiters[i..][1..] == waiters[i + 1..];
        i := i + 1;
      }
    }

    /** `_inbox.findIndex`. */
    method FindBuffered(w: Waiter) returns (i: nat)
      ensures i == FirstBuffered(inbox, w)
    {
      i := 0;
      while i < |inbox|
        invariant i <= |inbox|
        invariant FirstBuffered(inbox, w) == i + FirstBuffered(inbox[i..], w)
      {
        if Matches(w, inbox[i]) {
          return;
        }
        assert inbox[i..][1..] == inbox[i + 1..];
        i := i + 1;
      }
    }

    /** `_deliver` up to its first await. */
    method Deliver(message: Message, sender: Sender) returns (resolved: Option<Waiter>, listener: Listener)
      requires Valid()
      modifies this
      ensures Valid() && seen == old(seen) && entered == old(entered) && userClosed == old(userClosed)
      ensures View() == old(Step(mediator, View(), BoxEvent.Deliver(message, sender)))
      ensures resolved.Some? <==> exists w :: w in old(waiters) && Matches(w, Delivery(old(serials), message, sender))
      ensures resolved.Some? ==> log == old(log) + [Resolved(resolved.value, Delivery(old(serials), message, sender))]
      ensures resolved.Some? || (sender.did == mediator && message.thid == None && message.pthid == None) ==> inbox == old(inbox)
      ensures resolved.None? && !(sender.did == mediator && message.thid == None && message.pthid == None) ==>
        inbox == (if |old(inbox)| < 256 then old(inbox) else old(inbox)[1..]) + [Delivery(old(serials), message, sender)]
      ensures resolved.Some? ==> listener == NoListener
      ensures resolved.None? && sender.did != mediator ==> listener == if hasOnMessage then OnMessage else NoListener
      ensures resolved.None? && sender.did == mediator && hasOnMediatorMessage ==> listener == OnMediatorMessage
      ensures resolved.None? && sender.did == mediator && !hasOnMediatorMessage ==>
        listener == if hasOnMessage then OnMessage else NoListener
    {
      hide Inv, Matches, FirstWaiter, Without, S.IsWindow;
      StepKeepsInv(mediator, View(), BoxEvent.Deliver(message, sender));
      var d := Delivery(serials, message, sender);
      serials := serials + 1;
      var i := FindWaiter(d);
      if i < |waiters| {
        resolved, listener := Some(waiters[i]), NoListener;
        log := log + [Resolved(waiters[i], d)];
        waiters := Without(waiters, i);
      } else {
        resolved := None;
        listener := if sender.did == mediator && hasOnMediatorMessage then OnMediatorMessage
          else if hasOnMessage then OnMessage else NoListener;
        if Buffers(mediator, d) {
          inbox := inbox + [d];
          if |inbox| > MAX_INBOX {
            inbox := inbox[1..];
          }
        }
      }
    }

    /** `_dispatchFrame` from the moment the queue id is known up to the hand-off. */
    method DispatchFrame(message: Message, sender: Sender, queueId: Option<string>) returns (r: Dispatch)
      requires Valid()
      modifies this
      ensures Valid() && seen == old(seen) && userClosed == old(userClosed)
      ensures r.Reack? <==> queueId.Some? && queueId.value in seen
      ensures r.Reack? ==> View() == old(View())
      ensures r.Handed? ==> View() == old(Step(mediator, View(), BoxEvent.Deliver(message, sender)))
    {
      if queueId.Some? && queueId.value in seen {
        return Reack;
      }
      var resolved, listener := Deliver(message, sender);
      return Handed(resolved, listener);
    }

    /** `_markSeen`. */
    method MarkSeen(id: string)
      requires Valid()
      modifies this`seen, this`entered
      ensures Valid() && seen == S.Mark(old(seen), id) && entered == S.Entered(old(seen), old(entered), id)
      ensures id in seen && |seen| <= S.MAX_SEEN
    {
      S.MarkKeepsWindow(seen, entered, id);
      if id !in seen {
        entered := entered + [id];
        seen := seen + [id];
        if |seen| > S.MAX_SEEN {
          seen := seen[1..];
        }
      }
    }

    /** `waitFor`: the buffered answer, or a pending waiter with its own timer; a bad `from` changes nothing. */
    method WaitFor(thid: Option<string>, from: Option<seq<string>>) returns (answer: Result<Option<Delivery>, WaitError>)
      requires Valid()
      modifies this
      ensures Valid() && seen == old(seen) && userClosed == old(userClosed)
      ensures answer.Err? <==> from.Some? && (from.value == [] || "" in from.value)
      ensures answer.Err? ==> View() == old(View())
      ensures answer.Ok? ==> View() == old(Step(mediator, View(), Wait(thid, NormalizeFrom(from).value)))
      ensures answer.Ok? ==> (answer.value.Some? <==>
        exists d :: d in old(inbox) && Matches(Waiter(old(timers), thid, NormalizeFrom(from).value), d))
      ensures answer.Ok? && answer.value.Some? ==>
        log == old(log) + [Resolved(Waiter(old(timers), thid, NormalizeFrom(from).value), answer.value.value)]
    {
      FromIsRefused(from, Sender("", ""));
      hide NormalizeFrom, Inv, Matches, FirstBuffered, Without, S.IsWindow;
      var accepted := NormalizeFrom(from);
      if accepted.Err? { return Err(accepted.error); }
      StepKeepsInv(mediator, View(), Wait(thid, accepted.value));
      var w := Waiter(timers, thid, accepted.value);
      timers := timers + 1;
      var i := FindBuffered(w);
      if i < |inbox| {
        answer := Ok(Some(inbox[i]));
        log := log + [Resolved(w, inbox[i])];
        inbox := Without(inbox, i);
      } else {
        answer := Ok(None);
        waiters := waiters + [w];
      }
    }

    /** A waiter's timer fires. */
    method OnTimeout(timer: nat)
      requires Valid()
      modifies this`waiters, this`log
      ensures Valid() && View() == old(Step(mediator, View(), Timeout(timer)))
      ensures forall w :: w in waiters <==> w in old(waiters) && w.timer != timer
      ensures (forall w :: w in old(waiters) ==> w.timer != timer) ==> log == old(log)
      ensures forall w :: w in old(waiters) && w.timer == timer ==> log == old(log) + [Rejected(w)]
    {
      StepKeepsInv(mediator, View(), Timeout(timer));
      TimeoutRejectsOne(View(), timer);
      hide Inv, Without, S.IsWindow, IndexOfTimer;
      var i := IndexOfTimer(waiters, timer);
      if i < |waiters| {
        log := log + [Rejected(waiters[i])];
        waiters := Without(waiters, i);
      }
    }

    /** The socket errors or closes after it had opened: every pending waiter is rejected. */
    method RejectWaiters()
      requires Valid()
      modifies this`waiters, this`log
      ensures Valid() && View() == old(Step(mediator, View(), RejectAll)) && waiters == []
      ensures |log| == |old(log)| + |old(waiters)| && log[..|old(log)|] == old(log)
      ensures forall i :: 0 <= i < |old(waiters)| ==> log[|old(log)| + i] == Rejected(old(waiters)[i])
    {
      StepKeepsInv(mediator, View(), RejectAll);
      log := log + Rejections(waiters);
      waiters := [];
    }

    method Close()
      requires Valid()
      modifies this`waiters, this`log, this`userClosed
      ensures Valid() && userClosed && waiters == []
      ensures |log| == |old(log)| + |old(waiters)| && log[..|old(log)|] == old(log)
      ensures forall i :: 0 <= i < |old(waiters)| ==> log[|old(log)| + i] == Rejected(old(waiters)[i])
      ensures View() == old(Step(mediator, View(), RejectAll))
    {
      userClosed := true;
      RejectWaiters();
    }
  }
}

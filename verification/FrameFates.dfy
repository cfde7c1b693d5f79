/**
 What becomes of one frame from its arrival on (src/mediator-transport.js, `_onFrame`), in any state of the
 system: the message reaches waiters and inbox, the consumer has it before the ack, and the ack deletes it.
 */
module FrameFates {
  import opened Wrappers
  import opened Mailbox
  import opened MediatorProtocol
  import S = SeenSet

  /** The mediator's answer to an ack is a frame of its own and no stored Trust Task reply. */
  predicate IsAnswer(c: Config, status: string) {
    match c.frame(status)
    case Didcomm(sender, message) =>
      sender.did == c.mediator
      && (message.typ != Some("https://trusttasks.org/binding/didcomm/0.1/envelope") || message.thid == None)
    case _ => false
  }

  /** The ids of a frame and of all that hash to it are gone from the queue, and nothing else. */
  ghost predicate IsDeleted(c: Config, s: State, s': State, text: string) {
    forall t :: t in s'.queue <==> t in s.queue && c.digest(t) != c.digest(text)
  }

  lemma ExecOne(c: Config, s: State, e: Event)
    ensures Exec(c, s, [e]) == Apply(c, s, e)
  {
    assert [e][..0] == [];
  }

  lemma Exec3(c: Config, s: State, a: Event, b: Event, d: Event)
    ensures Exec(c, s, [a, b, d]) == Apply(c, Apply(c, Apply(c, s, a), b), d)
  {
    hide Apply;
    ExecSplit(c, s, [a, b, d], 2);
    assert [a, b, d][..2] == [a, b] && [a, b, d][2..] == [d];
    Exec2(c, s, a, b);
    ExecOne(c, Exec(c, s, [a, b]), d);
  }

  lemma MarkRemembers(seen: seq<string>, id: string)
    ensures id in S.Mark(seen, id)
  {
    var after := S.Mark(seen, id);
    assert id in seen || after[|after| - 1] == id;
  }

  /** Packing and sending the ack, and its arrival at the mediator. */
  lemma AckDeletes(c: Config, s: State, i: nat, text: string, status: string)
    requires i < |s.acts| && s.acts[i] == Packing(c.digest(text)) && IsAnswer(c, status)
    ensures var s' := Exec(c, s, [FinishPack(i, true), AckArrives(i, status)]);
      s' == s.(queue := s'.queue, acts := s.acts[i := Wire(status)]) && IsDeleted(c, s, s', text)
  {
    Exec2(c, s, FinishPack(i, true), AckArrives(i, status));
    hide Step;
    var a := Apply(c, s, FinishPack(i, true));
    assert a == s.(acts := s.acts[i := Acking(c.digest(text))]);
    assert a.acts[i := Wire(status)] == s.acts[i := Wire(status)];
  }

  /** A queued message is unpacked, checked, delivered and handed off, then remembered, acked and deleted. */
  lemma QueuedFrameIsHandled(c: Config, s: State, i: nat, text: string, status: string, ok: bool)
    requires i < |s.acts| && s.acts[i] == Wire(text) && c.frame(text).Didcomm? && c.frame(text).sender.did != ""
    requires IsAckable(c, text) && c.digest(text) !in s.seen && IsAnswer(c, status)
    ensures var s' := Exec(c, s, [Arrive(i), FinishUnpack(i, Unpacked), FinishHash(i), FinishHandling(i, ok),
                                  FinishPack(i, true), AckArrives(i, status)]);
      && s'.handed == s.handed + [text] && s'.refused == s.refused && s'.ever == s.ever
      && s'.box == Step(c.mediator, s.box, Deliver(c.frame(text).message, c.frame(text).sender))
      && s'.acts == s.acts[i := Wire(status)] && c.digest(text) in s'.seen && IsDeleted(c, s, s', text)
  {
    var es := [Arrive(i), FinishUnpack(i, Unpacked), FinishHash(i), FinishHandling(i, ok), FinishPack(i, true), AckArrives(i, status)];
    ExecSplit(c, s, es, 4);
    assert es[..4] == [Arrive(i), FinishUnpack(i, Unpacked), FinishHash(i), FinishHandling(i, ok)];
    assert es[4..] == [FinishPack(i, true), AckArrives(i, status)];
    var s4 := QueuedFrameIsHandedOff(c, s, i, text, ok);
    AckDeletes(c, s4, i, text, status);
    hide Exec, Step, Apply, IsAckable;
    assert s4.acts[i := Wire(status)] == s.acts[i := Wire(status)];
  }

  lemma QueuedFrameIsHandedOff(c: Config, s: State, i: nat, text: string, ok: bool) returns (s4: State)
    requires i < |s.acts| && s.acts[i] == Wire(text) && c.frame(text).Didcomm? && c.frame(text).sender.did != ""
    requires IsAckable(c, text) && c.digest(text) !in s.seen
    ensures s4 == Exec(c, s, [Arrive(i), FinishUnpack(i, Unpacked), FinishHash(i), FinishHandling(i, ok)])
    ensures && s4.handed == s.handed + [text] && s4.refused == s.refused && s4.ever == s.ever && s4.queue == s.queue
            && s4.box == Step(c.mediator, s.box, Deliver(c.frame(text).message, c.frame(text).sender))
            && s4.acts == s.acts[i := Packing(c.digest(text))] && c.digest(text) in s4.seen
            && (s.seen == [] ==> s4.seen == [c.digest(text)])
  {
    Exec4(c, s, Arrive(i), FinishUnpack(i, Unpacked), FinishHash(i), FinishHandling(i, ok));
    hide Step, Exec;
    var a := Apply(c, s, Arrive(i));
    assert a == s.(acts := s.acts[i := Unpacking(text)]);
    var b := Apply(c, a, FinishUnpack(i, Unpacked));
    assert b == s.(acts := s.acts[i := Hashing(text)]) by {
      assert IsQueued(c, c.frame(text));
      assert a.acts[i := Hashing(text)] == s.acts[i := Hashing(text)];
    }
    var d := Apply(c, b, FinishHash(i));
    assert d == DeliverFrame(c, s, c.frame(text)).(acts := s.acts[i := Delivering(text, true)]) by {
      assert b.acts[i := Delivering(text, true)] == s.acts[i := Delivering(text, true)];
    }
    s4 := Apply(c, d, FinishHandling(i, ok));
    assert d.acts[i := Packing(c.digest(text))] == s.acts[i := Packing(c.digest(text))];
    MarkRemembers(s.seen, c.digest(text));
  }

  /** A TSP frame is handed to its consumer, then remembered, acked and deleted. */
  lemma TspFrameIsHandled(c: Config, s: State, i: nat, text: string, status: string)
    requires i < |s.acts| && s.acts[i] == Wire(text) && c.frame(text) == Tsp(true) && c.onTsp
    requires c.digest(text) !in s.seen && IsAnswer(c, status)
    ensures var s' := Exec(c, s, [Arrive(i), FinishHash(i), FinishHandling(i, true), FinishPack(i, true), AckArrives(i, status)]);
      && s'.handed == s.handed + [text] && s'.refused == s.refused && s'.ever == s.ever && s'.box == s.box
      && s'.acts == s.acts[i := Wire(status)] && c.digest(text) in s'.seen && IsDeleted(c, s, s', text)
  {
    var es := [Arrive(i), FinishHash(i), FinishHandling(i, true), FinishPack(i, true), AckArrives(i, status)];
    ExecSplit(c, s, es, 3);
    assert es[..3] == [Arrive(i), FinishHash(i), FinishHandling(i, true)];
    assert es[3..] == [FinishPack(i, true), AckArrives(i, status)];
    Exec3(c, s, Arrive(i), FinishHash(i), FinishHandling(i, true));
    var b := TspFrameIsChecked(c, s, i, text);
    var s3 := Apply(c, b, FinishHandling(i, true));
    hide Exec, Step;
    assert s3.handed == s.handed + [text] && s3.acts == s.acts[i := Packing(c.digest(text))] by {
      assert b.acts[i := Packing(c.digest(text))] == s.acts[i := Packing(c.digest(text))];
    }
    MarkRemembers(s.seen, c.digest(text));
    AckDeletes(c, s3, i, text, status);
    assert s3.acts[i := Wire(status)] == s.acts[i := Wire(status)];
  }

  lemma TspFrameIsChecked(c: Config, s: State, i: nat, text: string) returns (b: State)
    requires i < |s.acts| && s.acts[i] == Wire(text) && c.frame(text) == Tsp(true) && c.onTsp && c.digest(text) !in s.seen
    ensures b == Apply(c, Apply(c, s, Arrive(i)), FinishHash(i)) == s.(acts := s.acts[i := TspHandling(text)])
  {
    var a := Apply(c, s, Arrive(i));
    assert a == s.(acts := s.acts[i := TspHashing(text)]);
    b := Apply(c, a, FinishHash(i));
    assert a.acts[i := TspHandling(text)] == s.acts[i := TspHandling(text)];
  }

  /** A frame refused for good reaches nobody, and is remembered, acked and deleted. */
  lemma RefusedFrameIsDropped(c: Config, s: State, i: nat, text: string, status: string)
    requires i < |s.acts| && s.acts[i] == Wire(text) && c.frame(text).Didcomm? && c.frame(text).sender.did != c.mediator
    requires IsAnswer(c, status)
    ensures var s' := Exec(c, s, [Arrive(i), FinishUnpack(i, Refused), FinishHash(i), FinishPack(i, true), AckArrives(i, status)]);
      && s'.handed == s.handed && s'.refused == s.refused + {text} && s'.ever == s.ever && s'.box == s.box
      && s'.acts == s.acts[i := Wire(status)] && c.digest(text) in s'.seen && IsDeleted(c, s, s', text)
  {
    var es := [Arrive(i), FinishUnpack(i, Refused), FinishHash(i), FinishPack(i, true), AckArrives(i, status)];
    ExecSplit(c, s, es, 3);
    assert es[..3] == [Arrive(i), FinishUnpack(i, Refused), FinishHash(i)];
    assert es[3..] == [FinishPack(i, true), AckArrives(i, status)];
    Exec3(c, s, Arrive(i), FinishUnpack(i, Refused), FinishHash(i));
    hide Exec, Step;
    var a := Apply(c, s, Arrive(i));
    assert a == s.(acts := s.acts[i := Unpacking(text)]);
    var b := Apply(c, a, FinishUnpack(i, Refused));
    assert b == s.(acts := s.acts[i := Refusing(text)]) by {
      assert a.acts[i := Refusing(text)] == s.acts[i := Refusing(text)];
    }
    var s3 := Apply(c, b, FinishHash(i));
    assert b.acts[i := Packing(c.digest(text))] == s.acts[i := Packing(c.digest(text))];
    MarkRemembers(s.seen, c.digest(text));
    AckDeletes(c, s3, i, text, status);
    assert s3.acts[i := Wire(status)] == s.acts[i := Wire(status)];
  }

  /** A frame whose unpacking fails for now leaves no trace: it stays queued, unacked and unremembered. */
  lemma FailedFrameStaysQueued(c: Config, s: State, i: nat, text: string)
    requires i < |s.acts| && s.acts[i] == Wire(text) && !c.frame(text).Tsp?
    ensures Exec(c, s, [Arrive(i), FinishUnpack(i, Transient)]) == s.(acts := s.acts[i := Done])
    ensures c.frame(text).Didcomm? && c.frame(text).sender.did == c.mediator ==>
      Exec(c, s, [Arrive(i), FinishUnpack(i, Refused)]) == s.(acts := s.acts[i := Done])
  {
    Exec2(c, s, Arrive(i), FinishUnpack(i, Transient));
    Exec2(c, s, Arrive(i), FinishUnpack(i, Refused));
    assert s.acts[i := Unpacking(text)][i := Done] == s.acts[i := Done];
  }

  /** So does a TSP frame that does not decode, has no consumer, or whose consumer throws. */
  lemma FailedTspFrameStaysQueued(c: Config, s: State, i: nat, text: string)
    requires i < |s.acts| && s.acts[i] == Wire(text) && c.frame(text).Tsp?
    ensures !(c.frame(text) == Tsp(true) && c.onTsp) ==> Exec(c, s, [Arrive(i)]) == s.(acts := s.acts[i := Done])
    ensures c.frame(text) == Tsp(true) && c.onTsp && c.digest(text) !in s.seen ==>
      Exec(c, s, [Arrive(i), FinishHash(i), FinishHandling(i, false)]) == s.(acts := s.acts[i := Done])
  {
    ExecOne(c, s, Arrive(i));
    if c.frame(text) == Tsp(true) && c.onTsp && c.digest(text) !in s.seen {
      Exec3(c, s, Arrive(i), FinishHash(i), FinishHandling(i, false));
      var b := TspFrameIsChecked(c, s, i, text);
      assert b.acts[i := Done] == s.acts[i := Done];
    }
  }

  /** A frame of the mediator's own is delivered, and neither checked, remembered nor acked. */
  lemma OwnFrameIsNotAcked(c: Config, s: State, i: nat, text: string, ok: bool)
    requires i < |s.acts| && s.acts[i] == Wire(text) && c.frame(text).Didcomm?
    requires c.frame(text).sender.did == "" || IsAnswer(c, text)
    ensures Exec(c, s, [Arrive(i), FinishUnpack(i, Unpacked), FinishHandling(i, ok)]) ==
      s.(acts := s.acts[i := Done], handed := s.handed + [text],
         box := Step(c.mediator, s.box, Deliver(c.frame(text).message, c.frame(text).sender)))
  {
    Exec3(c, s, Arrive(i), FinishUnpack(i, Unpacked), FinishHandling(i, ok));
    hide Step, Exec;
    assert !IsQueued(c, c.frame(text));
    var a := Apply(c, s, Arrive(i));
    assert a == s.(acts := s.acts[i := Unpacking(text)]);
    var b := Apply(c, a, FinishUnpack(i, Unpacked));
    assert b == DeliverFrame(c, s, c.frame(text)).(acts := s.acts[i := Delivering(text, false)]) by {
      assert a.acts[i := Delivering(text, false)] == s.acts[i := Delivering(text, false)];
    }
    assert b.acts[i := Done] == s.acts[i := Done];
  }

  /**
   The dedup set does not survive the host: after a crash a queued message that is pushed again is delivered
   to the new session and handed off again, whatever was remembered.
   */
  lemma CrashForgets(c: Config, s: State, text: string, ok: bool)
    requires c.frame(text).Didcomm? && c.frame(text).sender.did != "" && IsAckable(c, text)
    ensures var i := |s.acts|;
      var s' := Exec(c, s, [Crash, MediatorPush(text), Arrive(i), FinishUnpack(i, Unpacked), FinishHash(i), FinishHandling(i, ok)]);
      && s'.handed == s.handed + [text] && s'.queue == s.queue
      && s'.box == Step(c.mediator, EMPTY, Deliver(c.frame(text).message, c.frame(text).sender))
      && s'.seen == [c.digest(text)]
  {
    var i := |s.acts|;
    var es := [Crash, MediatorPush(text), Arrive(i), FinishUnpack(i, Unpacked), FinishHash(i), FinishHandling(i, ok)];
    ExecSplit(c, s, es, 2);
    assert es[..2] == [Crash, MediatorPush(text)];
    assert es[2..] == [Arrive(i), FinishUnpack(i, Unpacked), FinishHash(i), FinishHandling(i, ok)];
    Exec2(c, s, Crash, MediatorPush(text));
    hide Step, Exec, IsAckable;
    var restarted := Apply(c, Apply(c, s, Crash), MediatorPush(text));
    assert restarted.acts[i] == Wire(text) && restarted.seen == [] && restarted.handed == s.handed && restarted.box == EMPTY && restarted.queue == s.queue;
    hide Apply;
    var s4 := QueuedFrameIsHandedOff(c, restarted, i, text, ok);
  }
}

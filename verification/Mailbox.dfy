/** Matching of replies to waiters in a mediator session (src/mediator-transport.js). */
module Mailbox {
  import opened Wrappers
  import DidScid

  const MAX_INBOX := 256
  const PROBLEM_REPORT_TYPE := "https://didcomm.org/report-problem/2.0/problem-report"
  const TRUST_TASK_ENVELOPE_TYPE := "https://trusttasks.org/binding/didcomm/0.1/envelope"

  datatype Message = Message(id: Option<string>, typ: Option<string>, thid: Option<string>, pthid: Option<string>, body: string)

  datatype Sender = Sender(did: string, kid: string)

  /** One unpacked inbound message; `serial` numbers the deliveries of a session. */
  datatype Delivery = Delivery(serial: nat, message: Message, sender: Sender)

  /** A pending `waitFor`; `timer` identifies its promise and its timeout. */
  datatype Waiter = Waiter(timer: nat, thid: Option<string>, from: Option<seq<string>>)

  function ThreadOf(m: Message): Option<string> {
    if m.thid.Some? then m.thid
    else if m.typ == Some(PROBLEM_REPORT_TYPE) && m.pthid.Some? then m.pthid
    else m.id
  }

  predicate IsStoredMediatorReply(m: Message) {
    m.typ == Some(TRUST_TASK_ENVELOPE_TYPE) && m.thid.Some?
  }

  predicate AcceptsSender(from: Option<seq<string>>, sender: Sender) {
    from.None? || sender.did in from.value
  }

  function Identities(dids: seq<string>): (ids: seq<string>)
    ensures |ids| == |dids| && forall i :: 0 <= i < |ids| ==> ids[i] == DidScid.ScidIdentity(dids[i])
  {
    seq(|dids|, i requires 0 <= i < |dids| => DidScid.ScidIdentity(dids[i]))
  }

  datatype WaitError = BadFrom

  /** The `from` option of a waiter: any sender, or the identities of a non-empty list of DIDs. */
  function NormalizeFrom(from: Option<seq<string>>): Result<Option<seq<string>>, WaitError> {
    match from
    case None => Ok(None)
    case Some(dids) => if dids == [] || "" in dids then Err(BadFrom) else Ok(Some(Identities(dids)))
  }

  /** A waiter accepts exactly the senders whose identity one of its DIDs has. */
  lemma AcceptsByIdentity(dids: seq<string>, sender: Sender)
    requires NormalizeFrom(Some(dids)).Ok?
    ensures AcceptsSender(NormalizeFrom(Some(dids)).value, sender) <==> exists d :: d in dids && DidScid.ScidIdentity(d) == sender.did
  {
    var ids := Identities(dids);
    if d :| d in dids && DidScid.ScidIdentity(d) == sender.did {
      var i :| 0 <= i < |dids| && dids[i] == d;
      assert ids[i] == sender.did;
    }
  }

  /** Which `from` options are refused; without one every sender is accepted. */
  lemma FromIsRefused(from: Option<seq<string>>, sender: Sender)
    ensures NormalizeFrom(from).Err? <==> from.Some? && (from.value == [] || "" in from.value)
    ensures from == None ==> AcceptsSender(NormalizeFrom(from).value, sender)
  {
  }

  /** Naming a did:scid with a source waits for the same sender as naming it bare. */
  lemma SourceDoesNotMatter(did: string, src: string)
    requires DidScid.IsBare(did) && did != "" && DidScid.IsSource(src)
    ensures NormalizeFrom(Some([DidScid.WithScidSrc(did, src)])) == NormalizeFrom(Some([did]))
  {
    assert DidScid.BeforeHash(src) == src;
    DidScid.IdentityUnderSource(did, src);
    assert |DidScid.WithScidSrc(did, src)| > |did|;
    hide DidScid.ScidIdentity, DidScid.WithScidSrc;
    assert Identities([DidScid.WithScidSrc(did, src)]) == Identities([did]);
  }

  predicate Matches(w: Waiter, d: Delivery) {
    w.thid == ThreadOf(d.message) && AcceptsSender(w.from, d.sender)
  }

  /** An unthreaded frame of the mediator answers nothing and is not buffered. */
  predicate Buffers(mediator: string, d: Delivery) {
    !(d.sender.did == mediator && d.message.thid.None? && d.message.pthid.None?)
  }

  /** The index of the first waiter that `d` answers, or the number of waiters. */
  function FirstWaiter(ws: seq<Waiter>, d: Delivery): (i: nat)
    ensures i <= |ws|
    ensures i < |ws| ==> Matches(ws[i], d)
    ensures forall j :: 0 <= j < i ==> !Matches(ws[j], d)
  {
    if ws == [] then 0
    else if Matches(ws[0], d) then 0
    else
      var k := FirstWaiter(ws[1..], d);
      assert forall j :: 1 <= j < k + 1 ==> ws[j] == ws[1..][j - 1];
      k + 1
  }

  /** The index of the first buffered delivery that answers `w`, or the size of the inbox. */
  function FirstBuffered(ds: seq<Delivery>, w: Waiter): (i: nat)
    ensures i <= |ds|
    ensures i < |ds| ==> Matches(w, ds[i])
    ensures forall j :: 0 <= j < i ==> !Matches(w, ds[j])
  {
    if ds == [] then 0
    else if Matches(w, ds[0]) then 0
    else
      var k := FirstBuffered(ds[1..], w);
      assert forall j :: 1 <= j < k + 1 ==> ds[j] == ds[1..][j - 1];
      k + 1
  }

  function Without<T>(s: seq<T>, i: nat): seq<T>
    requires i < |s|
  {
    s[..i] + s[i + 1..]
  }

  /** How a waiter's promise was settled. */
  datatype Settlement = Resolved(waiter: Waiter, delivery: Delivery) | Rejected(waiter: Waiter)

  /** A session's correlation state, with the log of every promise settled so far. */
  datatype Box = Box(inbox: seq<Delivery>, waiters: seq<Waiter>, timers: nat, serials: nat, log: seq<Settlement>)

  const EMPTY := Box([], [], 0, 0, [])

  datatype BoxEvent =
    | Deliver(message: Message, sender: Sender)
    | Wait(thid: Option<string>, from: Option<seq<string>>)
    | Timeout(timer: nat)
    | RejectAll

  /** `inbox.push(d)`, then `shift()` when over the cap. */
  function Push(inbox: seq<Delivery>, d: Delivery): seq<Delivery> {
    var grown := inbox + [d];
    if |grown| > MAX_INBOX then grown[1..] else grown
  }

  function AfterDeliver(mediator: string, b: Box, d: Delivery): Box {
    var i := FirstWaiter(b.waiters, d);
    if i < |b.waiters| then
      b.(waiters := Without(b.waiters, i), serials := b.serials + 1, log := b.log + [Resolved(b.waiters[i], d)])
    else if Buffers(mediator, d) then
      b.(inbox := Push(b.inbox, d), serials := b.serials + 1)
    else
      b.(serials := b.serials + 1)
  }

  function AfterWait(b: Box, w: Waiter): Box {
    var i := FirstBuffered(b.inbox, w);
    if i < |b.inbox| then
      b.(inbox := Without(b.inbox, i), timers := b.timers + 1, log := b.log + [Resolved(w, b.inbox[i])])
    else
      b.(waiters := b.waiters + [w], timers := b.timers + 1)
  }

  function IndexOfTimer(ws: seq<Waiter>, timer: nat): (i: nat)
    ensures i <= |ws|
    ensures i < |ws| ==> ws[i].timer == timer
    ensures forall j :: 0 <= j < i ==> ws[j].timer != timer
  {
    if ws == [] then 0
    else if ws[0].timer == timer then 0
    else
      var k := IndexOfTimer(ws[1..], timer);
      assert forall j :: 1 <= j < k + 1 ==> ws[j] == ws[1..][j - 1];
      k + 1
  }

  function AfterTimeout(b: Box, timer: nat): Box {
    var i := IndexOfTimer(b.waiters, timer);
    if i < |b.waiters| then
      b.(waiters := Without(b.waiters, i), log := b.log + [Rejected(b.waiters[i])])
    else
      b
  }

  function Rejections(ws: seq<Waiter>): seq<Settlement> {
    seq(|ws|, i requires 0 <= i < |ws| => Rejected(ws[i]))
  }

  function AfterRejectAll(b: Box): Box {
    b.(waiters := [], log := b.log + Rejections(b.waiters))
  }

  function Step(mediator: string, b: Box, e: BoxEvent): Box {
    match e
    case Deliver(m, s) => AfterDeliver(mediator, b, Delivery(b.serials, m, s))
    case Wait(thid, from) => AfterWait(b, Waiter(b.timers, thid, from))
    case Timeout(timer) => AfterTimeout(b, timer)
    case RejectAll => AfterRejectAll(b)
  }

  function Run(mediator: string, b: Box, es: seq<BoxEvent>): Box {
    if es == [] then b else Step(mediator, Run(mediator, b, es[..|es| - 1]), es[|es| - 1])
  }

  // ----- what every session keeps

  /** No pending waiter matches any buffered message. */
  ghost predicate NoMissedReply(b: Box) {
    forall i, j :: 0 <= i < |b.waiters| && 0 <= j < |b.inbox| ==> !Matches(b.waiters[i], b.inbox[j])
  }

  ghost predicate InboxInArrivalOrder(b: Box) {
    && (forall i :: 0 <= i < |b.inbox| ==> b.inbox[i].serial < b.serials)
    && (forall i, j :: 0 <= i < j < |b.inbox| ==> b.inbox[i].serial < b.inbox[j].serial)
  }

  ghost predicate WaitersInOrder(b: Box) {
    && (forall i :: 0 <= i < |b.waiters| ==> b.waiters[i].timer < b.timers)
    && (forall i, j :: 0 <= i < j < |b.waiters| ==> b.waiters[i].timer < b.waiters[j].timer)
  }

  /** Every promise is settled at most once, and not while still pending. */
  ghost predicate SettledOnce(b: Box) {
    && (forall i :: 0 <= i < |b.log| ==> b.log[i].waiter.timer < b.timers)
    && (forall i, j :: 0 <= i < j < |b.log| ==> b.log[i].waiter.timer != b.log[j].waiter.timer)
    && (forall i, j :: 0 <= i < |b.log| && 0 <= j < |b.waiters| ==> b.log[i].waiter.timer != b.waiters[j].timer)
  }

  /** Every promise ever made is pending or settled. */
  ghost predicate NoneForgotten(b: Box) {
    forall t: nat :: t < b.timers ==> IsPending(b.waiters, t) || IsSettled(b.log, t)
  }

  ghost predicate IsPending(ws: seq<Waiter>, timer: nat) {
    exists i :: 0 <= i < |ws| && ws[i].timer == timer
  }

  ghost predicate IsSettled(log: seq<Settlement>, timer: nat) {
    exists i :: 0 <= i < |log| && log[i].waiter.timer == timer
  }

  /** A resolved waiter got a message of its thread from an accepted sender. */
  ghost predicate ResolvedByMatch(b: Box) {
    forall i :: 0 <= i < |b.log| && b.log[i].Resolved? ==> Matches(b.log[i].waiter, b.log[i].delivery)
  }

  /** A delivery resolves at most one waiter, and none while it is still buffered. */
  ghost predicate ConsumedOnce(b: Box) {
    && (forall i :: 0 <= i < |b.log| && b.log[i].Resolved? ==> b.log[i].delivery.serial < b.serials)
    && (forall i, j :: 0 <= i < j < |b.log| && b.log[i].Resolved? && b.log[j].Resolved? ==>
          b.log[i].delivery.serial != b.log[j].delivery.serial)
    && (forall i, j :: 0 <= i < |b.log| && b.log[i].Resolved? && 0 <= j < |b.inbox| ==>
          b.log[i].delivery.serial != b.inbox[j].serial)
  }

  ghost predicate Inv(b: Box) {
    && |b.inbox| <= 256
    && NoMissedReply(b) && InboxInArrivalOrder(b) && WaitersInOrder(b)
    && SettledOnce(b) && ResolvedByMatch(b) && ConsumedOnce(b)
  }

  lemma WithoutIndex<T>(s: seq<T>, i: nat)
    requires i < |s|
    ensures |Without(s, i)| == |s| - 1
    ensures forall j :: 0 <= j < |s| - 1 ==> Without(s, i)[j] == if j < i then s[j] else s[j + 1]
  {
  }

  /** Resolving the first matching waiter keeps the order and the log sound. */
  lemma ResolveKeepsInv(b: Box, i: nat, d: Delivery)
    requires Inv(b) && d.serial == b.serials
    requires i < |b.waiters| && Matches(b.waiters[i], d)
    ensures Inv(b.(waiters := Without(b.waiters, i), serials := b.serials + 1, log := b.log + [Resolved(b.waiters[i], d)]))
  {
    WithoutIndex(b.waiters, i);
    hide Matches, Without;
    var b' := b.(waiters := Without(b.waiters, i), serials := b.serials + 1, log := b.log + [Resolved(b.waiters[i], d)]);
    assert NoMissedReply(b');
    assert InboxInArrivalOrder(b');
    assert WaitersInOrder(b');
    assert SettledOnce(b') by {
      assert forall j :: 0 <= j < |b'.waiters| ==> b'.waiters[j].timer != b.waiters[i].timer;
    }
    assert ResolvedByMatch(b');
    assert ConsumedOnce(b');
  }

  /** Buffering a message no waiter wants keeps the inbox bounded, ordered and unmatched. */
  lemma BufferKeepsInv(b: Box, d: Delivery)
    requires Inv(b) && d.serial == b.serials
    requires forall j :: 0 <= j < |b.waiters| ==> !Matches(b.waiters[j], d)
    ensures Inv(b.(inbox := Push(b.inbox, d), serials := b.serials + 1))
  {
    var b' := b.(inbox := Push(b.inbox, d), serials := b.serials + 1);
    var drop := if |b.inbox| == MAX_INBOX then 1 else 0;
    hide Matches;
    assert |b'.inbox| == |b.inbox| + 1 - drop;
    assert forall j :: 0 <= j < |b'.inbox| ==> b'.inbox[j] == if j + drop < |b.inbox| then b.inbox[j + drop] else d;
    assert NoMissedReply(b');
    assert InboxInArrivalOrder(b');
    assert WaitersInOrder(b');
    assert SettledOnce(b');
    assert ResolvedByMatch(b');
    assert ConsumedOnce(b');
  }

  lemma SkipKeepsInv(b: Box)
    requires Inv(b)
    ensures Inv(b.(serials := b.serials + 1))
  {
    hide Matches;
  }

  lemma DeliverKeepsInv(mediator: string, b: Box, d: Delivery)
    requires Inv(b) && d.serial == b.serials
    ensures Inv(AfterDeliver(mediator, b, d))
  {
    hide FirstWaiter, Matches, Buffers, Push, Without, Inv;
    var i := FirstWaiter(b.waiters, d);
    if i < |b.waiters| {
      ResolveKeepsInv(b, i, d);
    } else if Buffers(mediator, d) {
      BufferKeepsInv(b, d);
    } else {
      SkipKeepsInv(b);
    }
  }

  lemma TakeKeepsInv(b: Box, i: nat, w: Waiter)
    requires Inv(b) && w.timer == b.timers
    requires i < |b.inbox| && Matches(w, b.inbox[i])
    ensures Inv(b.(inbox := Without(b.inbox, i), timers := b.timers + 1, log := b.log + [Resolved(w, b.inbox[i])]))
  {
    WithoutIndex(b.inbox, i);
    hide Matches, Without;
    var b' := b.(inbox := Without(b.inbox, i), timers := b.timers + 1, log := b.log + [Resolved(w, b.inbox[i])]);
    assert NoMissedReply(b');
    assert InboxInArrivalOrder(b');
    assert WaitersInOrder(b');
    assert SettledOnce(b');
    assert ResolvedByMatch(b');
    assert ConsumedOnce(b') by {
      assert forall j :: 0 <= j < |b'.inbox| ==> b'.inbox[j].serial != b.inbox[i].serial;
    }
  }

  lemma WaitKeepsInv(b: Box, w: Waiter)
    requires Inv(b) && w.timer == b.timers
    ensures Inv(AfterWait(b, w))
  {
    hide FirstBuffered, Matches, Without;
    var i := FirstBuffered(b.inbox, w);
    if i < |b.inbox| {
      TakeKeepsInv(b, i, w);
    }
  }

  lemma RejectKeepsInv(b: Box, i: nat)
    requires Inv(b) && i < |b.waiters|
    ensures Inv(b.(waiters := Without(b.waiters, i), log := b.log + [Rejected(b.waiters[i])]))
  {
    WithoutIndex(b.waiters, i);
    hide Matches, Without;
    var b' := b.(waiters := Without(b.waiters, i), log := b.log + [Rejected(b.waiters[i])]);
    assert NoMissedReply(b') && InboxInArrivalOrder(b') && WaitersInOrder(b');
    assert SettledOnce(b') by {
      assert forall j :: 0 <= j < |b'.waiters| ==> b'.waiters[j].timer != b.waiters[i].timer;
    }
    assert ResolvedByMatch(b') && ConsumedOnce(b');
  }

  lemma TimeoutKeepsInv(b: Box, timer: nat)
    requires Inv(b)
    ensures Inv(AfterTimeout(b, timer))
  {
    hide IndexOfTimer, Without, Inv;
    var i := IndexOfTimer(b.waiters, timer);
    if i < |b.waiters| { RejectKeepsInv(b, i); }
  }

  /** One step of the session keeps the invariant. */
  lemma StepKeepsInv(mediator: string, b: Box, e: BoxEvent)
    requires Inv(b)
    ensures Inv(Step(mediator, b, e))
  {
    hide AfterDeliver, AfterWait, AfterTimeout, Matches;
    match e
    case Deliver(m, s) => DeliverKeepsInv(mediator, b, Delivery(b.serials, m, s));
    case Wait(thid, from) => WaitKeepsInv(b, Waiter(b.timers, thid, from));
    case Timeout(timer) => TimeoutKeepsInv(b, timer);
    case RejectAll =>
  }

  /** No missed, doubled or forgotten promise, in every reachable state of a session. */
  lemma {:induction false} NoMissedOrDoubledReply(mediator: string, es: seq<BoxEvent>)
    ensures Inv(Run(mediator, EMPTY, es)) && NoneForgotten(Run(mediator, EMPTY, es))
  {
    NoPromiseIsForgotten(mediator, es);
    if es != [] {
      hide Inv, Step, NoneForgotten;
      NoMissedOrDoubledReply(mediator, es[..|es| - 1]);
      StepKeepsInv(mediator, Run(mediator, EMPTY, es[..|es| - 1]), es[|es| - 1]);
    }
  }

  /** A timeout rejects its own waiter and leaves all others. */
  lemma TimeoutRejectsOne(b: Box, timer: nat)
    requires Inv(b)
    ensures var b' := AfterTimeout(b, timer);
      && (forall w :: w in b'.waiters <==> w in b.waiters && w.timer != timer)
      && ((forall w :: w in b.waiters ==> w.timer != timer) ==> b'.log == b.log)
      && (forall w :: w in b.waiters && w.timer == timer ==> b'.log == b.log + [Rejected(w)])
  {
    assert WaitersInOrder(b);
    var i := IndexOfTimer(b.waiters, timer);
    if i < |b.waiters| { WithoutMembers(b.waiters, i); }
    hide Inv, Without, IndexOfTimer;
    if i < |b.waiters| {
      assert b.waiters[i] in b.waiters;
    }
  }

  lemma WithoutMembers(ws: seq<Waiter>, i: nat)
    requires i < |ws| && forall j, k :: 0 <= j < k < |ws| ==> ws[j].timer < ws[k].timer
    ensures forall w :: w in Without(ws, i) <==> w in ws && w.timer != ws[i].timer
    ensures forall w :: w in ws && w.timer == ws[i].timer ==> w == ws[i]
  {
    WithoutIndex(ws, i);
    hide Without;
    forall w | w in ws && w.timer != ws[i].timer ensures w in Without(ws, i) {
      var j :| 0 <= j < |ws| && ws[j] == w;
      assert Without(ws, i)[if j < i then j else j - 1] == w;
    }
  }

  /** A delivered message resolves the oldest pending waiter that accepts it, if there is one. */
  lemma DeliverResolvesOldest(mediator: string, b: Box, d: Delivery, w: Waiter)
    requires Inv(b) && w in b.waiters && Matches(w, d)
    ensures var b' := AfterDeliver(mediator, b, d);
            && |b'.log| == |b.log| + 1 && b'.log[..|b.log|] == b.log
            && b'.log[|b.log|].Resolved? && b'.log[|b.log|].delivery == d
            && b'.log[|b.log|].waiter in b.waiters && Matches(b'.log[|b.log|].waiter, d)
            && b'.log[|b.log|].waiter.timer <= w.timer
            && b'.inbox == b.inbox
  {
    var k :| 0 <= k < |b.waiters| && b.waiters[k] == w;
    assert FirstWaiter(b.waiters, d) <= k;
  }

  /** A late waiter takes the oldest buffered message that answers it, if there is one. */
  lemma WaitTakesOldest(b: Box, w: Waiter, d: Delivery)
    requires Inv(b) && d in b.inbox && Matches(w, d)
    ensures var b' := AfterWait(b, w);
            && |b'.log| == |b.log| + 1 && b'.log[..|b.log|] == b.log
            && b'.log[|b.log|].Resolved? && b'.log[|b.log|].waiter == w
            && b'.log[|b.log|].delivery in b.inbox && Matches(w, b'.log[|b.log|].delivery)
            && b'.log[|b.log|].delivery.serial <= d.serial
            && b'.waiters == b.waiters
  {
    var k :| 0 <= k < |b.inbox| && b.inbox[k] == d;
    assert FirstBuffered(b.inbox, w) <= k;
  }

  // ----- every promise is kept

  /** Waiters leave the list only into the log, and the log only grows. */
  lemma StillAccounted(b: Box, b': Box)
    requires NoneForgotten(b) && b.log <= b'.log && b.timers <= b'.timers <= b.timers + 1
    requires forall i :: 0 <= i < |b.waiters| ==> IsPending(b'.waiters, b.waiters[i].timer) || IsSettled(b'.log, b.waiters[i].timer)
    requires b'.timers > b.timers ==> IsPending(b'.waiters, b.timers) || IsSettled(b'.log, b.timers)
    ensures NoneForgotten(b')
  {
    forall t: nat | t < b'.timers ensures IsPending(b'.waiters, t) || IsSettled(b'.log, t) {
      if t < b.timers {
        if IsSettled(b.log, t) {
          var i :| 0 <= i < |b.log| && b.log[i].waiter.timer == t;
          assert b'.log[i].waiter.timer == t;
        } else {
          var i :| 0 <= i < |b.waiters| && b.waiters[i].timer == t;
        }
      }
    }
  }

  lemma RemovedIsLogged(ws: seq<Waiter>, i: nat, log: seq<Settlement>)
    requires i < |ws| && log != [] && log[|log| - 1].waiter == ws[i]
    ensures forall j :: 0 <= j < |ws| ==> IsPending(Without(ws, i), ws[j].timer) || IsSettled(log, ws[j].timer)
  {
    WithoutIndex(ws, i);
    forall j | 0 <= j < |ws| ensures IsPending(Without(ws, i), ws[j].timer) || IsSettled(log, ws[j].timer) {
      if j < i { assert Without(ws, i)[j] == ws[j]; }
      else if j > i { assert Without(ws, i)[j - 1] == ws[j]; }
      else { assert log[|log| - 1].waiter.timer == ws[j].timer; }
    }
  }

  lemma AllPending(ws: seq<Waiter>, more: seq<Waiter>)
    ensures forall j :: 0 <= j < |ws| ==> IsPending(ws + more, ws[j].timer)
    ensures more != [] ==> IsPending(ws + more, more[0].timer)
  {
    assert forall j :: 0 <= j < |ws| ==> (ws + more)[j] == ws[j];
    assert more != [] ==> (ws + more)[|ws|] == more[0];
  }

  lemma StepForgetsNone(mediator: string, b: Box, e: BoxEvent)
    requires NoneForgotten(b)
    ensures NoneForgotten(Step(mediator, b, e))
  {
    hide Matches, Buffers, Push, Without, NoneForgotten, IsPending, IsSettled, FirstWaiter, FirstBuffered, IndexOfTimer;
    var b' := Step(mediator, b, e);
    AllPending(b.waiters, []);
    assert b.waiters + [] == b.waiters;
    match e
    case Deliver(m, s) =>
      var i := FirstWaiter(b.waiters, Delivery(b.serials, m, s));
      if i < |b.waiters| { RemovedIsLogged(b.waiters, i, b'.log); }
      StillAccounted(b, b');
    case Wait(thid, from) =>
      var w := Waiter(b.timers, thid, from);
      AllPending(b.waiters, [w]);
      if b'.waiters == b.waiters { LastIsSettled(b'.log); }
      StillAccounted(b, b');
    case Timeout(timer) =>
      var i := IndexOfTimer(b.waiters, timer);
      if i < |b.waiters| { RemovedIsLogged(b.waiters, i, b'.log); }
      StillAccounted(b, b');
    case RejectAll =>
      forall j | 0 <= j < |b.waiters| ensures IsSettled(b'.log, b.waiters[j].timer) { RejectedIsSettled(b, j); }
      StillAccounted(b, b');
  }

  lemma LastIsSettled(log: seq<Settlement>)
    ensures log != [] ==> IsSettled(log, log[|log| - 1].waiter.timer)
  {
  }

  lemma RejectedIsSettled(b: Box, j: nat)
    requires j < |b.waiters|
    ensures IsSettled(AfterRejectAll(b).log, b.waiters[j].timer)
  {
    assert AfterRejectAll(b).log[|b.log| + j] == Rejected(b.waiters[j]);
  }

  /** In every run each promise ever made is still pending or has been settled. */
  lemma {:induction false} NoPromiseIsForgotten(mediator: string, es: seq<BoxEvent>)
    ensures NoneForgotten(Run(mediator, EMPTY, es))
  {
    if es != [] {
      hide NoneForgotten, Step;
      NoPromiseIsForgotten(mediator, es[..|es| - 1]);
      StepForgetsNone(mediator, Run(mediator, EMPTY, es[..|es| - 1]), es[|es| - 1]);
    } else {
      assert NoneForgotten(EMPTY);
    }
  }

  // ----- a reply that comes before its waiter

  /** What a waiter on thread t takes: sender and thread, in the terms of the message. */
  lemma MatchesExactly(w: Waiter, d: Delivery, t: string)
    requires w.thid == Some(t)
    ensures Matches(w, d) <==>
      && (w.from == None || exists i :: 0 <= i < |w.from.value| && w.from.value[i] == d.sender.did)
      && (|| d.message.thid == Some(t)
          || (d.message.thid == None && d.message.pthid == Some(t)
              && d.message.typ == Some("https://didcomm.org/report-problem/2.0/problem-report"))
          || (d.message.thid == None && d.message.id == Some(t)
              && (d.message.pthid == None || d.message.typ != Some("https://didcomm.org/report-problem/2.0/problem-report"))))
  {
  }

  /** Nobody waits for it, and it is not an unthreaded frame of the mediator. */
  ghost predicate IsUnclaimed(mediator: string, b: Box, e: BoxEvent) {
    && e.Deliver?
    && (forall w :: w in b.waiters ==> !Matches(w, Delivery(b.serials, e.message, e.sender)))
    && !(e.sender.did == mediator && e.message.thid == None && e.message.pthid == None)
  }

  /** How many such messages come in over a run. */
  ghost function Unclaimed(mediator: string, b: Box, es: seq<BoxEvent>): nat {
    if es == [] then 0
    else
      var n := |es| - 1;
      Unclaimed(mediator, b, es[..n]) + if IsUnclaimed(mediator, Run(mediator, b, es[..n]), es[n]) then 1 else 0
  }

  ghost predicate IsTaken(log: seq<Settlement>, d: Delivery) {
    exists i :: 0 <= i < |log| && log[i].Resolved? && log[i].delivery == d
  }

  /** `d` is in the inbox with at most n messages behind it. */
  ghost predicate IsKept(inbox: seq<Delivery>, d: Delivery, n: nat) {
    exists j :: 0 <= j < |inbox| && inbox[j] == d && |inbox| - 1 - j <= n
  }

  /** Any step leaves the inbox alone, takes one message out of it, or pushes an unclaimed one. */
  lemma InboxEffect(mediator: string, b: Box, e: BoxEvent)
    ensures var b' := Step(mediator, b, e);
      && b.log <= b'.log
      && (IsUnclaimed(mediator, b, e) ==> b'.inbox == Push(b.inbox, Delivery(b.serials, e.message, e.sender)) && b'.log == b.log)
      && (!IsUnclaimed(mediator, b, e) ==>
            || b'.inbox == b.inbox
            || exists i :: 0 <= i < |b.inbox| && b'.inbox == Without(b.inbox, i)
                           && |b'.log| == |b.log| + 1 && b'.log[|b.log|].Resolved? && b'.log[|b.log|].delivery == b.inbox[i])
  {
    hide Matches, Push, Without, FirstWaiter, FirstBuffered, IndexOfTimer;
    if e.Deliver? {
      var i := FirstWaiter(b.waiters, Delivery(b.serials, e.message, e.sender));
      if i < |b.waiters| { assert b.waiters[i] in b.waiters; }
    } else if e.Wait? {
      var i := FirstBuffered(b.inbox, Waiter(b.timers, e.thid, e.from));
    }
  }

  lemma PushKeeps(inbox: seq<Delivery>, d: Delivery, n: nat, x: Delivery)
    requires IsKept(inbox, d, n) && |inbox| <= 256 && n < 255
    ensures IsKept(Push(inbox, x), d, n + 1)
  {
    var j :| 0 <= j < |inbox| && inbox[j] == d && |inbox| - 1 - j <= n;
    var drop := if |inbox| == 256 then 1 else 0;
    assert Push(inbox, x)[j - drop] == d;
  }

  lemma WithoutKeeps(inbox: seq<Delivery>, d: Delivery, n: nat, i: nat)
    requires IsKept(inbox, d, n) && i < |inbox| && inbox[i] != d
    ensures IsKept(Without(inbox, i), d, n)
  {
    var j :| 0 <= j < |inbox| && inbox[j] == d && |inbox| - 1 - j <= n;
    assert Without(inbox, i)[if j < i then j else j - 1] == d;
  }

  /**
   A message that nobody waits for, unless it is an unthreaded frame of the mediator, stays in the inbox
   until a waiter takes it or 256 later such messages have come in.
   */
  lemma {:induction false} UnclaimedIsKept(mediator: string, b: Box, m: Message, s: Sender, es: seq<BoxEvent>)
    requires Inv(b) && IsUnclaimed(mediator, b, Deliver(m, s))
    ensures var d := Delivery(b.serials, m, s); var start := Step(mediator, b, Deliver(m, s));
      var after := Run(mediator, start, es); var n := Unclaimed(mediator, start, es);
      && Inv(after)
      && (n < 256 ==> IsTaken(after.log, d) || IsKept(after.inbox, d, n))
  {
    hide Inv, Step, IsUnclaimed, Push, Without, IsKept, IsTaken;
    var d, start := Delivery(b.serials, m, s), Step(mediator, b, Deliver(m, s));
    if es == [] {
      StepKeepsInv(mediator, b, Deliver(m, s));
      InboxEffect(mediator, b, Deliver(m, s));
      PushedIsKept(b.inbox, d);
    } else {
      var k := |es| - 1;
      UnclaimedIsKept(mediator, b, m, s, es[..k]);
      StepKeepsInv(mediator, Run(mediator, start, es[..k]), es[k]);
      if Unclaimed(mediator, start, es) < 256 {
        KeptStep(mediator, Run(mediator, start, es[..k]), es[k], d, Unclaimed(mediator, start, es[..k]));
      }
    }
  }

  lemma PushedIsKept(inbox: seq<Delivery>, d: Delivery)
    ensures IsKept(Push(inbox, d), d, 0)
  {
    var p := Push(inbox, d);
    assert p[|p| - 1] == d;
  }

  lemma KeptStep(mediator: string, b: Box, e: BoxEvent, d: Delivery, n: nat)
    requires Inv(b) && (IsTaken(b.log, d) || IsKept(b.inbox, d, n))
    requires n + (if IsUnclaimed(mediator, b, e) then 1 else 0) < 256
    ensures var b' := Step(mediator, b, e);
      IsTaken(b'.log, d) || IsKept(b'.inbox, d, if IsUnclaimed(mediator, b, e) then n + 1 else n)
  {
    var b' := Step(mediator, b, e);
    assert |b.inbox| <= 256;
    InboxEffect(mediator, b, e);
    hide Inv, Step, IsUnclaimed, Push, Without, IsKept;
    if IsTaken(b.log, d) {
      var i :| 0 <= i < |b.log| && b.log[i].Resolved? && b.log[i].delivery == d;
      assert b'.log[i] == b.log[i];
    } else if IsUnclaimed(mediator, b, e) {
      PushKeeps(b.inbox, d, n, Delivery(b.serials, e.message, e.sender));
    } else if b'.inbox != b.inbox {
      var i :| 0 <= i < |b.inbox| && b'.inbox == Without(b.inbox, i)
               && |b'.log| == |b.log| + 1 && b'.log[|b.log|].Resolved? && b'.log[|b.log|].delivery == b.inbox[i];
      if b.inbox[i] != d { WithoutKeeps(b.inbox, d, n, i); }
    }
  }

  /**
   A reply that raced its waiter is not lost: as long as nobody took it and fewer than 256 later messages
   were buffered, a waiter that accepts it is answered at once, with this message or an older one.
   */
  lemma RacedReplyIsAnswered(mediator: string, before: seq<BoxEvent>, m: Message, s: Sender, es: seq<BoxEvent>,
                             thid: Option<string>, from: Option<seq<string>>)
    requires IsUnclaimed(mediator, Run(mediator, EMPTY, before), Deliver(m, s))
    requires var b := Run(mediator, EMPTY, before); var start := Step(mediator, b, Deliver(m, s));
      && Unclaimed(mediator, start, es) < 256
      && !IsTaken(Run(mediator, start, es).log, Delivery(b.serials, m, s))
      && Matches(Waiter(Run(mediator, start, es).timers, thid, from), Delivery(b.serials, m, s))
    ensures var b := Run(mediator, EMPTY, before);
      var after := Run(mediator, Step(mediator, b, Deliver(m, s)), es);
      var log, w := Step(mediator, after, Wait(thid, from)).log, Waiter(after.timers, thid, from);
      && |log| == |after.log| + 1 && log[..|after.log|] == after.log && log[|after.log|].Resolved?
      && log[|after.log|].waiter == w && Matches(w, log[|after.log|].delivery)
      && log[|after.log|].delivery in after.inbox && log[|after.log|].delivery.serial <= b.serials
  {
    var b := Run(mediator, EMPTY, before);
    var d, start := Delivery(b.serials, m, s), Step(mediator, b, Deliver(m, s));
    NoMissedOrDoubledReply(mediator, before);
    UnclaimedIsKept(mediator, b, m, s, es);
    hide Inv, Run, AfterWait, Matches, IsUnclaimed, IsTaken, AfterDeliver;
    var after := Run(mediator, start, es);
    assert d in after.inbox;
    WaitTakesOldest(after, Waiter(after.timers, thid, from), d);
  }
}

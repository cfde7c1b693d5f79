/**
 The message-pickup protocol between the mediator's queue and a client session
 (src/mediator-transport.js): every `await` of the client is a step boundary, and
 frames, acks, timeouts, crashes and reconnects interleave freely.
 */
module MediatorProtocol {
  import opened Wrappers
  import opened Mailbox
  import S = SeenSet

  /** What a text frame is; unpacking a DIDComm frame may still fail or be refused. */
  datatype Frame =
    | Tsp(decodes: bool)
    | Didcomm(sender: Sender, message: Message)
    | Garbage

  /** `digest` is SHA-256 in hex; `mediator` the mediator's identity; `onTsp` whether a TSP consumer is set. */
  datatype Config = Config(digest: string -> string, frame: string -> Frame, mediator: string, onTsp: bool)

  ghost predicate CollisionFree(c: Config) {
    forall a: string, b: string {:trigger c.digest(a), c.digest(b)} :: c.digest(a) == c.digest(b) ==> a == b
  }

  /** One frame or ack, at the await it has reached. */
  datatype Act =
    | Wire(text: string)            // pushed by the mediator, not yet received
    | Unpacking(text: string)       // awaiting unpackInbound
    | Hashing(text: string)         // unpacked and queued, awaiting its queue id
    | Refusing(text: string)        // refused for good, awaiting its queue id
    | Delivering(text: string, queued: bool)  // awaiting _deliver
    | TspHashing(text: string)      // awaiting the queue id of a TSP frame
    | TspHandling(text: string)     // awaiting onTspFrame
    | Packing(id: string)           // an ack being packed
    | Acking(id: string)            // an ack on its way to the mediator
    | Done

  datatype Outcome = Unpacked | Transient | Refused

  /**
   The mediator's queue and everything it ever stored; the activities; the client
   session; and the history of hand-offs and permanent refusals.
   */
  datatype State = State(
    queue: set<string>, ever: set<string>,
    acts: seq<Act>,
    seen: seq<string>, entered: seq<string>, box: Box,
    handed: seq<string>, refused: set<string>)

  const INITIAL := State({}, {}, [], [], [], EMPTY, [], {})

  datatype Event =
    | Store(text: string)
    | MediatorPush(text: string)
    | Lose(i: nat)
    | Arrive(i: nat)
    | FinishUnpack(i: nat, outcome: Outcome)
    | FinishHash(i: nat)
    | FinishHandling(i: nat, ok: bool)
    | FinishPack(i: nat, sent: bool)
    | AckArrives(i: nat, status: string)
    | Session(e: BoxEvent)
    | Crash

  predicate IsQueued(c: Config, f: Frame) {
    f.Didcomm? && f.sender.did != "" && (f.sender.did != c.mediator || IsStoredMediatorReply(f.message))
  }

  /** The mediator's answer to an ack: a frame of its own that is not a stored reply. */
  predicate IsStatus(c: Config, text: string) {
    var f := c.frame(text);
    f.Didcomm? && f.sender.did == c.mediator && !IsStoredMediatorReply(f.message)
  }

  predicate Enabled(c: Config, s: State, e: Event) {
    match e
    case Store(_) => true
    case MediatorPush(_) => true
    case Lose(i) => i < |s.acts| && (s.acts[i].Wire? || s.acts[i].Acking?)
    case Arrive(i) => i < |s.acts| && s.acts[i].Wire?
    case FinishUnpack(i, outcome) =>
      i < |s.acts| && s.acts[i].Unpacking? && (outcome.Transient? || c.frame(s.acts[i].text).Didcomm?)
    case FinishHash(i) => i < |s.acts| && (s.acts[i].Hashing? || s.acts[i].Refusing? || s.acts[i].TspHashing?)
    case FinishHandling(i, _) => i < |s.acts| && (s.acts[i].Delivering? || s.acts[i].TspHandling?)
    case FinishPack(i, _) => i < |s.acts| && s.acts[i].Packing?
    case AckArrives(i, status) => i < |s.acts| && s.acts[i].Acking? && IsStatus(c, status)
    // deliveries happen only inside the frame tasks above
    case Session(be) => !be.Deliver?
    case Crash => true
  }

  function At(s: State, i: nat, a: Act): State
    requires i < |s.acts|
  {
    s.(acts := s.acts[i := a])
  }

  /** The synchronous part of `_deliver`. */
  function DeliverFrame(c: Config, s: State, f: Frame): State
    requires f.Didcomm?
  {
    s.(box := Step(c.mediator, s.box, Deliver(f.message, f.sender)))
  }

  function MarkHandled(c: Config, s: State, text: string): State {
    var id := c.digest(text);
    s.(seen := S.Mark(s.seen, id), entered := S.Entered(s.seen, s.entered, id))
  }

  function AfterArrive(c: Config, s: State, i: nat): State
    requires i < |s.acts| && s.acts[i].Wire?
  {
    var text := s.acts[i].text;
    match c.frame(text)
    case Tsp(decodes) => At(s, i, if decodes && c.onTsp then TspHashing(text) else Done)
    case _ => At(s, i, Unpacking(text))
  }

  function AfterUnpack(c: Config, s: State, i: nat, outcome: Outcome): State
    requires i < |s.acts| && s.acts[i].Unpacking?
    requires outcome.Transient? || c.frame(s.acts[i].text).Didcomm?
  {
    var text := s.acts[i].text;
    var f := c.frame(text);
    match outcome
    case Transient => At(s, i, Done)
    case Refused => At(s, i, if f.sender.did != c.mediator then Refusing(text) else Done)
    case Unpacked =>
      if IsQueued(c, f) then At(s, i, Hashing(text))
      else At(DeliverFrame(c, s, f), i, Delivering(text, false))
  }

  function AfterHash(c: Config, s: State, i: nat): State
    requires i < |s.acts| && (s.acts[i].Hashing? || s.acts[i].Refusing? || s.acts[i].TspHashing?)
  {
    var text := s.acts[i].text;
    var id := c.digest(text);
    if s.acts[i].Refusing? then
      At(MarkHandled(c, s.(refused := s.refused + {text}), text), i, Packing(id))
    else if id in s.seen then
      At(s, i, Packing(id))
    else if s.acts[i].TspHashing? then
      At(s, i, TspHandling(text))
    else if c.frame(text).Didcomm? then
      At(DeliverFrame(c, s, c.frame(text)), i, Delivering(text, true))
    else
      s
  }

  function AfterHandling(c: Config, s: State, i: nat, ok: bool): State
    requires i < |s.acts| && (s.acts[i].Delivering? || s.acts[i].TspHandling?)
  {
    var text := s.acts[i].text;
    if s.acts[i].TspHandling? && !ok then
      At(s, i, Done)  // the consumer threw: not handed off, not acked
    else
      var handed := s.(handed := s.handed + [text]);
      if s.acts[i].Delivering? && !s.acts[i].queued then At(handed, i, Done)
      else At(MarkHandled(c, handed, text), i, Packing(c.digest(text)))
  }

  function AfterAck(c: Config, s: State, i: nat, status: string): State
    requires i < |s.acts| && s.acts[i].Acking?
  {
    At(s.(queue := set t | t in s.queue && c.digest(t) != s.acts[i].id), i, Wire(status))
  }

  /** The client host dies: its tasks, session and unsent acks vanish; sent acks travel on. */
  function CrashAct(a: Act): Act {
    if a.Acking? then a else Done
  }

  function CrashActs(acts: seq<Act>): (r: seq<Act>)
    ensures |r| == |acts| && forall i :: 0 <= i < |acts| ==> r[i] == CrashAct(acts[i])
  {
    if acts == [] then [] else CrashActs(acts[..|acts| - 1]) + [CrashAct(acts[|acts| - 1])]
  }

  function AfterCrash(s: State): State {
    s.(acts := CrashActs(s.acts), seen := [], entered := [], box := EMPTY)
  }

  /** The effect of an event; an event that is not enabled does nothing. */
  function Apply(c: Config, s: State, e: Event): State {
    if !Enabled(c, s, e) then s else
    match e
    case Store(t) => s.(queue := s.queue + {t}, ever := s.ever + {t})
    case MediatorPush(t) => s.(acts := s.acts + [Wire(t)])
    case Lose(i) => At(s, i, Done)
    case Arrive(i) => AfterArrive(c, s, i)
    case FinishUnpack(i, outcome) => AfterUnpack(c, s, i, outcome)
    case FinishHash(i) => AfterHash(c, s, i)
    case FinishHandling(i, ok) => AfterHandling(c, s, i, ok)
    case FinishPack(i, sent) => At(s, i, if sent then Acking(s.acts[i].id) else Done)
    case AckArrives(i, status) => AfterAck(c, s, i, status)
    case Session(be) => s.(box := Step(c.mediator, s.box, be))
    case Crash => AfterCrash(s)
  }

  function Exec(c: Config, s: State, es: seq<Event>): State {
    if es == [] then s else Apply(c, Exec(c, s, es[..|es| - 1]), es[|es| - 1])
  }

  /** The steps that process a frame or an ack. */
  predicate IsProgress(e: Event) {
    !e.Store? && !e.MediatorPush? && !e.Session? && !e.Crash?
  }

  // ----- no message is lost

  ghost predicate Accounted(s: State, text: string) {
    text in s.handed || text in s.refused
  }

  ghost predicate Vouched(c: Config, s: State, id: string) {
    exists t: string :: Accounted(s, t) && c.digest(t) == id
  }

  /** Every message ever stored is queued, handed off or refused, and only such ids are acked or remembered. */
  ghost predicate NoLoss(c: Config, s: State) {
    && (forall t :: t in s.ever ==> t in s.queue || Accounted(s, t))
    && (forall id :: id in s.seen ==> Vouched(c, s, id))
    && (forall i :: 0 <= i < |s.acts| && (s.acts[i].Packing? || s.acts[i].Acking?) ==> Vouched(c, s, s.acts[i].id))
  }

  lemma VouchedGrows(c: Config, s: State, s': State)
    requires s.handed <= s'.handed && s.refused <= s'.refused
    ensures forall id :: Vouched(c, s, id) ==> Vouched(c, s', id)
  {
    forall id | Vouched(c, s, id) ensures Vouched(c, s', id) {
      var t :| Accounted(s, t) && c.digest(t) == id;
      assert Accounted(s', t);
    }
  }

  lemma AckKeepsNoLoss(c: Config, s: State, i: nat, status: string)
    requires CollisionFree(c) && NoLoss(c, s) && i < |s.acts| && s.acts[i].Acking?
    ensures NoLoss(c, AfterAck(c, s, i, status))
  {
    var s' := AfterAck(c, s, i, status);
    VouchedGrows(c, s, s');
    forall t | t in s'.ever ensures t in s'.queue || Accounted(s', t) {
      if t in s.queue && c.digest(t) == s.acts[i].id {
        var u :| Accounted(s, u) && c.digest(u) == s.acts[i].id;
        assert t == u;
      }
    }
  }

  lemma HashKeepsNoLoss(c: Config, s: State, i: nat)
    requires NoLoss(c, s) && Enabled(c, s, FinishHash(i))
    ensures NoLoss(c, AfterHash(c, s, i))
  {
    var s' := AfterHash(c, s, i);
    VouchedGrows(c, s, s');
    if s.acts[i].Refusing? {
      assert Accounted(s', s.acts[i].text);
    }
  }

  lemma HandlingKeepsNoLoss(c: Config, s: State, i: nat, ok: bool)
    requires NoLoss(c, s) && Enabled(c, s, FinishHandling(i, ok))
    ensures NoLoss(c, AfterHandling(c, s, i, ok))
  {
    var s' := AfterHandling(c, s, i, ok);
    VouchedGrows(c, s, s');
    if s.acts[i].Delivering? || ok {
      assert Accounted(s', s.acts[i].text);
    }
  }

  lemma ApplyKeepsNoLoss(c: Config, s: State, e: Event)
    requires CollisionFree(c) && NoLoss(c, s)
    ensures NoLoss(c, Apply(c, s, e))
  {
    if Enabled(c, s, e) {
      match e
      case FinishHash(i) => HashKeepsNoLoss(c, s, i);
      case FinishHandling(i, ok) => HandlingKeepsNoLoss(c, s, i, ok);
      case AckArrives(i, status) => AckKeepsNoLoss(c, s, i, status);
      case _ => VouchedGrows(c, s, Apply(c, s, e));
    }
  }

  // ----- what the events of a run were

  /** An event and the state it found. */
  datatype Moment = Moment(before: State, event: Event)

  /** The moments of a run from the empty system. */
  function Trace(c: Config, es: seq<Event>): (tr: seq<Moment>)
    ensures |tr| == |es|
  {
    if es == [] then []
    else Trace(c, es[..|es| - 1]) + [Moment(Exec(c, INITIAL, es[..|es| - 1]), es[|es| - 1])]
  }

  /** `unpackInbound` on a DIDComm frame ended like this. */
  predicate Unpacks(c: Config, m: Moment, text: string, outcome: Outcome) {
    && m.event.FinishUnpack? && m.event.outcome == outcome
    && m.event.i < |m.before.acts| && m.before.acts[m.event.i] == Unpacking(text) && c.frame(text).Didcomm?
  }

  /** The message of a frame went to the waiters and the inbox. */
  predicate Delivers(c: Config, m: Moment, text: string) {
    var f := c.frame(text);
    && f.Didcomm?
    && (Unpacks(c, m, text, Unpacked)
        || (m.event.FinishHash? && m.event.i < |m.before.acts| && m.before.acts[m.event.i] == Hashing(text)))
    && Apply(c, m.before, m.event).box == Step(c.mediator, m.before.box, Deliver(f.message, f.sender))
  }

  /** The consumer of a frame returned; a TSP consumer without throwing. */
  predicate HandsOff(m: Moment, text: string) {
    && m.event.FinishHandling? && m.event.i < |m.before.acts|
    && var a := m.before.acts[m.event.i];
      (a.Delivering? && a.text == text) || (a == TspHandling(text) && m.event.ok)
  }

  ghost predicate WasUnpacked(c: Config, tr: seq<Moment>, text: string, outcome: Outcome) {
    exists m :: m in tr && Unpacks(c, m, text, outcome)
  }

  ghost predicate WasDelivered(c: Config, tr: seq<Moment>, text: string) {
    WasUnpacked(c, tr, text, Unpacked) && exists m :: m in tr && Delivers(c, m, text)
  }

  /** Refused for good: by unpack itself, and not sent by the mediator. */
  ghost predicate WasRefused(c: Config, tr: seq<Moment>, text: string) {
    WasUnpacked(c, tr, text, Refused) && c.frame(text).sender.did != c.mediator
  }

  /** Its consumer has it: a DIDComm message was delivered as well, a TSP frame decoded and had a consumer. */
  ghost predicate WasHandedOff(c: Config, tr: seq<Moment>, text: string) {
    && (exists m :: m in tr && HandsOff(m, text))
    && match c.frame(text)
       case Didcomm(_, _) => WasDelivered(c, tr, text)
       case Tsp(decodes) => decodes && c.onTsp
       case Garbage => false
  }

  /** What a frame must be for its ack not to provoke the mediator. */
  predicate IsAckable(c: Config, text: string) {
    match c.frame(text)
    case Tsp(_) => true
    case Didcomm(sender, message) =>
      sender.did != c.mediator
      || (message.typ == Some("https://trusttasks.org/binding/didcomm/0.1/envelope") && message.thid != None)
    case Garbage => false
  }

  ghost predicate IsDealtWith(c: Config, tr: seq<Moment>, text: string) {
    WasRefused(c, tr, text) || WasHandedOff(c, tr, text)
  }

  /** An id that may be acked or remembered. */
  ghost predicate IsEarned(c: Config, tr: seq<Moment>, id: string) {
    exists t: string :: c.digest(t) == id && IsDealtWith(c, tr, t) && IsAckable(c, t)
  }

  /** How a task got where it is. */
  ghost predicate IsCaused(c: Config, tr: seq<Moment>, a: Act) {
    match a
    case Hashing(t) => c.frame(t).Didcomm? && WasUnpacked(c, tr, t, Unpacked)
    case Delivering(t, queued) => c.frame(t).Didcomm? && WasDelivered(c, tr, t) && (queued ==> IsAckable(c, t))
    case Refusing(t) => WasRefused(c, tr, t)
    case TspHashing(t) => c.frame(t) == Tsp(true) && c.onTsp
    case TspHandling(t) => c.frame(t) == Tsp(true) && c.onTsp
    case Packing(id) => IsEarned(c, tr, id)
    case Acking(id) => IsEarned(c, tr, id)
    case _ => true
  }

  ghost predicate HistoryIsCaused(c: Config, tr: seq<Moment>, handed: seq<string>, refused: set<string>) {
    && (forall t :: t in handed ==> WasHandedOff(c, tr, t))
    && (forall t :: t in refused ==> WasRefused(c, tr, t))
  }

  ghost predicate ClientIsCaused(c: Config, tr: seq<Moment>, acts: seq<Act>, seen: seq<string>) {
    && (forall i :: 0 <= i < |acts| ==> IsCaused(c, tr, acts[i]))
    && (forall id :: id in seen ==> IsEarned(c, tr, id))
  }

  /** Every id acked or remembered was earned. */
  ghost predicate OnlyEarned(c: Config, tr: seq<Moment>, acts: seq<Act>, seen: seq<string>) {
    && (forall id :: id in seen ==> IsEarned(c, tr, id))
    && (forall a :: a in acts && (a.Packing? || a.Acking?) ==> IsEarned(c, tr, a.id))
  }

  lemma CausedIsEarned(c: Config, tr: seq<Moment>, acts: seq<Act>, seen: seq<string>)
    requires ClientIsCaused(c, tr, acts, seen)
    ensures OnlyEarned(c, tr, acts, seen)
  {
    hide WasHandedOff, WasRefused, WasDelivered, WasUnpacked, IsEarned;
    forall a | a in acts && (a.Packing? || a.Acking?) ensures IsEarned(c, tr, a.id) {
      var i :| 0 <= i < |acts| && acts[i] == a;
      assert IsCaused(c, tr, acts[i]);
    }
  }

  /** A cause stays one as the run goes on. */
  lemma CausesStay(c: Config, tr: seq<Moment>, m: Moment)
    ensures forall t, o :: WasUnpacked(c, tr, t, o) ==> WasUnpacked(c, tr + [m], t, o)
    ensures forall t :: WasDelivered(c, tr, t) ==> WasDelivered(c, tr + [m], t)
    ensures forall t :: WasRefused(c, tr, t) ==> WasRefused(c, tr + [m], t)
    ensures forall t :: WasHandedOff(c, tr, t) ==> WasHandedOff(c, tr + [m], t)
    ensures forall id :: IsEarned(c, tr, id) ==> IsEarned(c, tr + [m], id)
    ensures forall a :: IsCaused(c, tr, a) ==> IsCaused(c, tr + [m], a)
  {
    hide Unpacks, Delivers, HandsOff, IsAckable;
    assert forall x :: x in tr ==> x in tr + [m];
  }

  lemma HistoryStays(c: Config, tr: seq<Moment>, m: Moment, handed: seq<string>, refused: set<string>)
    requires HistoryIsCaused(c, tr, handed, refused)
    ensures HistoryIsCaused(c, tr + [m], handed, refused)
  {
    hide WasHandedOff, WasRefused;
    CausesStay(c, tr, m);
  }

  lemma ClientStays(c: Config, tr: seq<Moment>, m: Moment, acts: seq<Act>, seen: seq<string>)
    requires ClientIsCaused(c, tr, acts, seen)
    ensures ClientIsCaused(c, tr + [m], acts, seen)
  {
    hide IsCaused, IsEarned;
    CausesStay(c, tr, m);
  }

  lemma MomentCauses(c: Config, tr: seq<Moment>, m: Moment, text: string)
    ensures forall o :: Unpacks(c, m, text, o) ==> WasUnpacked(c, tr + [m], text, o)
    ensures Delivers(c, m, text) ==> exists x :: x in tr + [m] && Delivers(c, x, text)
    ensures HandsOff(m, text) ==> exists x :: x in tr + [m] && HandsOff(x, text)
  {
    hide Unpacks, Delivers, HandsOff;
    assert m in tr + [m];
  }

  /** What a step on task i moves or adds has its cause. */
  ghost predicate GainsAreCaused(c: Config, tr: seq<Moment>, s: State, s': State, i: nat)
    requires i < |s'.acts|
  {
    && IsCaused(c, tr, s'.acts[i])
    && (forall id :: id in s'.seen ==> id in s.seen || IsEarned(c, tr, id))
    && (forall t :: t in s'.handed ==> t in s.handed || WasHandedOff(c, tr, t))
    && (forall t :: t in s'.refused ==> t in s.refused || WasRefused(c, tr, t))
  }

  lemma UnpackIsCaused(c: Config, tr: seq<Moment>, s: State, i: nat, outcome: Outcome)
    requires Enabled(c, s, FinishUnpack(i, outcome))
    ensures GainsAreCaused(c, tr + [Moment(s, FinishUnpack(i, outcome))], s, AfterUnpack(c, s, i, outcome), i)
  {
    var m, text := Moment(s, FinishUnpack(i, outcome)), s.acts[i].text;
    MomentCauses(c, tr, m, text);
    assert outcome.Unpacked? && !IsQueued(c, c.frame(text)) ==> Delivers(c, m, text);
    hide WasUnpacked, Delivers, Step, IsEarned;
  }

  lemma RefusedIsEarned(c: Config, tr: seq<Moment>, text: string)
    requires WasRefused(c, tr, text)
    ensures IsEarned(c, tr, c.digest(text))
  {
    hide WasHandedOff;
    var m :| m in tr && Unpacks(c, m, text, Refused);
    assert IsDealtWith(c, tr, text) && IsAckable(c, text);
  }

  /** A queued message that passes the check is delivered. */
  lemma HashDelivers(c: Config, tr: seq<Moment>, s: State, i: nat)
    requires i < |s.acts| && s.acts[i].Hashing? && IsCaused(c, tr, s.acts[i]) && c.digest(s.acts[i].text) !in s.seen
    requires IsQueued(c, c.frame(s.acts[i].text))
    ensures IsCaused(c, tr + [Moment(s, FinishHash(i))], Delivering(s.acts[i].text, true))
  {
    var m, text := Moment(s, FinishHash(i)), s.acts[i].text;
    assert Delivers(c, m, text);
    hide Delivers, Unpacks, WasHandedOff, IsEarned, HandsOff;
    MomentCauses(c, tr, m, text);
    CausesStay(c, tr, m);
  }

  lemma HashIsCaused(c: Config, tr: seq<Moment>, s: State, i: nat)
    requires Enabled(c, s, FinishHash(i)) && StagesFit(c, s) && ClientIsCaused(c, tr, s.acts, s.seen)
    ensures GainsAreCaused(c, tr + [Moment(s, FinishHash(i))], s, AfterHash(c, s, i), i)
  {
    hide WasRefused, WasUnpacked, WasDelivered, WasHandedOff, IsEarned, IsAckable, MarkHandled, Step, IsQueued, IsStatus;
    var m, text := Moment(s, FinishHash(i)), s.acts[i].text;
    assert IsCaused(c, tr, s.acts[i]);
    CausesStay(c, tr, m);
    MarkAdds(c, s.(refused := s.refused + {text}), text);
    if s.acts[i].Refusing? {
      RefusedIsEarned(c, tr + [m], text);
    } else if s.acts[i].Hashing? && c.digest(text) !in s.seen {
      HashDelivers(c, tr, s, i);
    }
  }

  lemma HandlingIsCaused(c: Config, tr: seq<Moment>, s: State, i: nat, ok: bool)
    requires Enabled(c, s, FinishHandling(i, ok)) && ClientIsCaused(c, tr, s.acts, s.seen)
    ensures GainsAreCaused(c, tr + [Moment(s, FinishHandling(i, ok))], s, AfterHandling(c, s, i, ok), i)
  {
    hide WasRefused, WasUnpacked, WasDelivered, WasHandedOff, IsEarned, MarkHandled, IsStatus;
    var m, text := Moment(s, FinishHandling(i, ok)), s.acts[i].text;
    assert IsCaused(c, tr, s.acts[i]);
    CausesStay(c, tr, m);
    MarkAdds(c, s.(handed := s.handed + [text]), text);
    if s.acts[i].Delivering? || ok { HandedIsCaused(c, tr, m, text); }
  }

  lemma HandedIsCaused(c: Config, tr: seq<Moment>, m: Moment, text: string)
    requires HandsOff(m, text) && IsCaused(c, tr + [m], m.before.acts[m.event.i])
    ensures WasHandedOff(c, tr + [m], text)
    ensures IsAckable(c, text) ==> IsEarned(c, tr + [m], c.digest(text))
  {
    hide WasDelivered, IsAckable, WasRefused;
    MomentCauses(c, tr, m, text);
    assert WasHandedOff(c, tr + [m], text);
    hide WasHandedOff;
    assert IsDealtWith(c, tr + [m], text);
  }

  /** Marking adds one id at most. */
  lemma MarkAdds(c: Config, s: State, text: string)
    ensures forall id :: id in MarkHandled(c, s, text).seen ==> id in s.seen || id == c.digest(text)
    ensures MarkHandled(c, s, text).(seen := s.seen, entered := s.entered) == s
  {
  }

  lemma ProgressIsCaused(c: Config, tr: seq<Moment>, s: State, e: Event)
    requires IsProgress(e) && Enabled(c, s, e) && StagesFit(c, s) && ClientIsCaused(c, tr, s.acts, s.seen)
    ensures e.i < |s.acts| && |Apply(c, s, e).acts| == |s.acts|
    ensures GainsAreCaused(c, tr + [Moment(s, e)], s, Apply(c, s, e), e.i)
    ensures Apply(c, s, e).acts == s.acts[e.i := Apply(c, s, e).acts[e.i]]
  {
    ProgressUpdates(c, s, e);
    match e
    case FinishUnpack(i, outcome) => hide AfterUnpack, GainsAreCaused; UnpackIsCaused(c, tr, s, i, outcome);
    case FinishHash(i) => hide AfterHash, GainsAreCaused; HashIsCaused(c, tr, s, i);
    case FinishHandling(i, ok) => hide AfterHandling, GainsAreCaused; HandlingIsCaused(c, tr, s, i, ok);
    case _ => PlainIsCaused(c, tr, s, e);
  }

  lemma PlainIsCaused(c: Config, tr: seq<Moment>, s: State, e: Event)
    requires e.Lose? || e.Arrive? || e.FinishPack? || e.AckArrives?
    requires Enabled(c, s, e) && ClientIsCaused(c, tr, s.acts, s.seen)
    ensures e.i < |s.acts| && e.i < |Apply(c, s, e).acts| && GainsAreCaused(c, tr + [Moment(s, e)], s, Apply(c, s, e), e.i)
  {
    hide WasRefused, WasUnpacked, WasDelivered, WasHandedOff, IsEarned, IsAckable, IsStatus;
    assert IsCaused(c, tr, s.acts[e.i]);
    CausesStay(c, tr, Moment(s, e));
  }

  /** Other events only add a frame, or end tasks. */
  lemma RestIsCaused(c: Config, tr: seq<Moment>, s: State, e: Event)
    requires !(IsProgress(e) && Enabled(c, s, e)) && ClientIsCaused(c, tr, s.acts, s.seen)
    ensures ClientIsCaused(c, tr, Apply(c, s, e).acts, Apply(c, s, e).seen)
    ensures Apply(c, s, e).handed == s.handed && Apply(c, s, e).refused == s.refused
  {
    hide IsEarned, WasHandedOff, WasRefused, WasDelivered, WasUnpacked, Step, IsQueued, IsStatus;
    var s' := Apply(c, s, e);
    forall i | 0 <= i < |s'.acts| ensures IsCaused(c, tr, s'.acts[i]) {
      if i < |s.acts| { assert IsCaused(c, tr, s.acts[i]); }
    }
  }

  lemma StepIsCaused(c: Config, tr: seq<Moment>, s: State, e: Event)
    requires StagesFit(c, s) && HistoryIsCaused(c, tr, s.handed, s.refused) && ClientIsCaused(c, tr, s.acts, s.seen)
    ensures var s', tr' := Apply(c, s, e), tr + [Moment(s, e)];
      HistoryIsCaused(c, tr', s'.handed, s'.refused) && ClientIsCaused(c, tr', s'.acts, s'.seen)
  {
    var s', m := Apply(c, s, e), Moment(s, e);
    HistoryStays(c, tr, m, s.handed, s.refused);
    ClientStays(c, tr, m, s.acts, s.seen);
    if IsProgress(e) && Enabled(c, s, e) {
      ProgressIsCaused(c, tr, s, e);
    } else {
      RestIsCaused(c, tr, s, e);
      ClientStays(c, tr, m, s'.acts, s'.seen);
    }
    hide Apply, Enabled, IsCaused, IsEarned, WasHandedOff, WasRefused, StagesFit;
  }

  lemma {:induction false} RunIsCaused(c: Config, es: seq<Event>)
    ensures var s := Exec(c, INITIAL, es);
      HistoryIsCaused(c, Trace(c, es), s.handed, s.refused) && ClientIsCaused(c, Trace(c, es), s.acts, s.seen)
  {
    if es != [] {
      hide HistoryIsCaused, ClientIsCaused, Apply;
      RunIsCaused(c, es[..|es| - 1]);
      StagesAlwaysFit(c, es[..|es| - 1]);
      StepIsCaused(c, Trace(c, es[..|es| - 1]), Exec(c, INITIAL, es[..|es| - 1]), es[|es| - 1]);
    }
  }

  lemma {:induction false} NoLossAlways(c: Config, es: seq<Event>)
    requires CollisionFree(c)
    ensures NoLoss(c, Exec(c, INITIAL, es))
  {
    if es != [] {
      NoLossAlways(c, es[..|es| - 1]);
      ApplyKeepsNoLoss(c, Exec(c, INITIAL, es[..|es| - 1]), es[|es| - 1]);
    }
  }

  lemma EverGrows(c: Config, s: State, e: Event)
    ensures s.ever <= Apply(c, s, e).ever && (e.Store? ==> e.text in Apply(c, s, e).ever)
  {
    hide Step, IsQueued, IsStatus;
  }

  lemma {:induction false} StoredIsEver(c: Config, es: seq<Event>, text: string)
    requires Store(text) in es
    ensures text in Exec(c, INITIAL, es).ever
  {
    hide Apply;
    var n := |es| - 1;
    EverGrows(c, Exec(c, INITIAL, es[..n]), es[n]);
    if Store(text) in es[..n] { StoredIsEver(c, es[..n], text); } else { assert es == es[..n] + [es[n]]; }
  }

  /**
   No loss, over every run from the empty system: a stored message is still queued, or the run has an event
   in which unpack refused it for good or its consumer returned. Only such messages are acked or remembered,
   and never a frame of the mediator's own that is not a stored reply.
   */
  lemma NothingIsLost(c: Config, es: seq<Event>)
    requires CollisionFree(c)
    ensures NoLoss(c, Exec(c, INITIAL, es))
    ensures forall t :: Store(t) in es ==> t in Exec(c, INITIAL, es).queue || IsDealtWith(c, Trace(c, es), t)
    ensures OnlyEarned(c, Trace(c, es), Exec(c, INITIAL, es).acts, Exec(c, INITIAL, es).seen)
  {
    NoLossAlways(c, es);
    RunIsCaused(c, es);
    var s := Exec(c, INITIAL, es);
    CausedIsEarned(c, Trace(c, es), s.acts, s.seen);
    hide Exec, Trace, WasHandedOff, WasRefused, OnlyEarned, ClientIsCaused, Vouched;
    forall t | Store(t) in es ensures t in s.queue || IsDealtWith(c, Trace(c, es), t) {
      StoredIsEver(c, es, t);
      assert t in s.queue || Accounted(s, t);
    }
  }

  // ----- correlation and dedup state of every reachable session

  ghost predicate SessionInv(s: State) {
    Inv(s.box) && S.IsWindow(s.seen, s.entered)
  }

  /** An event leaves the correlation state alone, steps it, or starts a new session. */
  lemma BoxEffect(c: Config, s: State, e: Event) returns (be: Option<BoxEvent>)
    ensures var box := Apply(c, s, e).box;
            box == EMPTY || box == (if be.Some? then Step(c.mediator, s.box, be.value) else s.box)
  {
    be := None;
    if Enabled(c, s, e) {
      match e
      case FinishUnpack(i, outcome) =>
        var f := c.frame(s.acts[i].text);
        if outcome.Unpacked? && !IsQueued(c, f) { be := Some(Deliver(f.message, f.sender)); }
      case FinishHash(i) =>
        var f := c.frame(s.acts[i].text);
        if AfterHash(c, s, i).acts[i].Delivering? { be := Some(Deliver(f.message, f.sender)); }
      case Session(b) => be := Some(b);
      case _ =>
    }
  }

  /** An event leaves the dedup set alone, marks one id, or starts a new session. */
  lemma SeenEffect(c: Config, s: State, e: Event) returns (id: Option<string>)
    ensures var s' := Apply(c, s, e);
            || (s'.seen == [] && s'.entered == [])
            || (id.None? && s'.seen == s.seen && s'.entered == s.entered)
            || (id.Some? && s'.seen == S.Mark(s.seen, id.value) && s'.entered == S.Entered(s.seen, s.entered, id.value))
  {
    id := None;
    if Enabled(c, s, e) {
      match e
      case FinishHash(i) =>
        if s.acts[i].Refusing? { id := Some(c.digest(s.acts[i].text)); }
      case FinishHandling(i, ok) =>
        if AfterHandling(c, s, i, ok).acts[i].Packing? { id := Some(c.digest(s.acts[i].text)); }
      case _ =>
    }
  }

  lemma ApplyKeepsSession(c: Config, s: State, e: Event)
    requires SessionInv(s)
    ensures SessionInv(Apply(c, s, e))
  {
    var be := BoxEffect(c, s, e);
    assert Inv(Apply(c, s, e).box) by {
      if be.Some? { StepKeepsInv(c.mediator, s.box, be.value); }
    }
    var id := SeenEffect(c, s, e);
    if id.Some? { S.MarkKeepsWindow(s.seen, s.entered, id.value); }
  }

  /** In every run, under every interleaving, no reply is missed or doubled and the dedup set is its window. */
  lemma {:induction false} SessionsStaySound(c: Config, es: seq<Event>)
    ensures SessionInv(Exec(c, INITIAL, es))
  {
    if es != [] {
      SessionsStaySound(c, es[..|es| - 1]);
      ApplyKeepsSession(c, Exec(c, INITIAL, es[..|es| - 1]), es[|es| - 1]);
    }
  }

  // ----- a remembered frame is re-acked and never handed off again

  function Count(handed: seq<string>, text: string): nat {
    if handed == [] then 0 else Count(handed[..|handed| - 1], text) + if handed[|handed| - 1] == text then 1 else 0
  }

  predicate PastCheck(a: Act, text: string) {
    ((a.Delivering? && a.queued) || a.TspHandling?) && a.text == text
  }

  /** Tasks for `text` that passed the dedup check and may still hand it off. */
  function InProgress(acts: seq<Act>, text: string): nat {
    if acts == [] then 0 else InProgress(acts[..|acts| - 1], text) + if PastCheck(acts[|acts| - 1], text) then 1 else 0
  }

  lemma {:induction false} InProgressUpdate(acts: seq<Act>, i: nat, a: Act, text: string)
    requires i < |acts|
    ensures InProgress(acts[i := a], text)
            == InProgress(acts, text) - (if PastCheck(acts[i], text) then 1 else 0) + (if PastCheck(a, text) then 1 else 0)
  {
    var n := |acts| - 1;
    if i < n {
      assert acts[i := a][..n] == acts[..n][i := a];
      InProgressUpdate(acts[..n], i, a, text);
    } else {
      assert acts[i := a][..n] == acts[..n];
    }
  }

  lemma {:induction false} CrashClearsProgress(acts: seq<Act>, text: string)
    ensures InProgress(CrashActs(acts), text) == 0
  {
    if acts != [] {
      CrashClearsProgress(acts[..|acts| - 1], text);
      AppendProgress(CrashActs(acts[..|acts| - 1]), CrashAct(acts[|acts| - 1]), text);
    }
  }

  /** Only frames the client treats as queued messages are deduplicated. */
  predicate Deduped(c: Config, text: string) {
    IsQueued(c, c.frame(text)) || c.frame(text).Tsp?
  }

  /** A task only sits in a stage its frame can reach. */
  ghost predicate StagesFit(c: Config, s: State) {
    forall i :: 0 <= i < |s.acts| ==>
      match s.acts[i]
      case Hashing(t) => IsQueued(c, c.frame(t))
      case Delivering(t, q) => c.frame(t).Didcomm? && q == IsQueued(c, c.frame(t))
      case Refusing(t) => c.frame(t).Didcomm? && c.frame(t).sender.did != c.mediator
      case TspHashing(t) => c.frame(t).Tsp?
      case TspHandling(t) => c.frame(t).Tsp?
      case _ => true
  }

  lemma ApplyKeepsStages(c: Config, s: State, e: Event)
    requires StagesFit(c, s)
    ensures StagesFit(c, Apply(c, s, e))
  {
    hide Step, IsQueued, IsStatus;
  }

  lemma {:induction false} StagesAlwaysFit(c: Config, es: seq<Event>)
    ensures StagesFit(c, Exec(c, INITIAL, es))
  {
    if es != [] {
      StagesAlwaysFit(c, es[..|es| - 1]);
      ApplyKeepsStages(c, Exec(c, INITIAL, es[..|es| - 1]), es[|es| - 1]);
    }
  }

  lemma AppendCounts(handed: seq<string>, t: string, text: string)
    ensures Count(handed + [t], text) == Count(handed, text) + if t == text then 1 else 0
  {
    assert (handed + [t])[..|handed|] == handed;
  }

  lemma AppendProgress(acts: seq<Act>, a: Act, text: string)
    ensures InProgress(acts + [a], text) == InProgress(acts, text) + if PastCheck(a, text) then 1 else 0
  {
    assert (acts + [a])[..|acts|] == acts;
  }

  /** A processing step rewrites the one activity it names. */
  lemma ProgressUpdates(c: Config, s: State, e: Event)
    requires IsProgress(e) && Enabled(c, s, e)
    ensures e.i < |s.acts| && |Apply(c, s, e).acts| == |s.acts|
    ensures Apply(c, s, e).acts == s.acts[e.i := Apply(c, s, e).acts[e.i]]
  {
  }

  /** One processing step while the id is remembered: only a task past the check hands the frame off. */
  lemma RememberedStep(c: Config, s: State, e: Event, text: string)
    requires IsProgress(e) && Enabled(c, s, e)
    requires c.digest(text) in s.seen && Deduped(c, text) && StagesFit(c, s)
    ensures var s' := Apply(c, s, e);
            && (PastCheck(s'.acts[e.i], text) ==> PastCheck(s.acts[e.i], text) && s'.handed == s.handed)
            && (s'.handed == s.handed
                || (s'.handed == s.handed + [s.acts[e.i].text]
                    && (s.acts[e.i].text == text ==> PastCheck(s.acts[e.i], text) && !PastCheck(s'.acts[e.i], text))))
  {
  }

  /** While its id is remembered, a frame's hand-offs plus its tasks past the check never grow. */
  lemma RememberedNeverGrows(c: Config, s: State, e: Event, text: string)
    requires c.digest(text) in s.seen && Deduped(c, text) && StagesFit(c, s)
    ensures var s' := Apply(c, s, e);
            Count(s'.handed, text) + InProgress(s'.acts, text) <= Count(s.handed, text) + InProgress(s.acts, text)
  {
    if Enabled(c, s, e) {
      if IsProgress(e) {
        ProgressUpdates(c, s, e);
        RememberedStep(c, s, e, text);
        InProgressUpdate(s.acts, e.i, Apply(c, s, e).acts[e.i], text);
        if e.FinishHandling? { AppendCounts(s.handed, s.acts[e.i].text, text); }
      } else if e.MediatorPush? {
        AppendProgress(s.acts, Wire(e.text), text);
      } else if e.Crash? {
        CrashClearsProgress(s.acts, text);
      }
    }
  }

  ghost predicate RememberedThroughout(c: Config, s: State, es: seq<Event>, text: string) {
    forall k :: 0 <= k <= |es| ==> c.digest(text) in Exec(c, s, es[..k]).seen
  }

  /**
   Over any stretch of a run in which its id stays in the set, a frame is handed off at
   most by the tasks that had passed the check when the stretch began.
   */
  lemma {:induction false} RememberedIsNotHandedAgain(c: Config, s: State, es: seq<Event>, text: string)
    requires Deduped(c, text) && StagesFit(c, s) && RememberedThroughout(c, s, es, text)
    ensures StagesFit(c, Exec(c, s, es))
    ensures var s' := Exec(c, s, es);
            Count(s'.handed, text) + InProgress(s'.acts, text) <= Count(s.handed, text) + InProgress(s.acts, text)
  {
    if es != [] {
      var n := |es| - 1;
      forall k | 0 <= k <= n ensures c.digest(text) in Exec(c, s, es[..n][..k]).seen {
        assert es[..n][..k] == es[..k];
      }
      RememberedIsNotHandedAgain(c, s, es[..n], text);
      ApplyKeepsStages(c, Exec(c, s, es[..n]), es[n]);
      assert c.digest(text) in Exec(c, s, es[..n]).seen;
      RememberedNeverGrows(c, Exec(c, s, es[..n]), es[n], text);
    }
  }

  /** A redelivery that reaches the check while its id is remembered is re-acked and delivered to nobody. */
  lemma RedeliveryIsReacked(c: Config, s: State, i: nat)
    requires i < |s.acts| && (s.acts[i].Hashing? || s.acts[i].TspHashing?)
    requires c.digest(s.acts[i].text) in s.seen
    ensures Apply(c, s, FinishHash(i)) == s.(acts := s.acts[i := Packing(c.digest(s.acts[i].text))])
  {
  }

  /** Task `i` holds `text` and is about to be checked against the set. */
  predicate AtCheck(s: State, i: nat, text: string) {
    i < |s.acts| && (s.acts[i] == Hashing(text) || s.acts[i] == TspHashing(text))
  }

  /** Event `k` of the run checks a copy of `text`. */
  predicate Checks(c: Config, s: State, es: seq<Event>, k: nat, text: string) {
    k < |es| && es[k].FinishHash? && AtCheck(Exec(c, s, es[..k]), es[k].i, text)
  }

  /**
   Over any stretch in which its id stays in the set, every copy of a frame that is checked becomes an
   ack for that id and nothing else changes, and no task gets past the check that was not past it.
   */
  lemma {:induction false} EveryRedeliveryIsReacked(c: Config, s: State, es: seq<Event>, text: string)
    requires Deduped(c, text) && StagesFit(c, s) && RememberedThroughout(c, s, es, text)
    ensures forall k: nat :: Checks(c, s, es, k, text) ==>
              var before := Exec(c, s, es[..k]);
              Exec(c, s, es[..k + 1]) == before.(acts := before.acts[es[k].i := Packing(c.digest(text))])
    ensures |s.acts| <= |Exec(c, s, es).acts|
    ensures forall i :: 0 <= i < |Exec(c, s, es).acts| && PastCheck(Exec(c, s, es).acts[i], text) ==>
              i < |s.acts| && PastCheck(s.acts[i], text)
  {
    forall k: nat | Checks(c, s, es, k, text)
      ensures var before := Exec(c, s, es[..k]);
              Exec(c, s, es[..k + 1]) == before.(acts := before.acts[es[k].i := Packing(c.digest(text))])
    {
      assert es[..k + 1][..k] == es[..k];
      RedeliveryIsReacked(c, Exec(c, s, es[..k]), es[k].i);
    }
    if es != [] {
      var n := |es| - 1;
      forall k | 0 <= k <= n ensures c.digest(text) in Exec(c, s, es[..n][..k]).seen {
        assert es[..n][..k] == es[..k];
      }
      EveryRedeliveryIsReacked(c, s, es[..n], text);
      RememberedIsNotHandedAgain(c, s, es[..n], text);
      assert c.digest(text) in Exec(c, s, es[..n]).seen;
      NoneGetsPast(c, Exec(c, s, es[..n]), es[n], text);
    }
  }

  /** One event while the id is remembered takes no task for the frame past the check. */
  lemma NoneGetsPast(c: Config, s: State, e: Event, text: string)
    requires c.digest(text) in s.seen && Deduped(c, text) && StagesFit(c, s)
    ensures |s.acts| <= |Apply(c, s, e).acts|
    ensures forall i :: 0 <= i < |Apply(c, s, e).acts| && PastCheck(Apply(c, s, e).acts[i], text) ==>
              i < |s.acts| && PastCheck(s.acts[i], text)
  {
    if Enabled(c, s, e) && IsProgress(e) {
      ProgressUpdates(c, s, e);
      RememberedStep(c, s, e, text);
      hide Apply, Enabled;
    } else {
      hide Step, IsQueued, IsStatus;
    }
  }

  lemma {:induction false} FindInProgress(acts: seq<Act>, text: string) returns (i: nat)
    requires InProgress(acts, text) > 0
    ensures i < |acts| && PastCheck(acts[i], text)
  {
    i := |acts| - 1;
    if !PastCheck(acts[i], text) { i := FindInProgress(acts[..i], text); }
  }

  /**
   Exactly when a remembered frame can still be handed off: some continuation that keeps its id
   remembered does so if and only if a task for it is past the check now.
   */
  lemma HandedAgainExactly(c: Config, s: State, text: string)
    requires Deduped(c, text) && StagesFit(c, s) && c.digest(text) in s.seen
    ensures (exists es :: RememberedThroughout(c, s, es, text) && Count(Exec(c, s, es).handed, text) > Count(s.handed, text))
            <==> InProgress(s.acts, text) > 0
  {
    if InProgress(s.acts, text) > 0 {
      var i := FindInProgress(s.acts, text);
      var e := FinishHandling(i, true);
      var s' := Apply(c, s, e);
      assert s'.handed == s.handed + [text] && s'.seen == s.seen;
      AppendCounts(s.handed, text, text);
      assert [e][..0] == [] && [e][..1] == [e];
      assert Exec(c, s, [e]) == s';
      assert RememberedThroughout(c, s, [e], text);
    } else if es :| RememberedThroughout(c, s, es, text) && Count(Exec(c, s, es).handed, text) > Count(s.handed, text) {
      RememberedIsNotHandedAgain(c, s, es, text);
    }
  }

  /**
   The dedup gap: two copies of one frame whose checks both run before the first is
   marked are both handed off.
   */
  lemma ConcurrentCopiesAreBothHandedOff(c: Config, text: string)
    requires IsQueued(c, c.frame(text))
    ensures Count(Exec(c, INITIAL, [MediatorPush(text), MediatorPush(text), Arrive(0), Arrive(1),
      FinishUnpack(0, Unpacked), FinishUnpack(1, Unpacked), FinishHash(0), FinishHash(1),
      FinishHandling(0, true), FinishHandling(1, true)]).handed, text) == 2
  {
    var w := Wire(text);
    var es := [MediatorPush(text), MediatorPush(text), Arrive(0), Arrive(1),
      FinishUnpack(0, Unpacked), FinishUnpack(1, Unpacked), FinishHash(0), FinishHash(1),
      FinishHandling(0, true), FinishHandling(1, true)];
    var s2 := INITIAL.(acts := [w, w]);
    var s6 := s2.(acts := [Hashing(text), Hashing(text)]);
    ExecSplit(c, INITIAL, es, 2);
    assert es[..2] == [MediatorPush(text), MediatorPush(text)];
    Exec2(c, INITIAL, MediatorPush(text), MediatorPush(text));
    assert [w] + [w] == [w, w] && [] + [w] == [w];
    assert Exec(c, INITIAL, es[..2]) == s2;
    ExecSplit(c, s2, es[2..], 4);
    assert es[2..][..4] == [Arrive(0), Arrive(1), FinishUnpack(0, Unpacked), FinishUnpack(1, Unpacked)];
    assert es[2..][4..] == [FinishHash(0), FinishHash(1), FinishHandling(0, true), FinishHandling(1, true)];
    CopiesReachTheCheck(c, text, s2);
    CopiesPassTheCheck(c, text, s6);
    AppendCounts([text], text, text);
    AppendCounts([], text, text);
  }

  lemma CopiesReachTheCheck(c: Config, text: string, s: State)
    requires IsQueued(c, c.frame(text)) && s.acts == [Wire(text), Wire(text)]
    ensures Exec(c, s, [Arrive(0), Arrive(1), FinishUnpack(0, Unpacked), FinishUnpack(1, Unpacked)])
         == s.(acts := [Hashing(text), Hashing(text)])
  {
    Exec4(c, s, Arrive(0), Arrive(1), FinishUnpack(0, Unpacked), FinishUnpack(1, Unpacked));
    var a := Apply(c, s, Arrive(0));
    assert a == s.(acts := [Unpacking(text), Wire(text)]);
    var b := Apply(c, a, Arrive(1));
    assert b == s.(acts := [Unpacking(text), Unpacking(text)]);
    var d := Apply(c, b, FinishUnpack(0, Unpacked));
    assert d == s.(acts := [Hashing(text), Unpacking(text)]);
  }

  lemma CopiesPassTheCheck(c: Config, text: string, s: State)
    requires IsQueued(c, c.frame(text)) && s.acts == [Hashing(text), Hashing(text)] && s.seen == []
    ensures Exec(c, s, [FinishHash(0), FinishHash(1), FinishHandling(0, true), FinishHandling(1, true)]).handed
         == s.handed + [text] + [text]
  {
    Exec4(c, s, FinishHash(0), FinishHash(1), FinishHandling(0, true), FinishHandling(1, true));
    var a := Apply(c, s, FinishHash(0));
    assert a.acts == [Delivering(text, true), Hashing(text)] && a.seen == [] && a.handed == s.handed;
    var b := Apply(c, a, FinishHash(1));
    assert b.acts == [Delivering(text, true), Delivering(text, true)] && b.handed == s.handed;
    var d := Apply(c, b, FinishHandling(0, true));
    assert d.acts[1] == Delivering(text, true) && d.handed == s.handed + [text];
  }

  lemma Exec2(c: Config, s: State, a: Event, b: Event)
    ensures Exec(c, s, [a, b]) == Apply(c, Apply(c, s, a), b)
  {
    assert [a, b][..1] == [a] && [a][..0] == [];
    assert Exec(c, s, [a]) == Apply(c, s, a);
  }

  lemma Exec4(c: Config, s: State, a: Event, b: Event, d: Event, e: Event)
    ensures Exec(c, s, [a, b, d, e]) == Apply(c, Apply(c, Apply(c, Apply(c, s, a), b), d), e)
  {
    hide Apply;
    ExecSplit(c, s, [a, b, d, e], 2);
    assert [a, b, d, e][..2] == [a, b] && [a, b, d, e][2..] == [d, e];
    Exec2(c, s, a, b);
    Exec2(c, Exec(c, s, [a, b]), d, e);
  }

  lemma {:induction false} ExecSplit(c: Config, s: State, es: seq<Event>, k: nat)
    requires k <= |es|
    ensures Exec(c, s, es) == Exec(c, Exec(c, s, es[..k]), es[k..])
  {
    hide Apply;
    if k == |es| {
      assert es[..k] == es;
    } else {
      var n := |es| - 1;
      ExecSplit(c, s, es[..n], k);
      assert es[..n][..k] == es[..k];
      assert es[k..][..n - k] == es[..n][k..];
    }
  }

  // ----- ack traffic quiesces

  /** Frames whose processing may end in an ack. */
  predicate MayAck(c: Config, text: string) {
    var f := c.frame(text);
    f.Tsp? || (f.Didcomm? && (f.sender.did != c.mediator || IsStoredMediatorReply(f.message)))
  }

  function Weight(c: Config, a: Act): nat {
    match a
    case Wire(t) => if MayAck(c, t) then 12 else 4
    case Unpacking(t) => if MayAck(c, t) then 11 else 3
    case TspHashing(_) => 11
    case Hashing(_) => 10
    case Refusing(_) => 10
    case TspHandling(_) => 9
    case Delivering(_, queued) => if queued then 9 else 2
    case Packing(_) => 6
    case Acking(_) => 5
    case Done => 0
  }

  function Measure(c: Config, acts: seq<Act>): nat {
    if acts == [] then 0 else Measure(c, acts[..|acts| - 1]) + Weight(c, acts[|acts| - 1])
  }

  lemma {:induction false} MeasureUpdate(c: Config, acts: seq<Act>, i: nat, a: Act)
    requires i < |acts|
    ensures Measure(c, acts[i := a]) == Measure(c, acts) - Weight(c, acts[i]) + Weight(c, a)
  {
    var n := |acts| - 1;
    if i < n {
      assert acts[i := a][..n] == acts[..n][i := a];
      MeasureUpdate(c, acts[..n], i, a);
    } else {
      assert acts[i := a][..n] == acts[..n];
    }
  }

  lemma AppendMeasures(c: Config, acts: seq<Act>, a: Act)
    ensures Measure(c, acts + [a]) == Measure(c, acts) + Weight(c, a)
  {
    assert (acts + [a])[..|acts|] == acts;
  }

  lemma {:induction false} CrashShrinksMeasure(c: Config, acts: seq<Act>)
    ensures Measure(c, CrashActs(acts)) <= Measure(c, acts)
  {
    if acts != [] {
      CrashShrinksMeasure(c, acts[..|acts| - 1]);
      AppendMeasures(c, CrashActs(acts[..|acts| - 1]), CrashAct(acts[|acts| - 1]));
    }
  }

  lemma ProgressDecreases(c: Config, s: State, e: Event)
    requires StagesFit(c, s) && IsProgress(e) && Enabled(c, s, e)
    ensures Measure(c, Apply(c, s, e).acts) < Measure(c, s.acts)
  {
    ProgressUpdates(c, s, e);
    MeasureUpdate(c, s.acts, e.i, Apply(c, s, e).acts[e.i]);
  }

  /** One event: processing decreases the measure, a push adds at most twelve, nothing else raises it. */
  lemma MeasureStep(c: Config, s: State, e: Event)
    requires StagesFit(c, s)
    ensures Measure(c, Apply(c, s, e).acts) + (if IsProgress(e) && Enabled(c, s, e) then 1 else 0)
            <= Measure(c, s.acts) + if e.MediatorPush? then 12 else 0
  {
    if Enabled(c, s, e) {
      if IsProgress(e) {
        ProgressDecreases(c, s, e);
      } else if e.MediatorPush? {
        AppendMeasures(c, s.acts, Wire(e.text));
      } else if e.Crash? {
        CrashShrinksMeasure(c, s.acts);
      }
    }
  }

  function Pushes(es: seq<Event>): nat {
    if es == [] then 0 else Pushes(es[..|es| - 1]) + if es[|es| - 1].MediatorPush? then 1 else 0
  }

  /** How many processing steps a run takes. */
  function Progress(c: Config, s: State, es: seq<Event>): nat {
    if es == [] then 0
    else
      var n := |es| - 1;
      Progress(c, s, es[..n]) + if IsProgress(es[n]) && Enabled(c, Exec(c, s, es[..n]), es[n]) then 1 else 0
  }

  /** However events interleave, each pushed frame pays for at most twelve processing steps. */
  lemma {:induction false} TrafficIsBounded(c: Config, s: State, es: seq<Event>)
    requires StagesFit(c, s)
    ensures StagesFit(c, Exec(c, s, es))
    ensures Progress(c, s, es) + Measure(c, Exec(c, s, es).acts) <= Measure(c, s.acts) + 12 * Pushes(es)
  {
    if es != [] {
      var n := |es| - 1;
      TrafficIsBounded(c, s, es[..n]);
      ApplyKeepsStages(c, Exec(c, s, es[..n]), es[n]);
      MeasureStep(c, Exec(c, s, es[..n]), es[n]);
    }
  }

  /** Whenever a frame or ack is in flight some processing step is enabled, so quiescence is reached. */
  lemma NotQuiescentCanProgress(c: Config, s: State, i: nat, status: string) returns (e: Event)
    requires i < |s.acts| && !s.acts[i].Done? && StagesFit(c, s) && IsStatus(c, status)
    ensures IsProgress(e) && Enabled(c, s, e)
    ensures Apply(c, s, e).acts[i] != s.acts[i]
  {
    e := match s.acts[i]
      case Wire(_) => Arrive(i)
      case Unpacking(_) => FinishUnpack(i, Transient)
      case Hashing(_) => FinishHash(i)
      case Refusing(_) => FinishHash(i)
      case TspHashing(_) => FinishHash(i)
      case Delivering(_, _) => FinishHandling(i, true)
      case TspHandling(_) => FinishHandling(i, true)
      case Packing(_) => FinishPack(i, true)
      case Acking(_) => AckArrives(i, status);
  }

  ghost predicate Quiescent(s: State) {
    forall i :: 0 <= i < |s.acts| ==> s.acts[i].Done?
  }

  /** From any reachable state processing alone leads to quiet, in no more steps than the measure. */
  lemma Quiesces(c: Config, s: State, status: string) returns (es: seq<Event>)
    requires StagesFit(c, s) && IsStatus(c, status)
    ensures forall e :: e in es ==> IsProgress(e)
    ensures Quiescent(Exec(c, s, es)) && |es| <= Measure(c, s.acts)
    decreases Measure(c, s.acts)
  {
    hide Apply, Measure, Enabled;
    if i :| 0 <= i < |s.acts| && !s.acts[i].Done? {
      var e := NotQuiescentCanProgress(c, s, i, status);
      ApplyKeepsStages(c, s, e);
      ProgressDecreases(c, s, e);
      var rest := Quiesces(c, Apply(c, s, e), status);
      es := [e] + rest;
      ExecSplit(c, s, es, 1);
      assert es[..1] == [e] && es[1..] == rest;
      assert Exec(c, s, [e]) == Apply(c, s, e) by { assert [e][..0] == []; }
    } else {
      es := [];
    }
  }

  /** A run that can process nothing more is quiet. */
  lemma StuckMeansQuiescent(c: Config, s: State, status: string)
    requires StagesFit(c, s) && IsStatus(c, status)
    requires forall e :: IsProgress(e) ==> !Enabled(c, s, e)
    ensures Quiescent(s)
  {
    hide Apply, Enabled;
    if i :| 0 <= i < |s.acts| && !s.acts[i].Done? {
      var e := NotQuiescentCanProgress(c, s, i, status);
    }
  }
}

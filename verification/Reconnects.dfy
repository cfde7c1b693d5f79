/**
 Reconnecting without a crash (src/mediator-transport.js): a new session opens while tasks of older ones
 still run. Each session has its own frames, acks, waiters and dedup set; the mediator's queue and the
 history of hand-offs and refusals are shared.
 */
module Reconnects {
  import opened Mailbox
  import opened MediatorProtocol
  import opened FrameFates

  datatype Client = Client(acts: seq<Act>, seen: seq<string>, entered: seq<string>, box: Box)

  const FRESH := Client([], [], [], EMPTY)

  datatype World = World(queue: set<string>, ever: set<string>, handed: seq<string>, refused: set<string>, clients: seq<Client>)

  const START := World({}, {}, [], {}, [])

  /** The system as session `k` sees it. */
  function View(w: World, k: nat): State
    requires k < |w.clients|
  {
    var v := w.clients[k];
    State(w.queue, w.ever, v.acts, v.seen, v.entered, v.box, w.handed, w.refused)
  }

  datatype WorldEvent = Deposit(text: string) | Connect | On(k: nat, e: Event)

  /** A message for the client, a new session, or an event of one; `On(k, Crash)` for each `k` is the death of the host. */
  function Turn(c: Config, w: World, e: WorldEvent): World {
    match e
    case Deposit(t) => w.(queue := w.queue + {t}, ever := w.ever + {t})
    case Connect => w.(clients := w.clients + [FRESH])
    case On(k, inner) =>
      if k >= |w.clients| then w
      else
        var s := Apply(c, View(w, k), inner);
        World(s.queue, s.ever, s.handed, s.refused, w.clients[k := Client(s.acts, s.seen, s.entered, s.box)])
  }

  function Turns(c: Config, w: World, es: seq<WorldEvent>): World {
    if es == [] then w else Turn(c, Turns(c, w, es[..|es| - 1]), es[|es| - 1])
  }

  /** The moment of an event, in the session it happens to. */
  function MomentOf(w: World, e: WorldEvent): seq<Moment> {
    if e.On? && e.k < |w.clients| then [Moment(View(w, e.k), e.e)] else []
  }

  /** The moments of a run, those of all sessions in one line. */
  function Moments(c: Config, es: seq<WorldEvent>): seq<Moment> {
    if es == [] then []
    else Moments(c, es[..|es| - 1]) + MomentOf(Turns(c, START, es[..|es| - 1]), es[|es| - 1])
  }

  /** Session k keeps its own invariants, and all it acked or remembers was earned. */
  ghost predicate ClientInv(c: Config, tr: seq<Moment>, w: World, k: nat)
    requires k < |w.clients|
  {
    && NoLoss(c, View(w, k)) && SessionInv(View(w, k)) && StagesFit(c, View(w, k))
    && ClientIsCaused(c, tr, w.clients[k].acts, w.clients[k].seen)
  }

  ghost predicate WorldInv(c: Config, tr: seq<Moment>, w: World) {
    && (forall t :: t in w.ever ==> t in w.queue || t in w.handed || t in w.refused)
    && HistoryIsCaused(c, tr, w.handed, w.refused)
    && (forall k :: 0 <= k < |w.clients| ==> ClientInv(c, tr, w, k))
  }

  /** The history only grows. */
  lemma HistoryGrows(c: Config, s: State, e: Event)
    ensures s.handed <= Apply(c, s, e).handed && s.refused <= Apply(c, s, e).refused
  {
    hide Step, IsQueued, IsStatus, MarkHandled;
    if Enabled(c, s, e) {
      match e
      case FinishHash(i) => MarkAdds(c, s.(refused := s.refused + {s.acts[i].text}), s.acts[i].text);
      case FinishHandling(i, ok) => MarkAdds(c, s.(handed := s.handed + [s.acts[i].text]), s.acts[i].text);
      case _ =>
    }
  }

  /** What one session does leaves every other session's acks and remembered ids vouched for. */
  lemma OthersStayVouched(c: Config, w: World, k: nat, e: Event, j: nat)
    requires k < |w.clients| && j < |w.clients| && j != k
    requires NoLoss(c, View(w, j)) && NoLoss(c, Apply(c, View(w, k), e))
    ensures NoLoss(c, View(Turn(c, w, On(k, e)), j))
  {
    var s := Apply(c, View(w, k), e);
    var v' := View(Turn(c, w, On(k, e)), j);
    HistoryGrows(c, View(w, k), e);
    VouchedGrows(c, View(w, j), v');
    hide Apply, Vouched;
    forall t | t in v'.ever ensures t in v'.queue || Accounted(v', t) {
      assert t in s.queue || Accounted(s, t);
    }
  }

  lemma OtherKeepsInv(c: Config, tr: seq<Moment>, w: World, k: nat, e: Event, j: nat)
    requires k < |w.clients| && j < |w.clients| && j != k
    requires ClientInv(c, tr, w, j) && NoLoss(c, Apply(c, View(w, k), e))
    ensures ClientInv(c, tr + [Moment(View(w, k), e)], Turn(c, w, On(k, e)), j)
  {
    OthersStayVouched(c, w, k, e, j);
    ClientStays(c, tr, Moment(View(w, k), e), w.clients[j].acts, w.clients[j].seen);
    hide Apply, NoLoss, Vouched, ClientIsCaused, Inv;
    assert Turn(c, w, On(k, e)).clients[j] == w.clients[j];
  }

  /** An event of session k. */
  lemma OwnKeepsInv(c: Config, tr: seq<Moment>, w: World, k: nat, e: Event)
    requires CollisionFree(c) && WorldInv(c, tr, w) && k < |w.clients|
    ensures var w' := Turn(c, w, On(k, e)); var tr' := tr + [Moment(View(w, k), e)];
      && View(w', k) == Apply(c, View(w, k), e)
      && ClientInv(c, tr', w', k) && HistoryIsCaused(c, tr', w'.handed, w'.refused)
  {
    assert ClientInv(c, tr, w, k);
    ApplyKeepsNoLoss(c, View(w, k), e);
    ApplyKeepsSession(c, View(w, k), e);
    ApplyKeepsStages(c, View(w, k), e);
    StepIsCaused(c, tr, View(w, k), e);
    hide Apply, NoLoss, ClientIsCaused, HistoryIsCaused, SessionInv, StagesFit;
  }

  lemma OnKeepsInv(c: Config, tr: seq<Moment>, w: World, k: nat, e: Event)
    requires CollisionFree(c) && WorldInv(c, tr, w) && k < |w.clients|
    ensures WorldInv(c, tr + [Moment(View(w, k), e)], Turn(c, w, On(k, e)))
  {
    OwnKeepsInv(c, tr, w, k, e);
    var w', s := Turn(c, w, On(k, e)), Apply(c, View(w, k), e);
    var tr' := tr + [Moment(View(w, k), e)];
    hide Apply, ClientIsCaused, HistoryIsCaused, SessionInv, StagesFit, Vouched;
    forall j | 0 <= j < |w'.clients| ensures ClientInv(c, tr', w', j) {
      if j != k { OtherKeepsInv(c, tr, w, k, e, j); }
    }
    forall t | t in w'.ever ensures t in w'.queue || t in w'.handed || t in w'.refused {
      assert t in s.queue || Accounted(s, t);
    }
  }

  /** A deposit or a new session touches no session that is there. */
  lemma RestKeepsInv(c: Config, tr: seq<Moment>, w: World, e: WorldEvent)
    requires WorldInv(c, tr, w) && !e.On?
    ensures WorldInv(c, tr, Turn(c, w, e))
  {
    var w' := Turn(c, w, e);
    hide HistoryIsCaused, Apply;
    forall k | 0 <= k < |w'.clients| ensures ClientInv(c, tr, w', k) {
      if k < |w.clients| {
        assert ClientInv(c, tr, w, k);
        VouchedGrows(c, View(w, k), View(w', k));
        assert w'.clients[k] == w.clients[k];
        hide ClientIsCaused, Inv, Vouched;
      }
    }
  }

  lemma {:induction false} RunKeepsInv(c: Config, es: seq<WorldEvent>)
    requires CollisionFree(c)
    ensures WorldInv(c, Moments(c, es), Turns(c, START, es))
  {
    if es != [] {
      var n := |es| - 1;
      var w, tr, e := Turns(c, START, es[..n]), Moments(c, es[..n]), es[n];
      hide WorldInv, Turn;
      RunKeepsInv(c, es[..n]);
      if e.On? && e.k < |w.clients| {
        OnKeepsInv(c, tr, w, e.k, e.e);
      } else {
        if !e.On? { RestKeepsInv(c, tr, w, e); }
        assert Turn(c, w, e) == w || !e.On? by { IdleTurn(c, w, e); }
        assert tr + [] == tr;
      }
    }
  }

  lemma IdleTurn(c: Config, w: World, e: WorldEvent)
    ensures e.On? && e.k >= |w.clients| ==> Turn(c, w, e) == w
  {
  }

  lemma EverGrowsByDeposits(c: Config, w: World, e: WorldEvent)
    ensures w.ever <= Turn(c, w, e).ever && (e.Deposit? ==> e.text in Turn(c, w, e).ever)
  {
    if e.On? && e.k < |w.clients| { EverGrows(c, View(w, e.k), e.e); }
    hide Apply;
  }

  lemma {:induction false} DepositedIsEver(c: Config, es: seq<WorldEvent>, text: string)
    requires Deposit(text) in es
    ensures text in Turns(c, START, es).ever
  {
    hide Turn;
    var n := |es| - 1;
    EverGrowsByDeposits(c, Turns(c, START, es[..n]), es[n]);
    if Deposit(text) in es[..n] { DepositedIsEver(c, es[..n], text); } else { assert es == es[..n] + [es[n]]; }
  }

  /**
   No loss over every run with any number of sessions side by side: a deposited message is still queued, or
   some session had an event in which unpack refused it for good or its consumer returned. No session acks or
   remembers anything else, and each one stays sound.
   */
  lemma NothingIsLostAcrossSessions(c: Config, es: seq<WorldEvent>)
    requires CollisionFree(c)
    ensures var w, tr := Turns(c, START, es), Moments(c, es);
      && (forall t :: Deposit(t) in es ==> t in w.queue || IsDealtWith(c, tr, t))
      && (forall k :: 0 <= k < |w.clients| ==>
            NoLoss(c, View(w, k)) && SessionInv(View(w, k)) && OnlyEarned(c, tr, w.clients[k].acts, w.clients[k].seen))
  {
    RunKeepsInv(c, es);
    hide Turns, Moments, NoLoss, SessionInv, StagesFit, OnlyEarned, ClientIsCaused, WasHandedOff, WasRefused;
    var w, tr := Turns(c, START, es), Moments(c, es);
    forall t | Deposit(t) in es ensures t in w.queue || IsDealtWith(c, tr, t) {
      DepositedIsEver(c, es, t);
    }
    forall k | 0 <= k < |w.clients|
      ensures NoLoss(c, View(w, k)) && SessionInv(View(w, k)) && OnlyEarned(c, tr, w.clients[k].acts, w.clients[k].seen)
    {
      assert ClientInv(c, tr, w, k);
      CausedIsEarned(c, tr, w.clients[k].acts, w.clients[k].seen);
    }
  }

  // ----- a new session

  /** Events of one session. */
  function Inside(k: nat, es: seq<Event>): (r: seq<WorldEvent>)
    ensures |r| == |es| && forall i :: 0 <= i < |es| ==> r[i] == On(k, es[i])
  {
    seq(|es|, i requires 0 <= i < |es| => On(k, es[i]))
  }

  lemma {:induction false} RunsInside(c: Config, w: World, k: nat, es: seq<Event>)
    requires k < |w.clients|
    ensures var w' := Turns(c, w, Inside(k, es)); |w'.clients| == |w.clients| && View(w', k) == Exec(c, View(w, k), es)
    ensures forall j :: 0 <= j < |w.clients| && j != k ==> Turns(c, w, Inside(k, es)).clients[j] == w.clients[j]
  {
    hide Apply;
    if es != [] {
      RunsInside(c, w, k, es[..|es| - 1]);
      assert Inside(k, es)[..|es| - 1] == Inside(k, es[..|es| - 1]);
    }
  }

  /**
   Deduplication is per session: whatever older sessions remember, a new one that is pushed a queued message
   delivers it, hands it off and remembers it, and leaves the older ones as they are.
   */
  lemma NewSessionStartsAfresh(c: Config, w: World, text: string, ok: bool)
    requires c.frame(text).Didcomm? && c.frame(text).sender.did != "" && IsAckable(c, text)
    ensures var k := |w.clients|;
      var es := [MediatorPush(text), Arrive(0), FinishUnpack(0, Unpacked), FinishHash(0), FinishHandling(0, ok)];
      var w' := Turns(c, Turn(c, w, Connect), Inside(k, es));
      && |w'.clients| == k + 1 && w'.clients[..k] == w.clients
      && w'.handed == w.handed + [text] && w'.clients[k].seen == [c.digest(text)]
      && w'.clients[k].box == Step(c.mediator, EMPTY, Deliver(c.frame(text).message, c.frame(text).sender))
  {
    var k, start := |w.clients|, Turn(c, w, Connect);
    var es := [MediatorPush(text), Arrive(0), FinishUnpack(0, Unpacked), FinishHash(0), FinishHandling(0, ok)];
    RunsInside(c, start, k, es);
    assert start.clients[k] == FRESH && start.clients[..k] == w.clients;
    var v := View(start, k);
    ExecSplit(c, v, es, 1);
    assert es[..1] == [MediatorPush(text)] && es[1..] == [Arrive(0), FinishUnpack(0, Unpacked), FinishHash(0), FinishHandling(0, ok)];
    ExecOne(c, v, MediatorPush(text));
    var s := Apply(c, v, MediatorPush(text));
    assert s.acts == [Wire(text)] && s.seen == [] && s.box == EMPTY && s.handed == w.handed;
    hide Apply, Exec, Turns, Step, IsAckable;
    var s4 := QueuedFrameIsHandedOff(c, s, 0, text, ok);
  }
}

/**
  Batches of events, and what they do to the connections: a connection without an event keeps
  its state, one with a single event changes as that event says, a side that hangs up is
  closed.  This is stated in numbers, apart from the callbacks that bring it about.
 */
module Batches {
  import opened Lifecycle

  /** An event of a batch: the listening socket has a client, or a handler is ready. */
  datatype Ready = Listening | Of(handler: HandlerId, events: Events)

  /** The handlers in a batch of events. */
  function Handlers(batch: seq<Ready>): (hs: seq<HandlerId>) {
    if batch == [] then []
    else match batch[0]
      case Listening => Handlers(batch[1..])
      case Of(h, _) => [h] + Handlers(batch[1..])
  }

  /** The steps that a batch of events comes to, one for each event. */
  function StepsOf(batch: seq<Ready>): seq<Step> {
    if batch == [] then []
    else StepsOf(batch[..|batch| - 1]) + [match batch[|batch| - 1] case Listening => Step.Accept case Of(_, ev) => Deliver(ev)]
  }

  function Drains(n: nat): seq<Step> {
    if n == 0 then [] else Drains(n - 1) + [Drain]
  }

  /** What epoll may report: descriptors that are registered, each once, and new clients. */
  ghost predicate MayReport(w: World, batch: seq<Ready>) {
    && (forall k :: 0 <= k < |batch| && batch[k].Of? ==> Registered(w, batch[k].handler))
    && (forall k, m :: 0 <= k < m < |batch| && batch[k].Of? && batch[m].Of? ==> batch[k].handler != batch[m].handler)
  }

  lemma {:induction false} HandlersMeans(batch: seq<Ready>, h: HandlerId)
    ensures h in Handlers(batch) <==> exists k :: 0 <= k < |batch| && batch[k].Of? && batch[k].handler == h
    decreases |batch|
  {
    if batch != [] {
      var rest := batch[1..];
      HandlersMeans(rest, h);
      if h in Handlers(rest) {
        var k :| 0 <= k < |rest| && rest[k].Of? && rest[k].handler == h;
        assert batch[k + 1] == rest[k];
      }
      forall k | 0 <= k < |batch| && batch[k].Of? && batch[k].handler == h ensures h in Handlers(batch) {
        if k > 0 { assert rest[k - 1] == batch[k]; }
      }
    }
  }

  lemma {:induction false} HandlersDistinct(batch: seq<Ready>)
    requires forall k, m :: 0 <= k < m < |batch| && batch[k].Of? && batch[m].Of? ==> batch[k].handler != batch[m].handler
    ensures Distinct(Handlers(batch))
    decreases |batch|
  {
    if batch != [] {
      var rest := batch[1..];
      assert forall k :: 0 <= k < |rest| ==> rest[k] == batch[k + 1];
      HandlersDistinct(rest);
      if batch[0].Of? {
        HandlersMeans(rest, batch[0].handler);
        assert batch[0].handler !in Handlers(rest);
      }
    }
  }

  /** Such a batch is one the machine may wait for. */
  lemma MayWait(w: World, batch: seq<Ready>)
    requires MayReport(w, batch) && w.pending == [] && w.free == []
    ensures Enabled(w, Wait(Handlers(batch)))
  {
    HandlersDistinct(batch);
    forall h | h in Handlers(batch) ensures Registered(w, h) { HandlersMeans(batch, h); }
  }

  // ----- one event -----

  /** A side that was closed and is not freed yet. */
  const SHUT: Peer := Peer(true, false, false, false, true, true)

  /** Neither side is open or watched, and both are freed. */
  ghost predicate TornDown(c: Conn) {
    && !c.client.registered && !c.client.open && !c.client.inMemory
    && !c.backend.registered && !c.backend.open && !c.backend.inMemory && !c.timerRegistered
  }

  /** What an event does to its connection; `-2` is a timer that is up, and nothing happens then. */
  ghost predicate Served(c: Conn, c': Conn, role: Role, ev: Events) {
    if c.timer == -2 then c' == c
    else match role
      case Client =>
        c' == c.(timer := -1, trace := c.trace + [Client], client := if ev.hangup then SHUT else c.client)
      case Backend =>
        c' == c.(timer := -1, trace := c.trace + [Backend], backend := if ev.hangup then SHUT else c.backend)
      case Timer =>
        if c.timer == -3 then c'.timer == -2 && TornDown(c')
        else c' == c.(timer := if c.timer == -1 then -3 else c.timer, trace := c.trace + [Timer])
  }

  /** The callback the loop makes for the next event of the batch does just that. */
  lemma NextServed(steps: seq<Step>, ev: Events)
    requires Run(steps).pending != []
    ensures var w := Run(steps);
            var h := w.pending[0];
            && h.conn < |w.conns|
            && Served(w.conns[h.conn], Callback(w.conns[h.conn], h.role, ev), h.role, ev)
  {
    hide Run, Callback;
    RunKeepsInv(steps);
    var w := Run(steps);
    var h := w.pending[0];
    assert GoodPending(w, h) && GoodConn(w.conns[h.conn]);
    var c := w.conns[h.conn];
    assert c in w.conns;
    if c.timer == -2 {
      TimerUpIsFinal(steps, c, h.role, ev);
    } else {
      CallbackEffect(steps, c, h.role, ev);
    }
  }

  /** A connection whose timer is up has no side left, and one that is still watched is not up. */
  lemma UpMeansDown(steps: seq<Step>, c: Conn)
    requires c in Run(steps).conns
    ensures c.timer == -2 ==> TornDown(c)
    ensures c.timer != -2 ==> c.timer in {0, -1, -3} && c.handlers != {}
  {
    hide Run, TimerMatchesTrace;
    RunKeepsInv(steps);
    assert GoodConn(c);
    assert Client in ALL_ROLES;
  }

  // ----- a batch -----

  /** The event is for connection `j`. */
  predicate For(r: Ready, j: nat) {
    r.Of? && r.handler.conn == j
  }

  /** Event `k` is the only one for its connection among the first `i`. */
  ghost predicate OnlyOne(batch: seq<Ready>, i: nat, k: int, j: nat)
    requires i <= |batch|
  {
    0 <= k < i && For(batch[k], j) && forall m :: 0 <= m < i && m != k ==> !For(batch[m], j)
  }

  /** The side an event is for, if it is for one. */
  ghost predicate SideClosed(c: Conn, role: Role) {
    && (role == Client ==> !c.client.registered && !c.client.open)
    && (role == Backend ==> !c.backend.registered && !c.backend.open)
  }

  ghost predicate NoneFor(batch: seq<Ready>, i: nat, j: nat)
    requires i <= |batch|
  {
    forall k :: 0 <= k < i ==> !For(batch[k], j)
  }

  ghost predicate SingleServed(c: Conn, now: Conn, batch: seq<Ready>, i: nat, j: nat)
    requires i <= |batch|
  {
    forall k :: OnlyOne(batch, i, k, j) ==> Served(c, now, batch[k].handler.role, batch[k].events)
  }

  ghost predicate HangupsClosed(now: Conn, batch: seq<Ready>, i: nat, j: nat)
    requires i <= |batch|
  {
    forall k :: 0 <= k < i && For(batch[k], j) && batch[k].events.hangup ==> SideClosed(now, batch[k].handler.role)
  }

  /** What the first `i` events have done to connection `j`. */
  ghost predicate Progress(c: Conn, now: Conn, batch: seq<Ready>, i: nat, j: nat)
    requires i <= |batch|
  {
    && (NoneFor(batch, i, j) ==> now == c)
    && SingleServed(c, now, batch, i, j)
    && HangupsClosed(now, batch, i, j)
  }

  ghost predicate AllProgress(was: seq<Conn>, now: seq<Conn>, batch: seq<Ready>, i: nat)
    requires i <= |batch|
  {
    && |now| == |was| + |NewClients(batch, i)|
    && (forall j :: 0 <= j < |was| ==> Progress(was[j], now[j], batch, i, j))
    && (forall j :: |was| <= j < |now| ==> now[j] == NEW)
  }

  /** The events among the first `i` that are new clients. */
  function NewClients(batch: seq<Ready>, i: nat): set<nat>
    requires i <= |batch|
  {
    set k: nat | k < i && batch[k].Listening?
  }

  /** An accepted connection: both sides open and watched, three handlers, timer status 0. */
  const NEW: Conn :=
    Conn(0, 3, Peer(false, false, true, true, true, true), Peer(false, false, true, true, true, true),
         true, true, {Client, Backend, Timer}, true, [], [])

  lemma NewConnIsNew()
    ensures MakeConn() == NEW
  {
    assert MakeConn().handlers == {Client, Backend, Timer};
  }

  lemma ServedClosesOnly(c: Conn, c': Conn, role: Role, ev: Events)
    requires Served(c, c', role, ev)
    ensures !c.client.registered && !c.client.open ==> !c'.client.registered && !c'.client.open
    ensures !c.backend.registered && !c.backend.open ==> !c'.backend.registered && !c'.backend.open
  {
  }

  lemma ServedHangup(c: Conn, c': Conn, role: Role, ev: Events)
    requires Served(c, c', role, ev) && ev.hangup && (c.timer == -2 ==> TornDown(c))
    ensures SideClosed(c', role)
  {
  }

  /** One more event for another connection. */
  lemma ProgressOther(c: Conn, now: Conn, batch: seq<Ready>, i: nat, j: nat)
    requires i < |batch| && Progress(c, now, batch, i, j) && !For(batch[i], j)
    ensures Progress(c, now, batch, i + 1, j)
  {
    hide Served, SideClosed;
    forall k | OnlyOne(batch, i + 1, k, j) ensures OnlyOne(batch, i, k, j) {}
  }

  /** One more event for connection `j`. */
  lemma ProgressOne(c: Conn, now: Conn, next: Conn, batch: seq<Ready>, i: nat, j: nat)
    requires i < |batch| && Progress(c, now, batch, i, j) && For(batch[i], j)
    requires Served(now, next, batch[i].handler.role, batch[i].events)
    requires now.timer == -2 ==> TornDown(now)
    ensures Progress(c, next, batch, i + 1, j)
  {
    hide Served, TornDown, SideClosed, SingleServed, HangupsClosed;
    ProgressSingle(c, now, next, batch, i, j);
    ProgressHangups(now, next, batch, i, j);
  }

  lemma ProgressSingle(c: Conn, now: Conn, next: Conn, batch: seq<Ready>, i: nat, j: nat)
    requires i < |batch| && For(batch[i], j) && (NoneFor(batch, i, j) ==> now == c)
    requires Served(now, next, batch[i].handler.role, batch[i].events)
    ensures SingleServed(c, next, batch, i + 1, j)
  {
    hide Served;
    forall k | OnlyOne(batch, i + 1, k, j)
      ensures Served(c, next, batch[k].handler.role, batch[k].events)
    {
      assert k == i && NoneFor(batch, i, j);
    }
  }

  lemma ProgressHangups(now: Conn, next: Conn, batch: seq<Ready>, i: nat, j: nat)
    requires i < |batch| && HangupsClosed(now, batch, i, j)
    requires batch[i].Of? && Served(now, next, batch[i].handler.role, batch[i].events)
    requires now.timer == -2 ==> TornDown(now)
    ensures HangupsClosed(next, batch, i + 1, j)
  {
    hide Served, TornDown;
    var role, ev := batch[i].handler.role, batch[i].events;
    ServedClosesOnly(now, next, role, ev);
    if ev.hangup { ServedHangup(now, next, role, ev); }
  }

  lemma NoProgress(c: Conn, batch: seq<Ready>, j: nat)
    ensures Progress(c, c, batch, 0, j)
  {
  }

  lemma MoreClients(batch: seq<Ready>, i: nat)
    requires i < |batch|
    ensures |NewClients(batch, i + 1)| == |NewClients(batch, i)| + if batch[i].Listening? then 1 else 0
  {
    if batch[i].Listening? {
      assert NewClients(batch, i + 1) == NewClients(batch, i) + {i};
    } else {
      assert NewClients(batch, i + 1) == NewClients(batch, i);
    }
  }

  lemma ProgressStart(was: seq<Conn>, batch: seq<Ready>)
    ensures AllProgress(was, was, batch, 0)
  {
    hide Progress;
    assert NewClients(batch, 0) == {};
    forall j | 0 <= j < |was| ensures Progress(was[j], was[j], batch, 0, j) { NoProgress(was[j], batch, j); }
  }

  lemma ProgressAccept(was: seq<Conn>, now: seq<Conn>, batch: seq<Ready>, i: nat)
    requires i < |batch| && batch[i].Listening? && AllProgress(was, now, batch, i)
    ensures AllProgress(was, now + [NEW], batch, i + 1)
  {
    hide Progress;
    MoreClients(batch, i);
    forall j | 0 <= j < |was| ensures Progress(was[j], (now + [NEW])[j], batch, i + 1, j) {
      ProgressOther(was[j], now[j], batch, i, j);
    }
  }

  lemma ProgressServe(was: seq<Conn>, now: seq<Conn>, next: seq<Conn>, batch: seq<Ready>, i: nat)
    requires i < |batch| && batch[i].Of? && AllProgress(was, now, batch, i)
    requires forall c <- now :: c.timer == -2 ==> TornDown(c)
    requires |next| == |now| && batch[i].handler.conn < |was|
    requires forall j :: 0 <= j < |now| && j != batch[i].handler.conn ==> next[j] == now[j]
    requires Served(now[batch[i].handler.conn], next[batch[i].handler.conn], batch[i].handler.role, batch[i].events)
    ensures AllProgress(was, next, batch, i + 1)
  {
    hide Progress, Served, TornDown;
    MoreClients(batch, i);
    forall j | 0 <= j < |was| ensures Progress(was[j], next[j], batch, i + 1, j) {
      assert now[j] in now;
      if j == batch[i].handler.conn {
        ProgressOne(was[j], now[j], next[j], batch, i, j);
      } else {
        ProgressOther(was[j], now[j], batch, i, j);
      }
    }
  }

  // ----- a whole turn -----

  /**
    A single event, from before the turn to after it: a client or backend event sets the timer
    status to -1 and closes its own side if it hung up; a timer event sets -1 to -3, leaves 0,
    and takes the connection down at -3.
   */
  ghost predicate OneEvent(c: Conn, c': Conn, role: Role, hangup: bool) {
    match role
    case Client =>
      c' == c.(timer := -1, trace := c.trace + [Client],
               client := if hangup then Peer(true, false, false, false, true, true) else c.client)
    case Backend =>
      c' == c.(timer := -1, trace := c.trace + [Backend],
               backend := if hangup then Peer(true, false, false, false, true, true) else c.backend)
    case Timer =>
      && (c.timer == 0 ==> c' == c.(trace := c.trace + [Timer]))
      && (c.timer == -1 ==> c' == c.(timer := -3, trace := c.trace + [Timer]))
      && (c.timer == -3 ==> c'.timer == -2 && TornDown(c'))
      && (c.timer == 0 || c.timer == -1 || c.timer == -3)
  }

  /**
    What a turn with this batch does to the connections: as many new ones as there are new
    clients, behind the old ones; of the old ones those without an event stay as they are, those
    with one event change as it says, and a side that hung up is closed and not watched.
   */
  ghost predicate TurnEffect(was: seq<Conn>, after: seq<Conn>, batch: seq<Ready>) {
    && |after| == |was| + |set k: nat | k < |batch| && batch[k].Listening?|
    && (forall j :: |was| <= j < |after| ==> after[j] == NEW)
    && (forall k :: 0 <= k < |batch| && batch[k].Of? ==>
          && batch[k].handler.conn < |was|
          && (batch[k].events.hangup ==> SideClosed(after[batch[k].handler.conn], batch[k].handler.role)))
    && (forall j :: 0 <= j < |was| && (forall k :: 0 <= k < |batch| ==> !For(batch[k], j)) ==> after[j] == was[j])
    && (forall k, j :: 0 <= j < |was| && OnlyOne(batch, |batch|, k, j) ==>
          OneEvent(was[j], after[j], batch[k].handler.role, batch[k].events.hangup))
  }

  // ----- the drain -----

  /** A drain touches only connections that are up and still have handlers, and there only these. */
  ghost predicate Drained(c: Conn, c': Conn) {
    && c'.timer == c.timer && c'.client == c.client && c'.backend == c.backend && c'.trace == c.trace
    && c'.timerRegistered == c.timerRegistered && c'.handlers <= c.handlers
    && (c.timer != -2 || c.handlers == {} ==> c' == c)
  }

  ghost predicate AllDrained(now: seq<Conn>, after: seq<Conn>) {
    |after| == |now| && forall j :: 0 <= j < |now| ==> Drained(now[j], after[j])
  }

  lemma DrainedMore(now: seq<Conn>, mid: seq<Conn>, after: seq<Conn>)
    requires AllDrained(now, mid) && AllDrained(mid, after)
    ensures AllDrained(now, after)
  {
    forall j | 0 <= j < |now| ensures Drained(now[j], after[j]) {
      assert Drained(now[j], mid[j]) && Drained(mid[j], after[j]);
    }
  }

  lemma NextDrained(steps: seq<Step>)
    requires Run(steps).pending == [] && Run(steps).free != []
    ensures var w := Run(steps);
            w.free[0].conn < |w.conns| && AllDrained(w.conns, DrainOne(w).conns)
  {
    hide Run;
    RunKeepsInv(steps);
    var w := Run(steps);
    var h := w.free[0];
    assert h in w.free;
    var c := w.conns[h.conn];
    assert GoodConn(c);
    assert Drained(c, FreeHandler(c, h.role));
  }
}

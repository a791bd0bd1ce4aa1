/**
  The life of proxied connections as a step machine: any number of connections, each with
  three handlers that share one reference-counted proxy object, an inactivity timer, and a
  list of handlers to be freed at the end of an event batch.

  Every access to memory that may have been freed, every second free, close or deregistration
  is recorded in the `sound` flags; the theorem is that no run ever clears one.
 */
module Lifecycle {

  const RELAX_TIMER: int := -1
  const TIMER_IS_UP: int := -2
  const TIMER_RELAXED: int := -3

  datatype Role = Client | Backend | Timer

  /**
    One side of a connection.  `isClosed` and `setFree` are fields of the program; the others
    say what is so: whether epoll watches the descriptor, whether it is open, whether the
    structure behind the side is still allocated, and whether nothing illegal happened to it.
   */
  datatype Peer = Peer(isClosed: bool, setFree: bool, registered: bool, open: bool, inMemory: bool, sound: bool)

  /**
    A connection: its proxy object and its handlers.  `trace` lists the callbacks that did
    something, `pushes` the handlers put on the free list, both oldest first.
   */
  datatype Conn = Conn(
    timer: int, refs: int, client: Peer, backend: Peer, timerRegistered: bool,
    inMemory: bool, handlers: set<Role>, sound: bool, trace: seq<Role>, pushes: seq<Role>)

  /** The readiness flags of an event, and whether the read it leads to yields any bytes. */
  datatype Events = Events(hangup: bool, input: bool, output: bool, gotBytes: bool)

  const ALL_ROLES: set<Role> := {Client, Backend, Timer}

  // ----- the operations on one side -----

  function NewPeer(): Peer {
    Peer(false, false, true, true, true, true)
  }

  /** Any use of the structure behind a side. */
  function Touch(p: Peer): Peer {
    p.(sound := p.sound && p.inMemory)
  }

  function OnClose(p: Peer): Peer {
    p.(registered := false, isClosed := true, open := false,
       sound := p.sound && p.inMemory && p.registered && p.open)
  }

  function ForceClose(p: Peer): Peer {
    if p.isClosed then Touch(p) else OnClose(p)
  }

  function FreeParams(p: Peer): Peer {
    p.(inMemory := false, setFree := true, sound := p.sound && p.inMemory)
  }

  // ----- the callbacks -----

  function Push(c: Conn, role: Role): Conn {
    c.(pushes := c.pushes + [role])
  }

  function PushPeers(c: Conn): Conn {
    Push(Push(c, Backend), Client)
  }

  /** What is done when the backend is found freed while the client is served. */
  function CheckBackendClose(c: Conn): Conn {
    if c.backend.setFree then
      PushPeers(c.(backend := FreeParams(c.backend), client := FreeParams(ForceClose(c.client))))
    else c
  }

  function CheckClientClose(c: Conn): Conn {
    if c.client.setFree then
      PushPeers(c.(client := FreeParams(c.client), backend := FreeParams(ForceClose(c.backend))))
    else c
  }

  /** Data read from one side is passed on to the other. */
  function TouchBoth(c: Conn): Conn {
    c.(client := Touch(c.client), backend := Touch(c.backend))
  }

  function HandleClientEvents(c: Conn, ev: Events): Conn {
    var c1 := c.(client := Touch(c.client));
    if ev.hangup then c1.(client := OnClose(c1.client))
    else if ev.input && c1.backend.setFree then CheckBackendClose(c1)
    else
      var c2 := if ev.input && ev.gotBytes then TouchBoth(c1) else c1;
      if ev.output then CheckBackendClose(TouchBoth(c2)) else c2
  }

  function HandleBackendEvents(c: Conn, ev: Events): Conn {
    var c1 := c.(backend := Touch(c.backend));
    if ev.hangup then c1.(backend := OnClose(c1.backend))
    else if ev.input && c1.client.setFree then CheckClientClose(c1)
    else
      var c2 := if ev.input && ev.gotBytes then TouchBoth(c1) else c1;
      if ev.output then CheckClientClose(TouchBoth(c2)) else c2
  }

  function HandleTimerUp(c: Conn): Conn {
    var c1 := if c.backend.setFree then c else c.(backend := FreeParams(ForceClose(c.backend)));
    var c2 := if c1.client.setFree then c1 else c1.(client := FreeParams(ForceClose(c1.client)));
    PushPeers(c2)
  }

  function FreeTimerHandler(c: Conn): Conn {
    Push(c.(timerRegistered := false, sound := c.sound && c.timerRegistered), Timer)
  }

  /** A timer event: the first one relaxes the timer, a second one in a row takes everything down. */
  function TimerTick(c: Conn): Conn {
    if c.timer == RELAX_TIMER then c.(timer := TIMER_RELAXED)
    else if c.timer == TIMER_RELAXED || c.timer > 0 then
      FreeTimerHandler(HandleTimerUp(c.(timer := TIMER_IS_UP)))
    else c
  }

  /** What a handler's callback does while the timer is not up. */
  function Serve(c: Conn, role: Role, ev: Events): Conn {
    match role
    case Client => HandleClientEvents(c, ev).(timer := RELAX_TIMER)
    case Backend => HandleBackendEvents(c, ev).(timer := RELAX_TIMER)
    case Timer => TimerTick(c)
  }

  /** The callback of a handler: it uses the handler and the proxy object, then its role decides. */
  function Callback(c: Conn, role: Role, ev: Events): Conn {
    var c0 := c.(sound := c.sound && role in c.handlers && c.inMemory);
    if c.timer == TIMER_IS_UP then c0
    else Serve(c0.(trace := c0.trace + [role]), role, ev)
  }

  // ----- creation and release -----

  /** A proxy object for two open sockets; its memory is zero-filled. */
  function MakeProxy(): Conn {
    Conn(0, 0, NewPeer(), NewPeer(), false, true, {}, true, [], [])
  }

  function MakeHandler(c: Conn, role: Role): Conn {
    c.(refs := c.refs + 1, handlers := c.handlers + {role})
  }

  /** A connection with its three handlers, all registered. */
  function MakeConn(): Conn {
    MakeHandler(MakeHandler(MakeHandler(MakeProxy(), Client), Backend), Timer).(timerRegistered := true)
  }

  /** Gives up one reference; the last one frees the proxy object and both of its sides. */
  function FreeProxyObj(c: Conn): Conn {
    var c1 := c.(refs := c.refs - 1, sound := c.sound && c.inMemory);
    if c1.refs != 0 then c1 else c1.(inMemory := false)
  }

  predicate DescriptorGone(c: Conn, role: Role) {
    match role
    case Client => !c.client.registered && !c.client.open
    case Backend => !c.backend.registered && !c.backend.open
    case Timer => !c.timerRegistered
  }

  /** Releases a handler; its descriptor must be out of the way by then. */
  function FreeHandler(c: Conn, role: Role): Conn {
    var c1 := FreeProxyObj(c.(sound := c.sound && role in c.handlers && DescriptorGone(c, role)));
    c1.(handlers := c1.handlers - {role})
  }

  // ----- the event loop -----

  datatype HandlerId = HandlerId(conn: nat, role: Role)

  /** All connections ever accepted, the rest of the current batch, and the free list. */
  datatype World = World(conns: seq<Conn>, pending: seq<HandlerId>, free: seq<HandlerId>)

  /** The free list after pushing handlers of connection `i`, the last one in front. */
  function PushAll(i: nat, roles: seq<Role>, free: seq<HandlerId>): seq<HandlerId>
    decreases |roles|
  {
    if roles == [] then free else PushAll(i, roles[1..], [HandlerId(i, roles[0])] + free)
  }

  predicate Registered(w: World, h: HandlerId) {
    h.conn < |w.conns| &&
    match h.role
    case Client => w.conns[h.conn].client.registered
    case Backend => w.conns[h.conn].backend.registered
    case Timer => w.conns[h.conn].timerRegistered
  }

  ghost predicate Distinct<T>(s: seq<T>) {
    forall i, j :: 0 <= i < j < |s| ==> s[i] != s[j]
  }

  /**
    The steps of the loop: a wait that delivers a batch, the acceptance of a connection, the
    callback of the next event of the batch, and the release of the first handler on the list.
   */
  datatype Step = Wait(batch: seq<HandlerId>) | Accept | Deliver(ev: Events) | Drain

  /** Epoll reports each registered descriptor at most once a batch; the list is drained between batches. */
  ghost predicate Enabled(w: World, s: Step) {
    match s
    case Wait(batch) => w.pending == [] && w.free == [] && Distinct(batch) && forall h <- batch :: Registered(w, h)
    case Accept => true
    case Deliver(_) => w.pending != [] && w.pending[0].conn < |w.conns|
    case Drain => w.pending == [] && w.free != [] && w.free[0].conn < |w.conns|
  }

  function AcceptConn(w: World): World {
    w.(conns := w.conns + [MakeConn()])
  }

  function DeliverEvent(w: World, ev: Events): World
    requires w.pending != [] && w.pending[0].conn < |w.conns|
  {
    var HandlerId(i, role) := w.pending[0];
    var c := w.conns[i];
    var c' := Callback(c, role, ev);
    World(w.conns[i := c'], w.pending[1..],
          if |c.pushes| <= |c'.pushes| then PushAll(i, c'.pushes[|c.pushes|..], w.free) else w.free)
  }

  function DrainOne(w: World): World
    requires w.free != [] && w.free[0].conn < |w.conns|
  {
    var HandlerId(i, role) := w.free[0];
    w.(conns := w.conns[i := FreeHandler(w.conns[i], role)], free := w.free[1..])
  }

  /** One step; a step that is not enabled does not happen. */
  ghost function Next(w: World, s: Step): World {
    if !Enabled(w, s) then w
    else match s
      case Wait(batch) => w.(pending := batch)
      case Accept => AcceptConn(w)
      case Deliver(ev) => DeliverEvent(w, ev)
      case Drain => DrainOne(w)
  }

  ghost function Run(steps: seq<Step>): World {
    if steps == [] then World([], [], []) else Next(Run(steps[..|steps| - 1]), steps[|steps| - 1])
  }

  // ----- the invariant -----

  ghost predicate LivePeer(p: Peer) {
    p.sound && p.inMemory && !p.setFree && p.registered == p.open == !p.isClosed
  }

  ghost predicate DeadPeer(p: Peer) {
    p.sound && !p.inMemory && p.setFree && !p.registered && !p.open
  }

  /** Before the inactivity timer is up. */
  ghost predicate Live(c: Conn) {
    && c.sound && c.timer in {0, RELAX_TIMER, TIMER_RELAXED}
    && LivePeer(c.client) && LivePeer(c.backend) && c.timerRegistered
    && c.inMemory && c.refs == 3 && c.handlers == ALL_ROLES && c.pushes == []
  }

  /** After it: both sides are closed and freed, what remains is to release the handlers. */
  ghost predicate Dying(c: Conn) {
    && c.sound && c.timer == TIMER_IS_UP
    && DeadPeer(c.client) && DeadPeer(c.backend) && !c.timerRegistered
    && c.refs == |c.handlers| && (c.inMemory <==> c.handlers != {})
    && c.pushes == [Backend, Client, Timer]
  }

  /** What the timer status says about the callbacks so far. */
  ghost predicate TimerMatchesTrace(c: Conn) {
    var t, n := c.trace, |c.trace|;
    match c.timer
    case 0 => forall k :: 0 <= k < n ==> t[k] == Timer
    case _ =>
      if c.timer == RELAX_TIMER then n >= 1 && t[n - 1] != Timer
      else if c.timer == TIMER_RELAXED then n >= 2 && t[n - 1] == Timer && t[n - 2] != Timer
      else TimedOut(t)
  }

  /** A client or backend callback and then two timer callbacks. */
  ghost predicate TimedOut(t: seq<Role>) {
    |t| >= 3 && t[|t| - 1] == Timer && t[|t| - 2] == Timer && t[|t| - 3] != Timer
  }

  ghost predicate GoodConn(c: Conn) {
    (Live(c) || Dying(c)) && TimerMatchesTrace(c)
  }

  /** A handler in the batch: it exists, and while its connection lives its descriptor is registered. */
  ghost predicate GoodPending(w: World, h: HandlerId) {
    && h.conn < |w.conns| && h.role in w.conns[h.conn].handlers
    && (Live(w.conns[h.conn]) ==> Registered(w, h))
  }

  /** The free list holds exactly the unreleased handlers of the connections that are going down. */
  ghost predicate GoodFree(w: World) {
    && Distinct(w.free)
    && forall h: HandlerId :: h in w.free <==>
         h.conn < |w.conns| && Dying(w.conns[h.conn]) && h.role in w.conns[h.conn].handlers
  }

  ghost predicate Inv(w: World) {
    && (forall c <- w.conns :: GoodConn(c))
    && Distinct(w.pending) && (forall h <- w.pending :: GoodPending(w, h))
    && GoodFree(w)
  }

  /** A callback on a live connection leaves it live, or takes it down as a whole. */
  lemma CallbackGood(c: Conn, role: Role, ev: Events)
    requires GoodConn(c) && role in c.handlers
    requires Live(c) && role == Client ==> c.client.registered
    requires Live(c) && role == Backend ==> c.backend.registered
    ensures var c' := Callback(c, role, ev);
            && GoodConn(c') && c'.handlers == c.handlers
            && (Dying(c) ==> c' == c)
            && (role != Client && Live(c') ==> c'.client.registered == c.client.registered)
            && (role != Backend && Live(c') ==> c'.backend.registered == c.backend.registered)
  {
    var c' := Callback(c, role, ev);
    if Live(c) {
      assert c'.trace == c.trace + [role];
      assert ALL_ROLES == {Client, Backend, Timer} && |ALL_ROLES| == 3;
      if role == Timer && c.timer == TIMER_RELAXED {
        assert c'.pushes == [Backend, Client, Timer];
      }
    } else {
      assert c' == c;
    }
  }

  lemma NewConnGood()
    ensures Live(MakeConn()) && GoodConn(MakeConn())
  {
    assert MakeConn().handlers == ALL_ROLES;
  }

  /** Releasing a handler gives up one reference; the last one takes the proxy object along. */
  lemma FreeHandlerGood(c: Conn, role: Role)
    requires Dying(c) && TimerMatchesTrace(c) && role in c.handlers
    ensures var c' := FreeHandler(c, role);
            Dying(c') && GoodConn(c') && c'.handlers == c.handlers - {role}
  {
    assert |c.handlers - {role}| == |c.handlers| - 1;
    assert c.handlers - {role} == {} <==> |c.handlers - {role}| == 0;
  }

  lemma WaitKeepsInv(w: World, batch: seq<HandlerId>)
    requires Inv(w) && Enabled(w, Wait(batch))
    ensures Inv(Next(w, Wait(batch)))
  {
    forall h | h in batch ensures GoodPending(w, h) {
      assert Registered(w, h) && GoodConn(w.conns[h.conn]);
    }
  }

  lemma AcceptKeepsInv(w: World)
    requires Inv(w)
    ensures Inv(AcceptConn(w))
  {
    var w' := AcceptConn(w);
    NewConnGood();
    var i := |w.conns|;
    assert forall k :: 0 <= k < i ==> w'.conns[k] == w.conns[k];
    forall h | h in w.pending ensures GoodPending(w', h) {
      assert GoodPending(w, h);
    }
  }

  lemma PushedThree(i: nat, free: seq<HandlerId>)
    ensures PushAll(i, [Backend, Client, Timer], free) ==
              [HandlerId(i, Timer), HandlerId(i, Client), HandlerId(i, Backend)] + free
  {
    var b, c, t := HandlerId(i, Backend), HandlerId(i, Client), HandlerId(i, Timer);
    calc {
      PushAll(i, [Backend, Client, Timer], free);
    == { assert [Backend, Client, Timer][1..] == [Client, Timer]; }
      PushAll(i, [Client, Timer], [b] + free);
    == { assert [Client, Timer][1..] == [Timer]; }
      PushAll(i, [Timer], [c] + ([b] + free));
    == { assert [Timer][1..] == []; }
      [t] + ([c] + ([b] + free));
    }
  }

  /** The free list of a world in which one connection was replaced. */
  lemma DeliverFree(w: World, i: nat, role: Role, ev: Events)
    requires Inv(w) && Enabled(w, Deliver(ev)) && w.pending[0] == HandlerId(i, role)
    requires GoodConn(Callback(w.conns[i], role, ev)) && Callback(w.conns[i], role, ev).handlers == w.conns[i].handlers
    requires Dying(w.conns[i]) ==> Callback(w.conns[i], role, ev) == w.conns[i]
    ensures GoodFree(DeliverEvent(w, ev))
  {
    hide Live, Dying, TimerMatchesTrace, Callback;
    var c, c', w' := w.conns[i], Callback(w.conns[i], role, ev), DeliverEvent(w, ev);
    Phases(c);
    Phases(c');
    if Live(c) && Dying(c') {
      assert c'.pushes[0..] == [Backend, Client, Timer];
      PushedThree(i, w.free);
      var pushed := [HandlerId(i, Timer), HandlerId(i, Client), HandlerId(i, Backend)];
      assert w'.free == pushed + w.free;
      assert forall h <- w.free :: h.conn != i;
      assert forall h: HandlerId :: h.conn == i ==> h in pushed by { assert pushed[0] in pushed && pushed[1] in pushed && pushed[2] in pushed; AllThree(i); }
    } else {
      assert c'.pushes[|c.pushes|..] == [];
      assert w'.free == w.free;
    }
  }

  lemma AllThree(i: nat)
    ensures forall h: HandlerId :: h.conn == i ==>
              h in [HandlerId(i, Timer), HandlerId(i, Client), HandlerId(i, Backend)]
  {
    forall h: HandlerId | h.conn == i
      ensures h in [HandlerId(i, Timer), HandlerId(i, Client), HandlerId(i, Backend)]
    {
      match h.role
      case Client => assert h == [HandlerId(i, Timer), HandlerId(i, Client), HandlerId(i, Backend)][1];
      case Backend => assert h == [HandlerId(i, Timer), HandlerId(i, Client), HandlerId(i, Backend)][2];
      case Timer => assert h == [HandlerId(i, Timer), HandlerId(i, Client), HandlerId(i, Backend)][0];
    }
  }

  /** What tells the two phases of a connection apart. */
  lemma Phases(c: Conn)
    requires GoodConn(c)
    ensures Live(c) <==> !Dying(c)
    ensures Live(c) ==> c.pushes == [] && c.handlers == ALL_ROLES && c.timerRegistered
    ensures Dying(c) ==> c.pushes == [Backend, Client, Timer]
  {
  }

  lemma DeliverKeepsInv(w: World, ev: Events)
    requires Inv(w) && Enabled(w, Deliver(ev))
    ensures Inv(DeliverEvent(w, ev))
  {
    hide Live, Dying, TimerMatchesTrace, Callback, GoodFree;
    var HandlerId(i, role) := w.pending[0];
    var c, w' := w.conns[i], DeliverEvent(w, ev);
    assert GoodPending(w, w.pending[0]) && GoodConn(c);
    CallbackGood(c, role, ev);
    DeliverFree(w, i, role, ev);
    var c' := Callback(c, role, ev);
    Phases(c);
    Phases(c');
    forall h | h in w'.pending ensures GoodPending(w', h) {
      var k :| 0 <= k < |w'.pending| && w'.pending[k] == h;
      assert w.pending[k + 1] == h && GoodPending(w, h) && h != w.pending[0];
    }
    assert forall k, m :: 0 <= k < m < |w'.pending| ==> w'.pending[k] == w.pending[k + 1] && w'.pending[m] == w.pending[m + 1];
  }

  lemma DrainKeepsInv(w: World)
    requires Inv(w) && Enabled(w, Drain)
    ensures Inv(DrainOne(w))
  {
    hide Live, Dying, TimerMatchesTrace, FreeHandler;
    var h0 := w.free[0];
    var HandlerId(i, role) := h0;
    var c, w' := w.conns[i], DrainOne(w);
    assert h0 in w.free && GoodConn(c);
    FreeHandlerGood(c, role);
    var c' := FreeHandler(c, role);
    Phases(c');
    assert GoodFree(w') by {
      assert forall k, m :: 0 <= k < m < |w'.free| ==> w'.free[k] == w.free[k + 1] && w'.free[m] == w.free[m + 1];
      assert forall h: HandlerId :: h in w.free <==> h == h0 || h in w'.free;
      assert h0 !in w'.free;
    }
  }

  lemma NextKeepsInv(w: World, s: Step)
    requires Inv(w)
    ensures Inv(Next(w, s))
  {
    hide Inv, AcceptConn, DeliverEvent, DrainOne;
    if Enabled(w, s) {
      match s
      case Wait(batch) => WaitKeepsInv(w, batch);
      case Accept => AcceptKeepsInv(w);
      case Deliver(ev) => DeliverKeepsInv(w, ev);
      case Drain => DrainKeepsInv(w);
    }
  }

  lemma {:induction false} RunKeepsInv(steps: seq<Step>)
    ensures Inv(Run(steps))
    decreases |steps|
  {
    if steps != [] {
      RunKeepsInv(steps[..|steps| - 1]);
      NextKeepsInv(Run(steps[..|steps| - 1]), steps[|steps| - 1]);
    }
  }

  // ----- the flags catch every misuse -----

  /** A side that is used, closed or freed when it must not be is never sound again. */
  lemma MisuseOfPeer(p: Peer)
    ensures !OnClose(OnClose(p)).sound && !OnClose(FreeParams(p)).sound
    ensures !FreeParams(FreeParams(p)).sound && !Touch(FreeParams(p)).sound && !ForceClose(FreeParams(p)).sound
    ensures !p.registered || !p.open || !p.inMemory ==> !OnClose(p).sound
    ensures !p.sound ==> !OnClose(p).sound && !Touch(p).sound && !ForceClose(p).sound && !FreeParams(p).sound
  {
  }

  /** Reading from or writing to a side whose structure is gone shows, on whichever side it is. */
  lemma MisuseOfClientData(c: Conn, ev: Events)
    requires !ev.hangup && (ev.output || (ev.input && ev.gotBytes)) && !c.backend.setFree
    ensures !c.client.inMemory ==> !HandleClientEvents(c, ev).client.sound
    ensures !c.backend.inMemory ==> !HandleClientEvents(c, ev).backend.sound
  {
    hide CheckBackendClose, TouchBoth, Touch;
    var c1 := c.(client := Touch(c.client));
    TouchKeeps(c.client);
    TouchBothShows(c1);
    NoBackendClose(c1);
    NoBackendClose(TouchBoth(c1));
    if ev.input && ev.gotBytes {
      TouchBothShows(TouchBoth(c1));
      NoBackendClose(TouchBoth(TouchBoth(c1)));
    }
  }

  lemma NoBackendClose(c: Conn)
    requires !c.backend.setFree
    ensures CheckBackendClose(c) == c
  {
  }

  lemma MisuseOfBackendData(c: Conn, ev: Events)
    requires !ev.hangup && (ev.output || (ev.input && ev.gotBytes)) && !c.client.setFree
    ensures !c.client.inMemory ==> !HandleBackendEvents(c, ev).client.sound
    ensures !c.backend.inMemory ==> !HandleBackendEvents(c, ev).backend.sound
  {
    hide CheckClientClose, TouchBoth, Touch;
    var c1 := c.(backend := Touch(c.backend));
    TouchKeeps(c.backend);
    TouchBothShows(c1);
    NoClientClose(c1);
    NoClientClose(TouchBoth(c1));
    if ev.input && ev.gotBytes {
      TouchBothShows(TouchBoth(c1));
      NoClientClose(TouchBoth(TouchBoth(c1)));
    }
  }

  lemma NoClientClose(c: Conn)
    requires !c.client.setFree
    ensures CheckClientClose(c) == c
  {
  }

  lemma TouchKeeps(p: Peer)
    ensures Touch(p).inMemory == p.inMemory && Touch(p).setFree == p.setFree
  {
  }

  lemma TouchBothShows(c: Conn)
    ensures !c.client.inMemory ==> !TouchBoth(c).client.sound
    ensures !c.backend.inMemory ==> !TouchBoth(c).backend.sound
    ensures TouchBoth(c).client.inMemory == c.client.inMemory && TouchBoth(c).client.setFree == c.client.setFree
    ensures TouchBoth(c).backend.inMemory == c.backend.inMemory && TouchBoth(c).backend.setFree == c.backend.setFree
  {
  }

  /** A callback through a freed handler or on a freed proxy object shows. */
  lemma MisuseOfCallback(c: Conn, role: Role, ev: Events)
    requires role !in c.handlers || !c.inMemory || !c.sound
    ensures !Callback(c, role, ev).sound
  {
  }

  /**
    So does the release of a handler that is gone, of one whose descriptor is still open or
    watched, of one whose proxy object is gone, and a second deregistration of the timer.
   */
  lemma MisuseOfHandler(c: Conn, role: Role)
    ensures role !in c.handlers || !c.inMemory || !c.sound ==> !FreeHandler(c, role).sound
    ensures !FreeHandler(FreeHandler(c, role), role).sound
    ensures c.client.registered || c.client.open ==> !FreeHandler(c, Client).sound
    ensures c.backend.registered || c.backend.open ==> !FreeHandler(c, Backend).sound
    ensures c.timerRegistered ==> !FreeHandler(c, Timer).sound
    ensures !FreeTimerHandler(FreeTimerHandler(c)).sound
  {
  }

  // ----- the theorems, over every run -----

  /**
    Deferred reclamation is safe: no run uses freed memory, frees anything twice or closes or
    deregisters a descriptor twice; descriptors are out of the way before their handler is
    freed; and a proxy object lives exactly as long as it has unfreed handlers, which its
    reference count counts.
   */
  lemma ReclamationSafe(steps: seq<Step>, c: Conn)
    requires c in Run(steps).conns
    ensures c.sound && c.client.sound && c.backend.sound
    ensures c.refs == |c.handlers| && (c.inMemory <==> c.refs > 0)
  {
    RunKeepsInv(steps);
    assert GoodConn(c);
    assert c.handlers == {} <==> |c.handlers| == 0;
    assert |ALL_ROLES| == 3;
  }

  /**
    A side is freed only together with the timer being up, so neither close check ever fires;
    a handler is put on the free list once, by the timer, and no list ever holds it twice.
   */
  lemma SingleEnqueue(steps: seq<Step>, c: Conn)
    requires c in Run(steps).conns
    ensures (c.client.setFree <==> c.timer == TIMER_IS_UP) && (c.backend.setFree <==> c.timer == TIMER_IS_UP)
    ensures c.timer != TIMER_IS_UP ==> CheckClientClose(c) == c && CheckBackendClose(c) == c
    ensures c.pushes == if c.timer == TIMER_IS_UP then [Backend, Client, Timer] else []
    ensures Distinct(Run(steps).free)
  {
    RunKeepsInv(steps);
    assert GoodConn(c);
  }

  /** A connection is torn down exactly by two timer callbacks right after a client or backend one. */
  lemma TornDownByTimeout(steps: seq<Step>, c: Conn)
    requires c in Run(steps).conns
    ensures c.timer == TIMER_IS_UP <==> TimedOut(c.trace)
  {
    hide Run, LivePeer, DeadPeer;
    RunKeepsInv(steps);
    assert GoodConn(c);
    var t, n := c.trace, |c.trace|;
    assert c.timer in {0, RELAX_TIMER, TIMER_RELAXED, TIMER_IS_UP};
    if TimedOut(t) {
      assert t[n - 3] != Timer && t[n - 1] == Timer && t[n - 2] == Timer;
    }
  }

  /** Two timer callbacks in a row take a connection down just if a client or backend callback ever ran. */
  lemma TwoTimersTearDown(steps: seq<Step>, c: Conn, ev1: Events, ev2: Events)
    requires c in Run(steps).conns && c.timer != TIMER_IS_UP
    ensures Callback(Callback(c, Timer, ev1), Timer, ev2).timer == TIMER_IS_UP <==> c.timer != 0
    ensures c.timer != 0 <==> exists k :: 0 <= k < |c.trace| && c.trace[k] != Timer
  {
    RunKeepsInv(steps);
    assert GoodConn(c);
  }

  lemma RunOneMore(steps: seq<Step>, s: Step)
    ensures Run(steps + [s]) == Next(Run(steps), s)
  {
    assert (steps + [s])[..|steps|] == steps;
  }

  /** One connection and `n` rounds in which nothing but its timer is ready. */
  function IdleRounds(n: nat, ev: Events): seq<Step> {
    if n == 0 then [Accept] else IdleRounds(n - 1, ev) + [Wait([HandlerId(0, Timer)])] + [Deliver(ev)]
  }

  function Ticks(n: nat): seq<Role> {
    if n == 0 then [] else Ticks(n - 1) + [Timer]
  }

  /** A connection that nothing ever happens on is never taken down, however often its timer is up. */
  lemma {:induction false} IdleForever(n: nat, ev: Events)
    ensures Run(IdleRounds(n, ev)) == World([MakeConn().(trace := Ticks(n))], [], [])
  {
    hide Run;
    if n == 0 {
      IdleStart();
    } else {
      var before := IdleRounds(n - 1, ev);
      var t := [HandlerId(0, Timer)];
      IdleForever(n - 1, ev);
      RunOneMore(before, Wait(t));
      RunOneMore(before + [Wait(t)], Deliver(ev));
      IdleRound(MakeConn().(trace := Ticks(n - 1)), ev);
    }
  }

  lemma IdleStart()
    ensures Run([Accept]) == World([MakeConn()], [], [])
  {
    assert [Accept][..0] == [];
    assert Run([]) == World([], [], []);
  }

  lemma IdleRound(c: Conn, ev: Events)
    requires c.timer == 0 && c.sound && c.inMemory && Timer in c.handlers && c.timerRegistered
    ensures var t := [HandlerId(0, Timer)];
            var w := Next(World([c], [], []), Wait(t));
            Next(w, Deliver(ev)) == World([c.(trace := c.trace + [Timer])], [], [])
  {
    var t := [HandlerId(0, Timer)];
    var w := Next(World([c], [], []), Wait(t));
    assert w == World([c], t, []);
    var c' := Callback(c, Timer, ev);
    assert c' == c.(trace := c.trace + [Timer]);
    assert c'.pushes[|c.pushes|..] == [];
    assert [c][0 := c'] == [c'] && t[1..] == [];
  }

  /** A side after its descriptor was closed, and before it is freed. */
  const CLOSED: Peer := Peer(true, false, false, false, true, true)

  /**
    All a callback ever does while the timer is not up: a client or backend callback closes its
    own side on a hangup and relaxes the timer, and no more; a timer callback moves the timer on,
    or takes both sides down.
   */
  lemma CallbackEffect(steps: seq<Step>, c: Conn, role: Role, ev: Events)
    requires c in Run(steps).conns && c.timer != TIMER_IS_UP
    requires role == Client ==> c.client.registered
    requires role == Backend ==> c.backend.registered
    ensures role == Client ==>
              Callback(c, role, ev)
              == c.(timer := RELAX_TIMER, trace := c.trace + [Client], client := if ev.hangup then CLOSED else c.client)
    ensures role == Backend ==>
              Callback(c, role, ev)
              == c.(timer := RELAX_TIMER, trace := c.trace + [Backend], backend := if ev.hangup then CLOSED else c.backend)
    ensures role == Timer && c.timer == 0 ==> Callback(c, role, ev) == c.(trace := c.trace + [Timer])
    ensures role == Timer && c.timer == RELAX_TIMER ==>
              Callback(c, role, ev) == c.(timer := TIMER_RELAXED, trace := c.trace + [Timer])
    ensures role == Timer && c.timer == TIMER_RELAXED ==> Dying(Callback(c, role, ev))
  {
    hide Run;
    RunKeepsInv(steps);
    assert GoodConn(c);
    if role == Timer && c.timer == TIMER_RELAXED {
      CallbackGood(c, role, ev);
    }
  }

  /** Once the timer is up, no callback changes anything any more. */
  lemma TimerUpIsFinal(steps: seq<Step>, c: Conn, role: Role, ev: Events)
    requires c in Run(steps).conns && c.timer == TIMER_IS_UP && role in c.handlers
    ensures Callback(c, role, ev) == c
  {
    RunKeepsInv(steps);
    assert GoodConn(c);
  }

  /** When the list has been drained, every connection whose timer is up has been released completely. */
  lemma NothingLeft(steps: seq<Step>, c: Conn)
    requires c in Run(steps).conns && Run(steps).free == [] && c.timer == TIMER_IS_UP
    ensures c.handlers == {} && c.refs == 0 && !c.inMemory && !c.client.inMemory && !c.backend.inMemory
  {
    hide Run, TimerMatchesTrace;
    RunKeepsInv(steps);
    var w := Run(steps);
    var i :| 0 <= i < |w.conns| && w.conns[i] == c;
    assert GoodConn(c);
    forall role: Role ensures role !in c.handlers {
      assert HandlerId(i, role) !in w.free;
    }
  }

  /** Every handler the loop is about to call exists, and so does its proxy object. */
  lemma PendingAlive(steps: seq<Step>, h: HandlerId)
    requires h in Run(steps).pending
    ensures h.conn < |Run(steps).conns|
    ensures var c := Run(steps).conns[h.conn]; h.role in c.handlers && c.inMemory
  {
    RunKeepsInv(steps);
    var w := Run(steps);
    assert GoodPending(w, h) && GoodConn(w.conns[h.conn]);
  }
}

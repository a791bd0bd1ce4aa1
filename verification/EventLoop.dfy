/**
  The event loop and the callbacks of proxied connections as the program runs them: objects
  updated in place, a global list of handlers to free, a loop over each batch of events and a
  loop that drains the list.  Every method is proved against the step machine of Lifecycle, so
  what holds of all its runs holds of these objects.

  Ghost fields record what the program does not: which descriptors are open and watched, what
  memory is allocated, and the history.
 */
module EventLoop {
  import opened Lifecycle
  import opened Batches

  /** The global list of blocks to be freed at the end of a batch. */
  class FreeList {
    var entry: seq<HandlerId>

    constructor ()
      ensures entry == []
    {
      entry := [];
    }

    method AddBlock(block: HandlerId)
      modifies this
      ensures entry == [block] + old(entry)
    {
      entry := [block] + entry;
    }
  }

  /** One side of a connection. */
  class PeerBase {
    var isClosed: bool
    var setFree: bool
    ghost var registered: bool
    ghost var isOpen: bool
    ghost var inMemory: bool
    ghost var sound: bool

    ghost function View(): Peer
      reads this
    {
      Peer(isClosed, setFree, registered, isOpen, inMemory, sound)
    }

    constructor ()
      ensures View() == NewPeer()
    {
      isClosed, setFree := false, false;
      registered, isOpen, inMemory, sound := true, true, true, true;
    }

    ghost method Use()
      modifies this
      ensures View() == Touch(old(View()))
    {
      sound := sound && inMemory;
    }

    method OnClose()
      modifies this
      ensures View() == Lifecycle.OnClose(old(View()))
    {
      sound := sound && inMemory && registered && isOpen;
      registered := false;
      isClosed := true;
      isOpen := false;
    }

    method ForceClose()
      modifies this
      ensures View() == Lifecycle.ForceClose(old(View()))
    {
      if !isClosed {
        OnClose();
      } else {
        Use();
      }
    }

    method FreeParams()
      modifies this
      ensures View() == Lifecycle.FreeParams(old(View()))
    {
      sound := sound && inMemory;
      inMemory := false;
      setFree := true;
    }
  }

  /** A proxy object with its two sides; `id` stands for its address. */
  class ProxyConnection {
    const id: nat
    const client: PeerBase
    const backend: PeerBase
    const list: FreeList
    var timer: int
    var refs: int
    ghost var timerRegistered: bool
    ghost var inMemory: bool
    ghost var handlers: set<Role>
    ghost var sound: bool
    ghost var trace: seq<Role>
    ghost var pushes: seq<Role>

    ghost predicate Valid() {
      client != backend
    }

    ghost function View(): Conn
      reads this, client, backend
    {
      Conn(timer, refs, client.View(), backend.View(), timerRegistered, inMemory, handlers, sound, trace, pushes)
    }

    /** The state became `c`, and what that put on the list of pushes is on the free list. */
    twostate predicate Becomes(c: Conn)
      reads this, client, backend, list
    {
      && View() == c
      && |old(pushes)| <= |pushes| && pushes[..|old(pushes)|] == old(pushes)
      && list.entry == PushAll(id, pushes[|old(pushes)|..], old(list.entry))
    }

    constructor (id: nat, list: FreeList)
      ensures Valid() && View() == MakeProxy()
      ensures this.id == id && this.list == list && fresh(client) && fresh(backend)
    {
      this.id, this.list := id, list;
      client := new PeerBase();
      backend := new PeerBase();
      timer, refs := 0, 0;
      timerRegistered, inMemory, handlers, sound, trace, pushes := false, true, {}, true, [], [];
    }

    /** Puts the handler with the given role on the free list. */
    method Enqueue(role: Role)
      modifies this`pushes, list
      ensures Becomes(Push(old(View()), role))
    {
      list.AddBlock(HandlerId(id, role));
      pushes := pushes + [role];
      assert pushes[|old(pushes)|..] == [role];
    }

    method EnqueuePeers()
      modifies this`pushes, list
      ensures Becomes(PushPeers(old(View())))
    {
      Enqueue(Backend);
      Enqueue(Client);
      assert pushes[|old(pushes)|..] == [Backend, Client];
      PushedTwo(id, Backend, Client, old(list.entry));
    }

    method CheckBackendClose() returns (closed: bool)
      requires Valid()
      modifies this`pushes, client, backend, list
      ensures closed == old(backend.setFree)
      ensures Becomes(Lifecycle.CheckBackendClose(old(View())))
    {
      if backend.setFree {
        backend.FreeParams();
        client.ForceClose();
        client.FreeParams();
        EnqueuePeers();
        return true;
      }
      return false;
    }

    method CheckClientClose() returns (closed: bool)
      requires Valid()
      modifies this`pushes, client, backend, list
      ensures closed == old(client.setFree)
      ensures Becomes(Lifecycle.CheckClientClose(old(View())))
    {
      if client.setFree {
        client.FreeParams();
        backend.ForceClose();
        backend.FreeParams();
        EnqueuePeers();
        return true;
      }
      return false;
    }

    /** A read or write that passes data from one side to the other. */
    ghost method PassData()
      requires Valid()
      modifies client, backend
      ensures View() == TouchBoth(old(View()))
    {
      client.Use();
      backend.Use();
    }

    method HandleClientEvents(ev: Events)
      requires Valid()
      modifies this`pushes, client, backend, list
      ensures Becomes(Lifecycle.HandleClientEvents(old(View()), ev))
    {
      client.Use();
      if ev.hangup {
        client.OnClose();
        return;
      }
      if ev.input {
        var closed := CheckBackendClose();
        if closed {
          return;
        }
        if ev.gotBytes {
          PassData();
        }
      }
      if ev.output {
        PassData();
        var _ := CheckBackendClose();
      }
    }

    method HandleBackendEvents(ev: Events)
      requires Valid()
      modifies this`pushes, client, backend, list
      ensures Becomes(Lifecycle.HandleBackendEvents(old(View()), ev))
    {
      backend.Use();
      if ev.hangup {
        backend.OnClose();
        return;
      }
      if ev.input {
        var closed := CheckClientClose();
        if closed {
          return;
        }
        if ev.gotBytes {
          PassData();
        }
      }
      if ev.output {
        PassData();
        var _ := CheckClientClose();
      }
    }

    method HandleTimerUpEvents()
      requires Valid()
      modifies this`pushes, client, backend, list
      ensures Becomes(HandleTimerUp(old(View())))
    {
      hide Lifecycle.OnClose, Lifecycle.ForceClose;
      if !backend.setFree {
        backend.ForceClose();
        backend.FreeParams();
      }
      if !client.setFree {
        client.ForceClose();
        client.FreeParams();
      }
      EnqueuePeers();
    }

    method FreeTimerHandler()
      modifies this`pushes, this`sound, this`timerRegistered, list
      ensures Becomes(Lifecycle.FreeTimerHandler(old(View())))
    {
      sound := sound && timerRegistered;
      timerRegistered := false;
      Enqueue(Timer);
      assert pushes[|old(pushes)|..] == [Timer];
    }

    /** The timer branch of the callback. */
    method TimerTick()
      requires Valid()
      modifies this`timer, this`pushes, this`sound, this`timerRegistered, client, backend, list
      ensures Becomes(Lifecycle.TimerTick(old(View())))
    {
      hide Lifecycle.OnClose, Lifecycle.ForceClose, Lifecycle.FreeParams, HandleTimerUp;
      if timer == RELAX_TIMER {
        timer := TIMER_RELAXED;
      } else if timer == TIMER_RELAXED || timer > 0 {
        timer := TIMER_IS_UP;
        HandleTimerUpEvents();
        ghost var peers := pushes;
        FreeTimerHandler();
        Joined(id, old(pushes), peers, pushes, old(list.entry));
      }
    }

    /** The branch of the callback for the kind of socket the event is on. */
    method Serve(role: Role, ev: Events)
      requires Valid()
      modifies this`timer, this`pushes, this`sound, this`timerRegistered, client, backend, list
      ensures Becomes(Lifecycle.Serve(old(View()), role, ev))
    {
      hide Lifecycle.HandleClientEvents, Lifecycle.HandleBackendEvents, Lifecycle.TimerTick, PushAll;
      match role {
        case Client =>
          HandleClientEvents(ev);
          timer := RELAX_TIMER;
        case Backend =>
          HandleBackendEvents(ev);
          timer := RELAX_TIMER;
        case Timer =>
          TimerTick();
      }
    }

    /** The callback every handler of the connection shares. */
    method EventsCallback(role: Role, ev: Events)
      requires Valid()
      modifies this, client, backend, list
      ensures Becomes(Callback(old(View()), role, ev))
    {
      hide Lifecycle.Serve;
      sound := sound && role in handlers && inMemory;
      if timer == TIMER_IS_UP {
        return;
      }
      trace := trace + [role];
      Serve(role, ev);
    }

    /** A new handler for the connection: one more reference. */
    method MakeHandler(role: Role)
      modifies this`refs, this`handlers
      ensures View() == Lifecycle.MakeHandler(old(View()), role)
    {
      refs := refs + 1;
      handlers := handlers + {role};
    }

    method FreeProxyObj()
      modifies this`refs, this`sound, this`inMemory
      ensures View() == Lifecycle.FreeProxyObj(old(View()))
    {
      sound := sound && inMemory;
      refs := refs - 1;
      if refs != 0 {
        return;
      }
      inMemory := false;
    }

    /** What the drain does with one block: gives up the reference, then frees the handler. */
    method FreeHandler(role: Role)
      modifies this`refs, this`sound, this`inMemory, this`handlers
      ensures View() == Lifecycle.FreeHandler(old(View()), role)
    {
      sound := sound && role in handlers && DescriptorGone(View(), role);
      FreeProxyObj();
      handlers := handlers - {role};
    }
  }

  /** A proxy object with the three handlers that refer to it, all of them registered. */
  method MakeProxyConnection(id: nat, list: FreeList) returns (conn: ProxyConnection)
    ensures fresh(conn) && fresh(conn.client) && fresh(conn.backend)
    ensures conn.Valid() && conn.id == id && conn.list == list && conn.View() == MakeConn()
  {
    conn := new ProxyConnection(id, list);
    conn.MakeHandler(Client);
    conn.MakeHandler(Backend);
    conn.MakeHandler(Timer);
    conn.timerRegistered := true;
  }

  /**
    The loop itself.  `Repr` holds every object it may change; `steps` is the run of the step
    machine that led to the present state.
   */
  class Loop {
    const list: FreeList
    var conns: seq<ProxyConnection>
    ghost var pending: seq<HandlerId>
    ghost var steps: seq<Step>
    ghost var Repr: set<object>

    /** Connections share nothing but the list. */
    ghost predicate Separate()
      reads this
    {
      && this in Repr && list in Repr
      && (forall i :: 0 <= i < |conns| ==>
            && {conns[i], conns[i].client, conns[i].backend} <= Repr
            && conns[i].id == i && conns[i].list == list && conns[i].Valid())
      && (forall i, j :: 0 <= i < |conns| && 0 <= j < |conns| && i != j ==>
            conns[i].client != conns[j].client && conns[i].backend != conns[j].backend && conns[i].client != conns[j].backend)
    }

    ghost function Views(): (vs: seq<Conn>)
      requires Separate()
      reads this, Repr
      ensures |vs| == |conns| && forall i :: 0 <= i < |conns| ==> vs[i] == conns[i].View()
    {
      seq(|conns|, i requires 0 <= i < |conns| && Separate() reads this, Repr => conns[i].View())
    }

    ghost function View(): World
      requires Separate()
      reads this, Repr
    {
      World(Views(), pending, list.entry)
    }

    /** The state is the one its history leads to. */
    ghost predicate Valid()
      reads this, Repr
    {
      Separate() && View() == Run(steps)
    }

    /** Before a wait: no events are left over, and nothing is left to be freed. */
    ghost predicate Idle()
      reads this, Repr
    {
      Valid() && pending == [] && list.entry == []
    }

    /** Work on one connection leaves the others as they are. */
    twostate lemma OnlyOneChanged(i: nat)
      requires old(Separate()) && conns == old(conns) && Repr == old(Repr) && i < |conns|
      requires unchanged(Repr - {this, list, conns[i], conns[i].client, conns[i].backend})
      ensures Separate() && Views() == old(Views())[i := conns[i].View()]
    {
      forall j | 0 <= j < |conns| && j != i
        ensures Views()[j] == old(Views())[j]
      {
        assert conns[j].id != conns[i].id;
        assert unchanged(conns[j]) && unchanged(conns[j].client) && unchanged(conns[j].backend);
        assert conns[j].View() == old(conns[j].View());
      }
    }

    /** A connection made of new objects leaves the others as they are. */
    twostate lemma OnlyOneAdded(new conn: ProxyConnection)
      requires old(Separate()) && conns == old(conns) + [conn]
      requires conn.id == |old(conns)| && conn.list == list && conn.Valid()
      requires fresh(conn.client) && fresh(conn.backend)
      requires Repr == old(Repr) + {conn, conn.client, conn.backend}
      requires unchanged(old(Repr) - {this})
      ensures Separate() && Views() == old(Views()) + [conn.View()]
    {
      forall j | 0 <= j < |old(conns)|
        ensures Separate() && Views()[j] == old(Views())[j]
      {
        assert conns[j] == old(conns)[j];
        assert unchanged(conns[j].client) && unchanged(conns[j].backend);
        assert unchanged(conns[j]);
        assert conns[j].View() == old(conns[j].View());
      }
    }

    constructor ()
      ensures Idle() && conns == [] && fresh(Repr)
    {
      list := new FreeList();
      conns, pending, steps := [], [], [];
      new;
      Repr := {this, list};
    }

    /** A client is accepted: its connection is made, with the three handlers it is served by. */
    method Accept()
      requires Valid()
      modifies this
      ensures Valid() && pending == old(pending) && steps == old(steps) + [Step.Accept]
      ensures fresh(Repr - old(Repr))
      ensures Views() == old(Views()) + [NEW]
    {
      hide Run, MakeConn;
      ghost var was := View();
      var conn := MakeProxyConnection(|conns|, list);
      conns := conns + [conn];
      Repr := Repr + {conn, conn.client, conn.backend};
      steps := steps + [Step.Accept];
      OnlyOneAdded(conn);
      NewConnIsNew();
      assert View() == AcceptConn(was);
      RunOneMore(old(steps), Step.Accept);
    }

    /** The callback of a handler that is ready. */
    method Dispatch(h: HandlerId, ev: Events)
      requires Valid() && pending != [] && pending[0] == h
      modifies Repr
      ensures Valid() && pending == old(pending[1..]) && steps == old(steps) + [Deliver(ev)]
      ensures Repr == old(Repr)
      ensures |Views()| == |old(Views())| && h.conn < |Views()|
      ensures forall j :: 0 <= j < |Views()| && j != h.conn ==> Views()[j] == old(Views())[j]
      ensures Served(old(Views())[h.conn], Views()[h.conn], h.role, ev)
    {
      hide Run, Callback, Served;
      ghost var was := View();
      PendingAlive(steps, h);
      NextServed(steps, ev);
      conns[h.conn].EventsCallback(h.role, ev);
      pending := pending[1..];
      steps := steps + [Deliver(ev)];
      OnlyOneChanged(h.conn);
      assert View() == DeliverEvent(was, ev);
      RunOneMore(old(steps), Deliver(ev));
    }

    /** Frees the first handler on the list. */
    method DrainFirst()
      requires Valid() && pending == [] && list.entry != []
      modifies Repr
      ensures Valid() && pending == [] && steps == old(steps) + [Drain]
      ensures Repr == old(Repr) && list.entry == old(list.entry[1..])
      ensures AllDrained(old(Views()), Views())
    {
      hide Run, Lifecycle.FreeHandler, AllDrained;
      ghost var was := View();
      NextDrained(steps);
      FreeListed(steps);
      var h := list.entry[0];
      conns[h.conn].FreeHandler(h.role);
      list.entry := list.entry[1..];
      steps := steps + [Drain];
      OnlyOneChanged(h.conn);
      assert View() == DrainOne(was);
      RunOneMore(old(steps), Drain);
    }

    /** The loop over the batch. */
    method ServeBatch(batch: seq<Ready>)
      requires Valid() && pending == Handlers(batch)
      requires forall k :: 0 <= k < |batch| && batch[k].Of? ==> batch[k].handler.conn < |Views()|
      modifies Repr
      ensures Valid() && pending == [] && fresh(Repr - old(Repr))
      ensures steps == old(steps) + StepsOf(batch)
      ensures AllProgress(old(Views()), Views(), batch, |batch|)
    {
      hide Run, Views, AllProgress, Served, TornDown;
      ghost var waited, before := steps, Views();
      assert steps == waited + StepsOf(batch[..0]);
      ProgressStart(before, batch);
      for i := 0 to |batch|
        invariant Valid() && pending == Handlers(batch[i..])
        invariant steps == waited + StepsOf(batch[..i])
        invariant fresh(Repr - old(Repr))
        invariant AllProgress(before, Views(), batch, i)
      {
        assert batch[i..][1..] == batch[i + 1..] && batch[..i + 1][..i] == batch[..i];
        ghost var now := Views();
        AllUpAreDown(steps);
        match batch[i] {
          case Listening =>
            Accept();
            ProgressAccept(before, now, batch, i);
          case Of(h, ev) =>
            Dispatch(h, ev);
            ProgressServe(before, now, Views(), batch, i);
        }
      }
      assert batch[..|batch|] == batch;
    }

    /** The loop over the free list. */
    method DrainList()
      requires Valid() && pending == []
      modifies Repr
      ensures Idle() && fresh(Repr - old(Repr))
      ensures exists n :: steps == old(steps) + Drains(n)
      ensures AllDrained(old(Views()), Views())
    {
      hide Run, Views, AllDrained;
      ghost var served, n, now := steps, 0, Views();
      NothingDrained(now);
      while list.entry != []
        invariant Valid() && pending == []
        invariant steps == served + Drains(n)
        invariant fresh(Repr - old(Repr))
        invariant AllDrained(now, Views())
        decreases |list.entry|
      {
        ghost var mid := Views();
        DrainFirst();
        DrainedMore(now, mid, Views());
        n := n + 1;
      }
    }

    /**
      One turn of the loop, for any batch epoll may report: the callback of every event runs,
      in order, then the free list is drained, and that is all.  What that comes to: every new
      client has a connection; a side that hung up is closed and no longer watched; a connection
      with a single event changes as that event says, and one without events not at all.
      Nothing unsound has happened to any connection, and those whose timer is up are released
      to the last byte.
     */
    method Turn(batch: seq<Ready>)
      requires Idle() && MayReport(View(), batch)
      modifies Repr
      ensures Idle() && fresh(Repr - old(Repr))
      ensures exists n :: steps == old(steps) + [Wait(Handlers(batch))] + StepsOf(batch) + Drains(n)
      ensures forall c <- View().conns :: Sound(c) && (c.timer == TIMER_IS_UP ==> Released(c))
      ensures TurnEffect(old(Views()), Views(), batch)
    {
      hide Run, Views, Sound, Released, AllProgress, AllDrained, TurnEffect, MayReport;
      ghost var was, before, start := View(), Views(), steps;
      MayWait(was, batch);
      OldHandlers(was, batch);
      pending := Handlers(batch);
      steps := steps + [Wait(Handlers(batch))];
      assert View() == was.(pending := Handlers(batch));
      RunOneMore(start, Wait(Handlers(batch)));
      ServeBatch(batch);
      ghost var now := Views();
      DrainList();
      AfterDrain(steps);
      AfterTurn(start, before, now, Views(), batch);
    }
  }

  lemma OldHandlers(w: World, batch: seq<Ready>)
    requires MayReport(w, batch)
    ensures forall k :: 0 <= k < |batch| && batch[k].Of? ==> batch[k].handler.conn < |w.conns|
  {
  }

  lemma AllUpAreDown(steps: seq<Step>)
    ensures forall c <- Run(steps).conns :: c.timer == -2 ==> TornDown(c)
  {
    forall c | c in Run(steps).conns ensures c.timer == -2 ==> TornDown(c) { UpMeansDown(steps, c); }
  }

  lemma NothingDrained(now: seq<Conn>)
    ensures AllDrained(now, now)
  {
  }

  /** A connection with an event in the batch had its timer running before it. */
  lemma RunningBefore(steps: seq<Step>, batch: seq<Ready>, k: nat)
    requires MayReport(Run(steps), batch) && k < |batch| && batch[k].Of?
    ensures var h := batch[k].handler;
            h.conn < |Run(steps).conns| && Run(steps).conns[h.conn].timer in {0, -1, -3}
  {
    hide Run;
    var h := batch[k].handler;
    assert Registered(Run(steps), h);
    UpMeansDown(steps, Run(steps).conns[h.conn]);
  }

  /** A connection whose timer is up had no handlers left between turns. */
  lemma UpMeansReleased(steps: seq<Step>, c: Conn)
    requires c in Run(steps).conns && Run(steps).free == [] && c.timer == -2
    ensures c.handlers == {}
  {
    NothingLeft(steps, c);
  }

  /** The events of a batch and the drain after them, for the connections there were. */
  lemma AfterTurn(steps: seq<Step>, was: seq<Conn>, now: seq<Conn>, after: seq<Conn>, batch: seq<Ready>)
    requires Run(steps).conns == was && Run(steps).free == [] && MayReport(Run(steps), batch)
    requires AllProgress(was, now, batch, |batch|) && AllDrained(now, after)
    ensures TurnEffect(was, after, batch)
  {
    hide Run, MayReport, Progress, Drained, OneEvent, SideClosed;
    OldHandlers(Run(steps), batch);
    assert NewClients(batch, |batch|) == set k: nat | k < |batch| && batch[k].Listening?;
    forall j | |was| <= j < |after| ensures after[j] == NEW { UntouchedByDrain(now[j], after[j]); }
    forall j | 0 <= j < |was| && (forall k :: 0 <= k < |batch| ==> !For(batch[k], j)) ensures after[j] == was[j] {
      assert was[j] in Run(steps).conns;
      if was[j].timer == -2 { UpMeansReleased(steps, was[j]); }
      WithoutEvents(was[j], now[j], after[j], batch, j);
    }
    forall k | 0 <= k < |batch| && batch[k].Of? && batch[k].events.hangup
      ensures SideClosed(after[batch[k].handler.conn], batch[k].handler.role)
    {
      var j := batch[k].handler.conn;
      HungUp(was[j], now[j], after[j], batch, k, j);
    }
    forall k, j | 0 <= j < |was| && OnlyOne(batch, |batch|, k, j)
      ensures OneEvent(was[j], after[j], batch[k].handler.role, batch[k].events.hangup)
    {
      RunningBefore(steps, batch, k);
      WithOneEvent(was[j], now[j], after[j], batch, k, j);
    }
  }

  lemma UntouchedByDrain(c: Conn, c': Conn)
    requires Drained(c, c') && c == NEW
    ensures c' == c
  {
  }

  lemma WithoutEvents(c: Conn, now: Conn, after: Conn, batch: seq<Ready>, j: nat)
    requires Progress(c, now, batch, |batch|, j) && Drained(now, after) && (c.timer == -2 ==> c.handlers == {})
    requires forall k :: 0 <= k < |batch| ==> !For(batch[k], j)
    ensures after == c
  {
  }

  lemma HungUp(c: Conn, now: Conn, after: Conn, batch: seq<Ready>, k: nat, j: nat)
    requires Progress(c, now, batch, |batch|, j) && Drained(now, after)
    requires k < |batch| && For(batch[k], j) && batch[k].events.hangup
    ensures SideClosed(after, batch[k].handler.role)
  {
  }

  lemma WithOneEvent(c: Conn, now: Conn, after: Conn, batch: seq<Ready>, k: nat, j: nat)
    requires Progress(c, now, batch, |batch|, j) && Drained(now, after)
    requires OnlyOne(batch, |batch|, k, j) && c.timer in {0, -1, -3}
    ensures OneEvent(c, after, batch[k].handler.role, batch[k].events.hangup)
  {
    assert Served(c, now, batch[k].handler.role, batch[k].events);
  }

  /** Nothing illegal ever happened to the connection. */
  ghost predicate Sound(c: Conn) {
    c.sound && c.client.sound && c.backend.sound
  }

  /** Everything the connection had has been freed. */
  ghost predicate Released(c: Conn) {
    c.handlers == {} && !c.inMemory && !c.client.inMemory && !c.backend.inMemory
  }

  lemma AfterDrain(steps: seq<Step>)
    requires Run(steps).free == []
    ensures forall c <- Run(steps).conns :: Sound(c) && (c.timer == TIMER_IS_UP ==> Released(c))
  {
    forall c | c in Run(steps).conns ensures Sound(c) && (c.timer == TIMER_IS_UP ==> Released(c)) {
      ReclamationSafe(steps, c);
      if c.timer == TIMER_IS_UP {
        NothingLeft(steps, c);
      }
    }
  }

  /** What is on the free list belongs to a connection there is. */
  lemma FreeListed(steps: seq<Step>)
    ensures forall h <- Run(steps).free :: h.conn < |Run(steps).conns| && h.role in Run(steps).conns[h.conn].handlers
  {
    RunKeepsInv(steps);
  }

  lemma PushedTwo(i: nat, first: Role, second: Role, free: seq<HandlerId>)
    ensures PushAll(i, [first, second], free) == PushAll(i, [second], PushAll(i, [first], free))
  {
    assert [first, second][1..] == [second];
  }

  /** Pushing in two goes is pushing in one. */
  lemma {:induction false} PushAllJoins(i: nat, r1: seq<Role>, r2: seq<Role>, free: seq<HandlerId>)
    ensures PushAll(i, r1 + r2, free) == PushAll(i, r2, PushAll(i, r1, free))
    decreases |r1|
  {
    if r1 == [] {
      assert r1 + r2 == r2;
    } else {
      assert (r1 + r2)[1..] == r1[1..] + r2;
      PushAllJoins(i, r1[1..], r2, [HandlerId(i, r1[0])] + free);
    }
  }

  lemma Joined(i: nat, a: seq<Role>, b: seq<Role>, c: seq<Role>, free: seq<HandlerId>)
    requires |a| <= |b| <= |c| && b[..|a|] == a && c[..|b|] == b
    ensures c[..|a|] == a
    ensures PushAll(i, c[|a|..], free) == PushAll(i, c[|b|..], PushAll(i, b[|a|..], free))
  {
    assert c[..|a|] == c[..|b|][..|a|];
    assert c[|a|..] == b[|a|..] + c[|b|..];
    PushAllJoins(i, b[|a|..], c[|b|..], free);
  }
}

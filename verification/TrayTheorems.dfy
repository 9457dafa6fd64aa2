/** The tray converges on the daemon's brightness, and a disconnected tray shows nothing live. */
module TrayTheorems {
  import opened Common
  import opened TrayState
  import opened TrayProtocol

  // ----- Pipelines -----

  lemma {:induction false} LastConcat(p: seq<Option<nat>>, q: seq<Option<nat>>, shown: nat)
    ensures Last(p + q, shown) == Last(q, Last(p, shown))
  {
    if q == [] {
      assert p + q == p;
    } else {
      assert (p + q)[..|p + q| - 1] == p + q[..|q| - 1];
      LastConcat(p, q[..|q| - 1], shown);
    }
  }

  /** Whether anything in the pipeline carries a brightness decides whether `shown` matters. */
  lemma {:induction false} LastForgets(q: seq<Option<nat>>, a: nat, b: nat)
    ensures Last(q, a) == Last(q, b) || (Last(q, a) == a && Last(q, b) == b)
  {
    if q != [] && q[|q| - 1].None? {
      LastForgets(q[..|q| - 1], a, b);
    }
  }

  /** Slipping the current brightness in anywhere keeps the end current. */
  lemma InsertCurrent(p: seq<Option<nat>>, q: seq<Option<nat>>, shown: nat, current: nat)
    requires Last(p + q, shown) == current
    ensures Last(p + [Some(current)] + q, shown) == current
  {
    LastConcat(p, q, shown);
    LastConcat(p + [Some(current)], q, shown);
    LastForgets(q, Last(p, shown), current);
  }

  /** Once the current brightness is pending, dropping what directly follows it is harmless. */
  lemma DropAfterCurrent(p: seq<Option<nat>>, dropped: seq<Option<nat>>, q: seq<Option<nat>>, shown: nat, current: nat)
    requires Last(p + dropped + q, shown) == current
    ensures Last(p + [Some(current)] + q, shown) == current
  {
    LastConcat(p + dropped, q, shown);
    LastConcat(p + [Some(current)], q, shown);
    LastForgets(q, Last(p + dropped, shown), current);
  }

  // ----- The invariant -----

  ghost predicate PastAck(s: State) { s.phase.Fetching? || s.phase.Fetched? || s.phase.Live? }

  ghost predicate Shape(s: State) {
    && s.brightness <= 100
    && (s.acked ==> s.subscribed)
    && (PastAck(s) ==> s.acked)
    && (s.phase.AwaitingAck? ==> (s.acked <==> Subscribed in s.wire))
    && (forall i :: 0 <= i < |s.bus| && s.bus[i].Other? && s.bus[i].update.Some? ==>
          !CarriesBrightness(s.bus[i].update.value))
  }

  /** The last pending brightness, or else the one shown, is the daemon's. */
  ghost predicate Agrees(s: State) {
    Online(s) && !s.announcing ==> Last(Pipeline(s), s.tray.brightness) == s.brightness
  }

  lemma {:induction false} AfterAckGrows(wire: seq<Wire>, m: Wire)
    requires Subscribed in wire
    ensures AfterAck(wire + [m]) == AfterAck(wire) + [m]
  {
    assert wire != [];
    assert (wire + [m])[1..] == wire[1..] + [m];
    if !wire[0].Subscribed? {
      AfterAckGrows(wire[1..], m);
    }
  }

  lemma {:induction false} AfterNewAck(wire: seq<Wire>)
    requires Subscribed !in wire
    ensures AfterAck(wire + [Subscribed]) == []
  {
    if wire != [] {
      assert (wire + [Subscribed])[1..] == wire[1..] + [Subscribed];
      AfterNewAck(wire[1..]);
    }
  }

  /** The part of the wire that will still be acted on. */
  ghost function Heard(s: State): seq<Wire> {
    if s.phase.AwaitingAck? then (if s.acked then AfterAck(s.wire) else []) else s.wire
  }

  /** What precedes the wire in the pipeline. */
  ghost function Ahead(s: State): seq<Option<nat>> {
    match s.phase
    case Offline => []
    case AwaitingAck => [Some(s.brightness)]
    case Fetching(_) => Outbox(s.outbox) + [Some(s.brightness)]
    case Fetched(_, view) => Outbox(s.outbox) + [Some(view.brightness)]
    case Live => Outbox(s.outbox)
  }

  lemma PipelineParts(s: State)
    requires Online(s)
    ensures Pipeline(s) == Ahead(s) + OnWire(Heard(s), s.brightness) + OnBus(s.bus, s.brightness)
  {
  }

  lemma HeardGrows(s: State, s': State, m: Wire)
    requires Shape(s) && Online(s) && s'.phase == s.phase && s'.acked == s.acked && s'.wire == s.wire + [m]
    requires s.acked || !m.Subscribed?
    ensures Heard(s') == if s.phase.AwaitingAck? && !s.acked then Heard(s) else Heard(s) + [m]
  {
    if s.phase.AwaitingAck? && s.acked {
      AfterAckGrows(s.wire, m);
    }
  }

  // ----- Queues, item by item -----

  lemma BusHead(es: seq<Event>, b: nat)
    requires es != []
    ensures OnBus(es, b) == [EventCarries(es[0], b)] + OnBus(es[1..], b)
  {
  }

  lemma WireHead(ms: seq<Wire>, b: nat)
    requires ms != []
    ensures OnWire(ms, b) == [WireCarries(ms[0], b)] + OnWire(ms[1..], b)
  {
  }

  lemma WireEnd(ms: seq<Wire>, m: Wire, b: nat)
    ensures OnWire(ms + [m], b) == OnWire(ms, b) + [WireCarries(m, b)]
  {
  }

  lemma OutboxHead(ms: seq<Message>)
    requires ms != []
    ensures Outbox(ms) == [MessageCarries(ms[0])] + Outbox(ms[1..])
  {
  }

  lemma OutboxEnd(ms: seq<Message>, m: Message)
    ensures Outbox(ms + [m]) == Outbox(ms) + [MessageCarries(m)]
  {
  }

  // ----- One step at a time -----

  lemma RelayAgrees(s: State)
    requires Shape(s) && Agrees(s) && Enabled(s, Relay)
    ensures Agrees(Next(s, Relay))
  {
    if s.subscribed && (s.acked || !s.phase.AwaitingAck?) {
      RelayMoves(s);
    } else {
      RelayDrops(s);
    }
  }

  lemma Regroup(a: seq<Option<nat>>, b: seq<Option<nat>>, c: seq<Option<nat>>, d: seq<Option<nat>>)
    ensures a + (b + c) + d == a + b + (c + d)
  {
  }

  /** Heard: the event moves from the bus to the wire and the pipeline does not change. */
  lemma RelayMoves(s: State)
    requires Shape(s) && Agrees(s) && Enabled(s, Relay) && s.subscribed && (s.acked || !s.phase.AwaitingAck?)
    ensures Agrees(Next(s, Relay))
  {
    var s', b := Next(s, Relay), s.brightness;
    PipelineParts(s);
    PipelineParts(s');
    HeardGrows(s, s', EventMessage(s.bus[0]));
    WireEnd(Heard(s), EventMessage(s.bus[0]), b);
    BusHead(s.bus, b);
    Regroup(Ahead(s), OnWire(Heard(s), b), [EventCarries(s.bus[0], b)], OnBus(s.bus[1..], b));
  }

  /** Not heard: the snapshot still to come covers the event. */
  lemma RelayDrops(s: State)
    requires Shape(s) && Agrees(s) && Enabled(s, Relay) && s.phase.AwaitingAck? && !s.acked
    ensures Agrees(Next(s, Relay))
  {
    var s', b := Next(s, Relay), s.brightness;
    if !s.announcing {
      BusHead(s.bus, b);
      var head, rest := EventCarries(s.bus[0], b), OnBus(s'.bus, b);
      assert Pipeline(s) == [] + [Some(b), head] + rest;
      DropAfterCurrent([], [Some(b), head], rest, s.tray.brightness, b);
      assert Pipeline(s') == [] + [Some(b)] + rest;
    }
  }

  lemma LagAgrees(s: State, n: nat)
    requires Shape(s) && Agrees(s) && Enabled(s, Lag(n))
    ensures Agrees(Next(s, Lag(n)))
  {
    if s.announcing {
    } else if s.subscribed && (s.acked || !s.phase.AwaitingAck?) {
      LagHeard(s, n);
    } else {
      LagUnheard(s, n);
    }
  }

  lemma BusSplit(es: seq<Event>, n: nat, b: nat)
    requires n <= |es|
    ensures OnBus(es, b) == OnBus(es[..n], b) + OnBus(es[n..], b)
  {
  }

  /** Heard: the resync that stands in for the dropped events carries the current brightness. */
  lemma LagHeard(s: State, n: nat)
    requires Shape(s) && Agrees(s) && Enabled(s, Lag(n)) && !s.announcing
    requires s.subscribed && (s.acked || !s.phase.AwaitingAck?)
    ensures Agrees(Next(s, Lag(n)))
  {
    var s', b := Next(s, Lag(n)), s.brightness;
    PipelineParts(s);
    PipelineParts(s');
    BusSplit(s.bus, n, b);
    HeardGrows(s, s', EventMessage(ResyncRequired));
    WireEnd(Heard(s), EventMessage(ResyncRequired), b);
    LagPipeline(Ahead(s), OnWire(Heard(s), b), OnBus(s.bus[..n], b), OnBus(s.bus[n..], b), s.tray.brightness, b);
  }

  lemma LagPipeline(
    ahead: seq<Option<nat>>, wire: seq<Option<nat>>, dropped: seq<Option<nat>>, kept: seq<Option<nat>>,
    shown: nat, b: nat)
    requires Last(ahead + wire + (dropped + kept), shown) == b
    ensures Last(ahead + (wire + [Some(b)]) + kept, shown) == b
  {
    assert ahead + wire + (dropped + kept) == ahead + wire + dropped + kept;
    assert ahead + (wire + [Some(b)]) + kept == ahead + wire + [Some(b)] + kept;
    DropAfterCurrent(ahead + wire, dropped, kept, shown, b);
  }

  /** Not heard: the snapshot still to come covers what was dropped. */
  lemma LagUnheard(s: State, n: nat)
    requires Shape(s) && Agrees(s) && Enabled(s, Lag(n)) && !s.announcing && s.phase.AwaitingAck? && !s.acked
    ensures Agrees(Next(s, Lag(n)))
  {
    var s', b := Next(s, Lag(n)), s.brightness;
    var dropped, kept := OnBus(s.bus[..n], b), OnBus(s.bus[n..], b);
    BusSplit(s.bus, n, b);
    assert Pipeline(s) == [] + ([Some(b)] + dropped) + kept;
    DropAfterCurrent([], [Some(b)] + dropped, kept, s.tray.brightness, b);
    assert Pipeline(s') == [] + [Some(b)] + kept;
  }

  lemma HelloAgrees(s: State, step: Step)
    requires Shape(s) && Agrees(s) && Enabled(s, step) && step.SendHello?
    ensures Agrees(Next(s, step))
  {
    var s', b := Next(s, step), s.brightness;
    PipelineParts(s);
    PipelineParts(s');
    HeardGrows(s, s', s'.wire[|s.wire|]);
    if !s.announcing && Heard(s') != Heard(s) {
      assert OnWire(Heard(s'), b) == OnWire(Heard(s), b) + [Some(b)];
      InsertCurrent(Ahead(s) + OnWire(Heard(s), b), OnBus(s.bus, b), s.tray.brightness, b);
      assert Pipeline(s') == Ahead(s) + OnWire(Heard(s), b) + [Some(b)] + OnBus(s.bus, b);
    }
  }

  lemma BusEnd(es: seq<Event>, e: Event, b: nat)
    ensures OnBus(es + [e], b) == OnBus(es, b) + [EventCarries(e, b)]
  {
  }

  lemma PipelineEnd(s: State, s': State, e: Event)
    requires Online(s) && s'.phase == s.phase && s'.acked == s.acked && s'.wire == s.wire
    requires s'.outbox == s.outbox && s'.brightness == s.brightness && s'.bus == s.bus + [e]
    ensures Pipeline(s') == Pipeline(s) + [EventCarries(e, s.brightness)]
  {
    PipelineParts(s);
    PipelineParts(s');
    BusEnd(s.bus, e, s.brightness);
  }

  lemma PublishAgrees(s: State, step: Step)
    requires Shape(s) && Agrees(s) && Enabled(s, step) && (step.Publish? || step.PublishOther?)
    ensures Agrees(Next(s, step))
  {
    if Online(s) {
      PipelineEnd(s, Next(s, step), if step.Publish? then Brightness(s.brightness) else Other(step.update));
    }
  }

  lemma NoiseAgrees(s: State)
    requires Shape(s) && Agrees(s) && Enabled(s, SendUnrelated)
    ensures Agrees(Next(s, SendUnrelated))
  {
    var s', b := Next(s, SendUnrelated), s.brightness;
    PipelineParts(s);
    PipelineParts(s');
    HeardGrows(s, s', Unrelated);
    if Heard(s') != Heard(s) {
      assert OnWire(Heard(s'), b) == OnWire(Heard(s), b) + [None];
      Quiet(Ahead(s) + OnWire(Heard(s), b), OnBus(s.bus, b), s.tray.brightness);
      assert Pipeline(s') == Ahead(s) + OnWire(Heard(s), b) + [None] + OnBus(s.bus, b);
    }
  }

  /** An item that carries nothing changes nothing. */
  lemma Quiet(p: seq<Option<nat>>, q: seq<Option<nat>>, shown: nat)
    ensures Last(p + [None] + q, shown) == Last(p + q, shown)
  {
    LastConcat(p, q, shown);
    LastConcat(p + [None], q, shown);
  }

  lemma AckAgrees(s: State, step: Step)
    requires Shape(s) && Agrees(s) && Enabled(s, step) && (step.Acknowledge? || step.TakeAck? || step.SwallowBeforeAck?)
    ensures Agrees(Next(s, step))
  {
    var s', b := Next(s, step), s.brightness;
    PipelineParts(s);
    PipelineParts(s');
    match step
    case Acknowledge => if s.phase.AwaitingAck? { AfterNewAck(s.wire); }
    case SwallowBeforeAck => {}
    case TakeAck =>
      var rest := OnWire(s'.wire, b) + OnBus(s.bus, b);
      assert Subscribed in s.wire;
      assert Pipeline(s) == [Some(b)] + rest;
      assert Pipeline(s') == Outbox(s.outbox) + [Some(b)] + rest;
      LastConcat([Some(b)], rest, s.tray.brightness);
      LastConcat(Outbox(s.outbox) + [Some(b)], rest, s.tray.brightness);
  }

  lemma SnapshotAgrees(s: State, step: Step)
    requires Agrees(s) && Enabled(s, step) && (step.ReadSnapshot? || step.SendSnapshot?)
    ensures Agrees(Next(s, step))
  {
    if step.SendSnapshot? {
      OutboxEnd(s.outbox, Message.Connected(s.phase.view));
    }
    assert Pipeline(Next(s, step)) == Pipeline(s);
  }

  lemma ServersAgree(s: State, servers: seq<string>)
    requires Agrees(s) && Enabled(s, SendServers(servers))
    ensures Agrees(Next(s, SendServers(servers)))
  {
    if Online(s) { LiveServersAgree(s, servers); }
  }

  lemma LiveServersAgree(s: State, servers: seq<string>)
    requires Agrees(s) && s.phase.Live?
    ensures Agrees(Next(s, SendServers(servers)))
  {
    var s' := Next(s, SendServers(servers));
    var wire, bus := OnWire(s.wire, s.brightness), OnBus(s.bus, s.brightness);
    assert Pipeline(s) == Outbox(s.outbox) + wire + bus;
    OutboxEnd(s.outbox, ServersUpdated(servers));
    assert Pipeline(s') == Outbox(s.outbox) + [None] + wire + bus;
    QuietInside(Outbox(s.outbox), wire, bus, s.tray.brightness);
  }

  lemma QuietInside(p: seq<Option<nat>>, q: seq<Option<nat>>, r: seq<Option<nat>>, shown: nat)
    ensures Last(p + [None] + q + r, shown) == Last(p + q + r, shown)
  {
    assert p + [None] + q + r == p + [None] + (q + r) && p + q + r == p + (q + r);
    Quiet(p, q + r, shown);
  }

  /** A handled message leaves the wire with what it carries. */
  lemma HandledLeaves(s: State)
    requires Enabled(s, HandleMessage)
    ensures
      var b := s.brightness;
      var rest := OnWire(s.wire[1..], b) + OnBus(s.bus, b);
      Pipeline(s) == Outbox(s.outbox) + [WireCarries(s.wire[0], b)] + rest
  {
    WireHead(s.wire, s.brightness);
  }

  lemma HandleAgrees(s: State)
    requires Shape(s) && Agrees(s) && Enabled(s, HandleMessage)
    ensures Agrees(Next(s, HandleMessage))
  {
    var (sent, resync) := Handled(s.wire[0]);
    HandledLeaves(s);
    if resync {
      HandleResync(s);
    } else if sent == [] {
      HandleQuiet(s);
    } else {
      HandleSends(s, sent[0]);
    }
  }

  lemma HandleResync(s: State)
    requires Enabled(s, HandleMessage) && Handled(s.wire[0]) == ([], true) && Agrees(s)
    ensures Agrees(Next(s, HandleMessage))
  {
    HandledLeaves(s);
    var s', b := Next(s, HandleMessage), s.brightness;
    var rest := OnWire(s.wire[1..], b) + OnBus(s.bus, b);
    assert s'.outbox == s.outbox;
    assert Pipeline(s') == Outbox(s.outbox) + [Some(b)] + rest;
  }

  lemma HandleQuiet(s: State)
    requires Enabled(s, HandleMessage) && Handled(s.wire[0]) == ([], false) && Agrees(s)
    ensures Agrees(Next(s, HandleMessage))
  {
    HandledLeaves(s);
    var s', b := Next(s, HandleMessage), s.brightness;
    var rest := OnWire(s.wire[1..], b) + OnBus(s.bus, b);
    Quiet(Outbox(s.outbox), rest, s.tray.brightness);
    assert WireCarries(s.wire[0], b) == None;
    assert s'.outbox == s.outbox;
    assert Pipeline(s') == Outbox(s.outbox) + rest;
  }

  lemma HandleSends(s: State, m: Message)
    requires Enabled(s, HandleMessage) && Handled(s.wire[0]) == ([m], false) && Agrees(s)
    ensures Agrees(Next(s, HandleMessage))
  {
    HandledLeaves(s);
    var s', b := Next(s, HandleMessage), s.brightness;
    var rest := OnWire(s.wire[1..], b) + OnBus(s.bus, b);
    OutboxEnd(s.outbox, m);
    assert MessageCarries(m) == WireCarries(s.wire[0], b);
    assert s'.outbox == s.outbox + [m];
    assert Pipeline(s') == Outbox(s.outbox) + [MessageCarries(m)] + rest;
  }

  lemma TrayAgrees(s: State)
    requires Shape(s) && Agrees(s) && Enabled(s, TrayTakes)
    ensures Agrees(Next(s, TrayTakes))
  {
    if PastAck(s) {
      TrayDrains(s);
    } else if s.phase.AwaitingAck? {
      var s', b := Next(s, TrayTakes), s.brightness;
      var rest := OnWire(Heard(s), b) + OnBus(s.bus, b);
      assert Pipeline(s) == Pipeline(s') == [Some(b)] + rest;
      LastConcat([Some(b)], rest, s.tray.brightness);
      LastConcat([Some(b)], rest, s'.tray.brightness);
    }
  }

  lemma ShownIsCarried(v: View, m: Message)
    ensures Applied(v, m).brightness == Last([MessageCarries(m)], v.brightness)
  {
  }

  lemma TrayDrains(s: State)
    requires Agrees(s) && Enabled(s, TrayTakes) && PastAck(s)
    ensures Agrees(Next(s, TrayTakes))
  {
    var s' := Next(s, TrayTakes);
    var head := MessageCarries(s.outbox[0]);
    OutboxHead(s.outbox);
    ShownIsCarried(s.tray, s.outbox[0]);
    assert Pipeline(s) == [head] + Pipeline(s');
    LastConcat([head], Pipeline(s'), s.tray.brightness);
  }

  // ----- Runs -----

  lemma StepAgrees(s: State, step: Step)
    requires Shape(s) && Agrees(s) && Enabled(s, step)
    ensures Agrees(Next(s, step))
  {
    match step
    case Store(_) => {}
    case Publish => PublishAgrees(s, step);
    case PublishOther(_) => PublishAgrees(s, step);
    case Relay => RelayAgrees(s);
    case Lag(n) => LagAgrees(s, n);
    case SendHello(_, _, _) => HelloAgrees(s, step);
    case Subscribe => {}
    case Acknowledge => AckAgrees(s, step);
    case SendUnrelated => NoiseAgrees(s);
    case Connect(_, _) => {}
    case SwallowBeforeAck => AckAgrees(s, step);
    case TakeAck => AckAgrees(s, step);
    case ReadSnapshot(_) => SnapshotAgrees(s, step);
    case SendSnapshot => SnapshotAgrees(s, step);
    case HandleMessage => HandleAgrees(s);
    case SendServers(servers) => ServersAgree(s, servers);
    case LoseConnection => {}
    case TrayTakes => TrayAgrees(s);
  }

  lemma StepShape(s: State, step: Step)
    requires Shape(s) && Enabled(s, step)
    ensures Shape(Next(s, step))
  {
  }

  lemma {:induction false} RunAgrees(states: seq<State>, steps: seq<Step>, k: nat)
    requires IsRun(states, steps) && k < |states|
    ensures Shape(states[k]) && Agrees(states[k])
  {
    if k > 0 {
      RunAgrees(states, steps, k - 1);
      StepShape(states[k - 1], steps[k - 1]);
      StepAgrees(states[k - 1], steps[k - 1]);
      assert states[k - 1 + 1] == Next(states[k - 1], steps[k - 1]);
    }
  }

  /**
   In every state of every run, once a connection is up and the daemon has
   published its last change, the last brightness still on its way to the tray
   (or else the one it shows) is the daemon's.
   */
  lemma Convergence(states: seq<State>, steps: seq<Step>, k: nat)
    requires IsRun(states, steps) && k < |states|
    requires Online(states[k]) && !states[k].announcing
    ensures Last(Pipeline(states[k]), states[k].tray.brightness) == states[k].brightness
  {
    RunAgrees(states, steps, k);
  }

  /** So a live connection with drained queues shows the daemon's brightness. */
  lemma DrainedAgreement(states: seq<State>, steps: seq<Step>, k: nat)
    requires IsRun(states, steps) && k < |states|
    requires states[k].phase.Live? && !states[k].announcing
    requires states[k].bus == [] && states[k].wire == [] && states[k].outbox == []
    ensures states[k].tray.brightness == states[k].brightness
  {
    RunAgrees(states, steps, k);
    assert Pipeline(states[k]) == [];
  }

  // ----- A disconnected tray -----

  /** Nothing live is shown without a connection. */
  predicate Quiescent(v: View) {
    !v.connected ==> !v.running && !v.paused && v.activeEffect == None && v.sceneName == None
  }

  /** Whether the tray is connected once it has taken these messages. */
  function ConnectedAfter(ms: seq<Message>, connected: bool): bool {
    if ms == [] then connected
    else
      ConnectedAfter(ms[1..], match ms[0]
                              case Connected(state) => state.connected
                              case Disconnected => false
                              case _ => connected)
  }

  /** Updates only ever reach a connected tray. */
  predicate InOrder(ms: seq<Message>, connected: bool) {
    ms == [] ||
    match ms[0]
    case Connected(state) => state.connected && InOrder(ms[1..], true)
    case Disconnected => InOrder(ms[1..], false)
    case ServersUpdated(_) => InOrder(ms[1..], connected)
    case StateUpdate(_) => connected && InOrder(ms[1..], connected)
  }

  lemma {:induction false} OrderExtends(ms: seq<Message>, m: Message, connected: bool)
    requires InOrder(ms, connected)
    requires m.StateUpdate? ==> ConnectedAfter(ms, connected)
    requires m.Connected? ==> m.state.connected
    ensures InOrder(ms + [m], connected)
    ensures ConnectedAfter(ms + [m], connected) ==
            match m
            case Connected(_) => true
            case Disconnected => false
            case _ => ConnectedAfter(ms, connected)
  {
    if ms == [] {
      assert (ms + [m])[1..] == [];
    } else {
      assert (ms + [m])[1..] == ms[1..] + [m];
      OrderExtends(ms[1..], m, match ms[0] case Connected(_) => true case Disconnected => false case _ => connected);
    }
  }

  /** Whether the tray has been sent this connection's first snapshot. */
  predicate Announced(phase: Phase) {
    phase.Live? || (phase.Fetching? && phase.announced) || (phase.Fetched? && phase.announced)
  }

  ghost predicate Orderly(s: State) {
    && Quiescent(s.tray)
    && InOrder(s.outbox, s.tray.connected)
    && (ConnectedAfter(s.outbox, s.tray.connected) <==> Announced(s.phase))
    && (s.phase.Fetched? ==> s.phase.view.connected)
  }

  /** A message sent in order keeps the outbox in order. */
  lemma SendOrderly(s: State, s': State, m: Message)
    requires Orderly(s) && s'.tray == s.tray && s'.outbox == s.outbox + [m]
    requires (m.StateUpdate? ==> Announced(s.phase)) && (m.Connected? ==> m.state.connected)
    requires Announced(s'.phase) <==> m.Connected? || (!m.Disconnected? && Announced(s.phase))
    requires s'.phase.Fetched? ==> s'.phase.view.connected
    ensures Orderly(s')
  {
    OrderExtends(s.outbox, m, s.tray.connected);
  }

  lemma HandleOrderly(s: State)
    requires Orderly(s) && Enabled(s, HandleMessage)
    ensures Orderly(Next(s, HandleMessage))
  {
    var (sent, _) := Handled(s.wire[0]);
    if sent == [] {
      assert s.outbox + sent == s.outbox;
    } else {
      assert sent == [sent[0]];
      SendOrderly(s, Next(s, HandleMessage), sent[0]);
    }
  }

  lemma SnapshotOrderly(s: State)
    requires Orderly(s) && Enabled(s, SendSnapshot)
    ensures Orderly(Next(s, SendSnapshot))
  {
    SendOrderly(s, Next(s, SendSnapshot), Message.Connected(s.phase.view));
  }

  lemma ServersOrderly(s: State, servers: seq<string>)
    requires Orderly(s) && Enabled(s, SendServers(servers))
    ensures Orderly(Next(s, SendServers(servers)))
  {
    SendOrderly(s, Next(s, SendServers(servers)), ServersUpdated(servers));
  }

  lemma LossOrderly(s: State)
    requires Orderly(s)
    ensures Orderly(Next(s, LoseConnection))
  {
    SendOrderly(s, Next(s, LoseConnection), Disconnected);
  }

  lemma TrayOrderly(s: State)
    requires Orderly(s) && Enabled(s, TrayTakes)
    ensures Orderly(Next(s, TrayTakes))
  {
  }

  lemma StepOrderly(s: State, step: Step)
    requires Orderly(s) && Enabled(s, step)
    ensures Orderly(Next(s, step))
  {
    match step
    case SendSnapshot => SnapshotOrderly(s);
    case HandleMessage => HandleOrderly(s);
    case SendServers(servers) => ServersOrderly(s, servers);
    case LoseConnection => LossOrderly(s);
    case TrayTakes => TrayOrderly(s);
    case _ => QuietStep(s, step);
  }

  /** The other steps neither send anything nor reach the tray, and announce nothing. */
  lemma QuietStep(s: State, step: Step)
    requires Enabled(s, step) && (s.phase.Fetched? ==> s.phase.view.connected)
    requires !step.SendSnapshot? && !step.HandleMessage? && !step.SendServers?
    requires !step.LoseConnection? && !step.TrayTakes?
    ensures
      var s' := Next(s, step);
      && s'.tray == s.tray && s'.outbox == s.outbox
      && Announced(s'.phase) == Announced(s.phase) && (s'.phase.Fetched? ==> s'.phase.view.connected)
  {
  }

  /** In every run, a disconnected tray shows neither running, nor paused, nor an effect, nor a scene. */
  lemma {:induction false} DisconnectedShowsNothing(states: seq<State>, steps: seq<Step>, k: nat)
    requires IsRun(states, steps) && k < |states|
    ensures Orderly(states[k])
    ensures !states[k].tray.connected ==>
              && !states[k].tray.running && !states[k].tray.paused
              && states[k].tray.activeEffect == None && states[k].tray.sceneName == None
  {
    if k > 0 {
      DisconnectedShowsNothing(states, steps, k - 1);
      StepOrderly(states[k - 1], steps[k - 1]);
      assert states[k - 1 + 1] == Next(states[k - 1], steps[k - 1]);
    }
  }
}

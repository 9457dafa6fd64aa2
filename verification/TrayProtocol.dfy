/**
 One tray client following one daemon at a time: store, publish, relay, lag,
 subscribe, acknowledge, snapshot, replay, resync and disconnect, in every
 interleaving. Each queue item is reduced to the brightness it carries, if any.
 */
module TrayProtocol {
  import opened Common
  import opened TrayState

  /** Events on the daemon's bus. Only the first kind carries a brightness. */
  datatype Event =
    | Brightness(value: nat)
    | ResyncRequired
    | Other(update: Option<Update>)

  datatype Wire =
    | Hello(running: bool, paused: bool, brightness: nat, count: nat)
    | Subscribed
    | EventMessage(event: Event)
    | Unrelated

  /** `announced`: the tray has already been sent this connection's first snapshot. */
  datatype Phase =
    | Offline
    | AwaitingAck
    | Fetching(announced: bool)
    | Fetched(announced: bool, view: View)
    | Live

  datatype State = State(
    brightness: nat,
    announcing: bool,
    bus: seq<Event>,
    subscribed: bool,
    acked: bool,
    wire: seq<Wire>,
    phase: Phase,
    outbox: seq<Message>,
    tray: View)

  datatype Step =
    | Store(value: nat)
    | Publish
    | PublishOther(update: Option<Update>)
    | Relay
    | Lag(dropped: nat)
    | SendHello(running: bool, paused: bool, count: nat)
    | Subscribe
    | Acknowledge
    | SendUnrelated
    | Connect(value: nat, busy: bool)
    | SwallowBeforeAck
    | TakeAck
    | ReadSnapshot(view: View)
    | SendSnapshot
    | HandleMessage
    | SendServers(servers: seq<string>)
    | LoseConnection
    | TrayTakes

  predicate CarriesBrightness(update: Update) {
    update.BrightnessChanged? || update.Snapshot?
  }

  predicate Online(s: State) { !s.phase.Offline? }

  ghost predicate Enabled(s: State, step: Step) {
    match step
    case Store(value) => !s.announcing && value <= 100
    case Publish => s.announcing
    case PublishOther(update) => Online(s) && (update.Some? ==> !CarriesBrightness(update.value))
    case Relay => Online(s) && s.bus != []
    case Lag(dropped) => Online(s) && 1 <= dropped <= |s.bus|
    case SendHello(_, _, _) => Online(s)
    case Subscribe => Online(s) && !s.subscribed
    case Acknowledge => Online(s) && s.subscribed && !s.acked
    case SendUnrelated => Online(s)
    case Connect(value, _) => s.phase.Offline? && value <= 100
    case SwallowBeforeAck => s.phase.AwaitingAck? && s.wire != [] && !s.wire[0].Subscribed?
    case TakeAck => s.phase.AwaitingAck? && s.wire != [] && s.wire[0].Subscribed?
    case ReadSnapshot(view) => s.phase.Fetching? && view.connected && view.brightness == s.brightness
    case SendSnapshot => s.phase.Fetched?
    case HandleMessage => s.phase.Live? && s.wire != []
    case SendServers(_) => s.phase.Offline? || s.phase.Live?
    case LoseConnection => true
    case TrayTakes => s.outbox != []
  }

  /** `handle_ws_message` on one queued message: what it sends, and whether it resyncs. */
  function Handled(m: Wire): (seq<Message>, bool) {
    match m
    case Hello(running, paused, brightness, count) =>
      ([StateUpdate(Snapshot(running, paused, brightness, count))], false)
    case Subscribed => ([], false)
    case Unrelated => ([], false)
    case EventMessage(event) =>
      match event
      case Brightness(value) => ([StateUpdate(BrightnessChanged(if value <= 100 then value else 100))], false)
      case ResyncRequired => ([], true)
      case Other(update) => (if update.Some? then [StateUpdate(update.value)] else [], false)
  }

  ghost function Next(s: State, step: Step): State
    requires Enabled(s, step)
  {
    match step
    case Store(value) => s.(brightness := value, announcing := true)
    case Publish => s.(announcing := false, bus := if Online(s) then s.bus + [Brightness(s.brightness)] else s.bus)
    case PublishOther(update) => s.(bus := s.bus + [Other(update)])
    case Relay =>
      s.(bus := s.bus[1..], wire := if s.subscribed then s.wire + [EventMessage(s.bus[0])] else s.wire)
    case Lag(dropped) =>
      s.(bus := s.bus[dropped..], wire := if s.subscribed then s.wire + [EventMessage(ResyncRequired)] else s.wire)
    case SendHello(running, paused, count) => s.(wire := s.wire + [Hello(running, paused, s.brightness, count)])
    case Subscribe => s.(subscribed := true)
    case Acknowledge => s.(acked := true, wire := s.wire + [Subscribed])
    case SendUnrelated => s.(wire := s.wire + [Unrelated])
    case Connect(value, busy) =>
      s.(brightness := value, announcing := busy, bus := [], subscribed := false, acked := false, wire := [],
         phase := AwaitingAck)
    case SwallowBeforeAck => s.(wire := s.wire[1..])
    case TakeAck => s.(wire := s.wire[1..], phase := Fetching(false))
    case ReadSnapshot(view) => s.(phase := Fetched(s.phase.announced, view))
    case SendSnapshot => s.(phase := Live, outbox := s.outbox + [Message.Connected(s.phase.view)])
    case HandleMessage =>
      var (sent, resync) := Handled(s.wire[0]);
      s.(wire := s.wire[1..], outbox := s.outbox + sent, phase := if resync then Fetching(true) else Live)
    case SendServers(servers) => s.(outbox := s.outbox + [ServersUpdated(servers)])
    case LoseConnection => s.(phase := Offline, outbox := s.outbox + [Disconnected])
    case TrayTakes => s.(outbox := s.outbox[1..], tray := Applied(s.tray, s.outbox[0]))
  }

  ghost predicate Init(s: State) {
    && s.phase == Offline && s.outbox == [] && s.bus == [] && s.wire == []
    && !s.subscribed && !s.acked && s.brightness <= 100
    && !s.tray.connected && !s.tray.running && !s.tray.paused && s.tray.activeEffect == None && s.tray.sceneName == None
  }

  ghost predicate IsRun(states: seq<State>, steps: seq<Step>) {
    && |states| == |steps| + 1
    && Init(states[0])
    && forall i :: 0 <= i < |steps| ==> Enabled(states[i], steps[i]) && states[i + 1] == Next(states[i], steps[i])
  }

  // ----- What each queue still carries -----

  function MessageCarries(m: Message): Option<nat> {
    match m
    case Connected(state) => Some(state.brightness)
    case Disconnected => None
    case ServersUpdated(_) => None
    case StateUpdate(update) => if CarriesBrightness(update) then Some(update.brightness) else None
  }

  function EventCarries(e: Event, current: nat): Option<nat> {
    match e
    case Brightness(value) => Some(if value <= 100 then value else 100)
    case ResyncRequired => Some(current)
    case Other(update) =>
      if update.Some? && CarriesBrightness(update.value) then Some(update.value.brightness) else None
  }

  function WireCarries(m: Wire, current: nat): Option<nat> {
    match m
    case Hello(_, _, brightness, _) => Some(brightness)
    case Subscribed => None
    case Unrelated => None
    case EventMessage(event) => EventCarries(event, current)
  }

  function Outbox(ms: seq<Message>): (r: seq<Option<nat>>)
    ensures |r| == |ms|
  {
    seq(|ms|, i requires 0 <= i < |ms| => MessageCarries(ms[i]))
  }

  function OnWire(ms: seq<Wire>, current: nat): (r: seq<Option<nat>>)
    ensures |r| == |ms|
  {
    seq(|ms|, i requires 0 <= i < |ms| => WireCarries(ms[i], current))
  }

  function OnBus(es: seq<Event>, current: nat): (r: seq<Option<nat>>)
    ensures |r| == |es|
  {
    seq(|es|, i requires 0 <= i < |es| => EventCarries(es[i], current))
  }

  /** The last brightness a pipeline carries, or else `shown`. */
  function Last(p: seq<Option<nat>>, shown: nat): nat {
    if p == [] then shown
    else if p[|p| - 1].Some? then p[|p| - 1].value
    else Last(p[..|p| - 1], shown)
  }

  /** Messages the client will still look at: those after the acknowledgment. */
  function AfterAck(wire: seq<Wire>): seq<Wire> {
    if wire == [] then [] else if wire[0].Subscribed? then wire[1..] else AfterAck(wire[1..])
  }

  /** Everything between the daemon and the tray, in the order the tray will see it. */
  ghost function Pipeline(s: State): seq<Option<nat>> {
    match s.phase
    case Offline => []
    case AwaitingAck =>
      [Some(s.brightness)] + (if s.acked then OnWire(AfterAck(s.wire), s.brightness) else [])
      + OnBus(s.bus, s.brightness)
    case Fetching(_) =>
      Outbox(s.outbox) + [Some(s.brightness)] + OnWire(s.wire, s.brightness) + OnBus(s.bus, s.brightness)
    case Fetched(_, view) =>
      Outbox(s.outbox) + [Some(view.brightness)] + OnWire(s.wire, s.brightness) + OnBus(s.bus, s.brightness)
    case Live => Outbox(s.outbox) + OnWire(s.wire, s.brightness) + OnBus(s.bus, s.brightness)
  }
}

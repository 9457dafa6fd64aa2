/** The tray's view of the daemon, and what each client message does to it. */
module TrayState {
  import opened Common

  datatype Effect = Effect(id: string, name: string)

  datatype Scene = Scene(id: string, name: string)

  /** The fields of `AppState` as one value. */
  datatype View = View(
    connected: bool,
    running: bool,
    paused: bool,
    brightness: nat,
    activeEffect: Option<Effect>,
    sceneName: Option<string>,
    sceneLocked: bool,
    deviceCount: nat,
    effects: seq<Effect>,
    scenes: seq<Scene>,
    server: Option<string>,
    servers: seq<string>,
    activeServer: Option<nat>)

  datatype Update =
    | EffectChanged(id: string, name: string)
    | EffectStopped
    | SceneChanged(scene: Option<string>, locked: bool)
    | BrightnessChanged(brightness: nat)
    | Paused
    | Resumed
    | DeviceCountChanged(count: nat)
    | EffectsRefreshed(effects: seq<Effect>)
    | Snapshot(running: bool, paused: bool, brightness: nat, count: nat)

  datatype Message =
    | Connected(state: View)
    | Disconnected
    | ServersUpdated(servers: seq<string>)
    | StateUpdate(update: Update)

  function Updated(v: View, update: Update): View {
    match update
    case EffectChanged(id, name) => v.(activeEffect := Some(Effect(id, name)), paused := false)
    case EffectStopped => v.(activeEffect := None, paused := false)
    case SceneChanged(scene, locked) => v.(sceneName := scene, sceneLocked := locked)
    case BrightnessChanged(brightness) => v.(brightness := brightness)
    case Paused => v.(paused := true)
    case Resumed => v.(paused := false)
    case DeviceCountChanged(count) => v.(deviceCount := count)
    case EffectsRefreshed(effects) => v.(effects := effects)
    case Snapshot(running, paused, brightness, count) =>
      v.(running := running, paused := paused, brightness := brightness, deviceCount := count)
  }

  function Applied(v: View, message: Message): View {
    match message
    case Connected(state) => state
    case Disconnected =>
      v.(connected := false, running := false, paused := false, activeEffect := None, sceneName := None,
         sceneLocked := false, deviceCount := 0, server := None, activeServer := None)
    case ServersUpdated(servers) => v.(servers := servers)
    case StateUpdate(update) => Updated(v, update)
  }

  /** Field by field: which updates move it, and to what. */
  lemma UpdatedFields(v: View, u: Update)
    ensures
      var w := Updated(v, u);
      && w.brightness == (if u.BrightnessChanged? || u.Snapshot? then u.brightness else v.brightness)
      && w.running == (if u.Snapshot? then u.running else v.running)
      && w.paused == (if u.Paused? then true
                      else if u.Resumed? || u.EffectChanged? || u.EffectStopped? then false
                      else if u.Snapshot? then u.paused else v.paused)
      && w.activeEffect == (if u.EffectChanged? then Some(Effect(u.id, u.name))
                            else if u.EffectStopped? then None else v.activeEffect)
      && w.sceneName == (if u.SceneChanged? then u.scene else v.sceneName)
      && w.sceneLocked == (if u.SceneChanged? then u.locked else v.sceneLocked)
      && w.deviceCount == (if u.DeviceCountChanged? || u.Snapshot? then u.count else v.deviceCount)
      && w.effects == (if u.EffectsRefreshed? then u.effects else v.effects)
      && (w.connected, w.scenes, w.server, w.servers, w.activeServer)
         == (v.connected, v.scenes, v.server, v.servers, v.activeServer)
  {
  }

  /** A message gives the connection's state, forgets everything live, or moves one part only. */
  lemma AppliedFields(v: View, m: Message)
    ensures
      var w := Applied(v, m);
      && w.brightness == (if m.Connected? then m.state.brightness
                          else if m.StateUpdate? then Updated(v, m.update).brightness else v.brightness)
      && (m.Connected? ==> w == m.state)
      && (m.Disconnected? ==>
            && !w.connected && !w.running && !w.paused && !w.sceneLocked && w.deviceCount == 0
            && w.activeEffect == None && w.sceneName == None && w.server == None && w.activeServer == None)
      && (!m.Connected? ==> w.scenes == v.scenes)
      && w.servers == (if m.Connected? then m.state.servers
                       else if m.ServersUpdated? then m.servers else v.servers)
      && w.effects == (if m.Connected? then m.state.effects
                       else if m.StateUpdate? then Updated(v, m.update).effects else v.effects)
      && (m.ServersUpdated? ==> w.(servers := v.servers) == v)
  {
  }

  class AppState {
    var connected: bool
    var running: bool
    var paused: bool
    var brightness: nat
    var activeEffect: Option<Effect>
    var sceneName: Option<string>
    var sceneLocked: bool
    var deviceCount: nat
    var effects: seq<Effect>
    var scenes: seq<Scene>
    var server: Option<string>
    var servers: seq<string>
    var activeServer: Option<nat>

    function AsView(): View
      reads this
    {
      View(connected, running, paused, brightness, activeEffect, sceneName, sceneLocked, deviceCount,
           effects, scenes, server, servers, activeServer)
    }

    /** `AppState::disconnected`. */
    constructor ()
      ensures AsView() == View(false, false, false, 0, None, None, false, 0, [], [], None, [], None)
    {
      connected, running, paused, brightness := false, false, false, 0;
      activeEffect, sceneName, sceneLocked, deviceCount := None, None, false, 0;
      effects, scenes, server, servers, activeServer := [], [], None, [], None;
    }

    method ApplyMessage(message: Message)
      modifies this
      ensures AsView() == Applied(old(AsView()), message)
    {
      match message
      case Connected(state) => Replace(state);
      case Disconnected => Disconnect();
      case ServersUpdated(next) => servers := next;
      case StateUpdate(update) => ApplyUpdate(update);
    }

    method Disconnect()
      modifies this
      ensures AsView() == Applied(old(AsView()), Disconnected)
    {
      connected, running, paused := false, false, false;
      activeEffect, sceneName, sceneLocked := None, None, false;
      deviceCount, server, activeServer := 0, None, None;
    }

    method Replace(state: View)
      modifies this
      ensures AsView() == state
    {
      connected, running, paused, brightness := state.connected, state.running, state.paused, state.brightness;
      activeEffect, sceneName, sceneLocked := state.activeEffect, state.sceneName, state.sceneLocked;
      deviceCount, effects, scenes := state.deviceCount, state.effects, state.scenes;
      server, servers, activeServer := state.server, state.servers, state.activeServer;
    }

    method ApplyUpdate(update: Update)
      modifies this
      ensures AsView() == Updated(old(AsView()), update)
    {
      match update
      case EffectChanged(id, name) =>
        activeEffect := Some(Effect(id, name));
        paused := false;
      case EffectStopped =>
        activeEffect := None;
        paused := false;
      case SceneChanged(scene, locked) =>
        sceneName := scene;
        sceneLocked := locked;
      case BrightnessChanged(value) => brightness := value;
      case Paused => paused := true;
      case Resumed => paused := false;
      case DeviceCountChanged(count) => deviceCount := count;
      case EffectsRefreshed(next) => effects := next;
      case Snapshot(isRunning, isPaused, value, count) =>
        running := isRunning;
        paused := isPaused;
        brightness := value;
        deviceCount := count;
    }
  }
}

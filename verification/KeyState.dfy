/**
 The key state that the daemon keeps under its lock, and what each of its
 handlers does to it while holding the lock.  Order of the events is the order
 in which the handlers take the lock.
 */
module KeyState {
  import opened Words

  /** One entry of the 256-entry table. */
  datatype KeyMeta = KeyMeta(
    pressed: bool,
    lastEdge: U64,
    lastSnapshot: U64,
    upMarker: Option<U64>,
    stuckReported: bool)

  const FRESH_KEY := KeyMeta(false, 0, 0, None, false)

  type KeyTable = m: seq<KeyMeta> | |m| == 256 witness seq(256, u => FRESH_KEY)

  datatype State = State(pressed: set<Byte>, modifiers: Byte, keymeta: KeyTable)

  /** The state that main() starts from. */
  function Initial(): State {
    State({}, 0, seq(256, u => FRESH_KEY))
  }

  datatype Config = Config(watchdogMs: I32, deadlineMs: I32, stuckMs: I32) {
    function WatchdogNs(): int { watchdogMs * 1000000 }

    function DeadlineNs(): int { deadlineMs * 1000000 }

    function StuckNs(): int { stuckMs * 1000000 }
  }

  // The usages a snapshot bitmap can name once decoded.
  predicate IsKeyboardUsage(u: int) { 0x04 <= u <= 0xA5 }

  type HidKeys = s: set<Byte> | forall u <- s :: IsKeyboardUsage(u)

  // The usages a text edge can name; zero stands for no key.
  type TextUsage = u: int | u == 0 || 0x04 <= u <= 0x1D || u == 0x28

  /** What reaches the daemon.  `now` is the clock value that the handler read. */
  datatype Event =
    | UdpEdge(now: U64, stamp: U64, key: TextUsage, down: bool)
    | UdpMarker(now: U64, stamp: U64, key: TextUsage)
    | QuicEdge(now: U64, tMs: U64, usage: U16, cmd: Byte, mods: Byte)
    | Snapshot(now: U64, keys: HidKeys, mods: Byte)
    | Tick(now: U64)

  // Deadline filters

  /** Nanoseconds to milliseconds; the daemon's double is taken as an exact rational. */
  function NsToMs(ns: int): real {
    ns as real / 1000000.0
  }

  /** A message without a stamp counts as sent now. */
  function EffectiveStamp(now: U64, stamp: U64): U64 {
    if stamp == 0 then now else stamp
  }

  predicate UdpAccepts(cfg: Config, now: U64, stamp: U64) {
    !(cfg.deadlineMs > 0 &&
      NsToMs(Wrap64(now - EffectiveStamp(now, stamp))) > cfg.deadlineMs as real)
  }

  predicate QuicAccepts(cfg: Config, now: U64, tMs: U64) {
    var nowMs := now / 1000000;
    var dtMs := if nowMs >= tMs then nowMs - tMs else 0;
    !(cfg.deadlineMs > 0 && dtMs > cfg.deadlineMs)
  }

  // Effects under the lock

  function ApplyEdge(s: State, u: Byte, down: bool, now: U64): State {
    var km := s.keymeta[u].(lastEdge := now, pressed := down, stuckReported := false);
    if down then
      s.(pressed := s.pressed + {u}, keymeta := s.keymeta[u := km])
    else
      s.(pressed := s.pressed - {u}, keymeta := s.keymeta[u := km.(upMarker := None)])
  }

  function ApplySnapshot(s: State, keys: set<Byte>, mods: Byte, now: U64): State {
    State(keys, mods, seq(256, u requires 0 <= u < 256 =>
      if u in keys then s.keymeta[u].(pressed := true, lastSnapshot := now)
      else if u in s.pressed then s.keymeta[u].(pressed := false, upMarker := None)
      else s.keymeta[u]))
  }

  predicate IsStuck(cfg: Config, km: KeyMeta, now: U64) {
    && cfg.stuckMs > 0 && km.lastEdge != 0 && !km.stuckReported
    && Wrap64(now - km.lastEdge) > cfg.StuckNs()
  }

  predicate IsExpired(cfg: Config, km: KeyMeta, now: U64) {
    && cfg.watchdogMs > 0 && km.lastSnapshot != 0
    && Wrap64(now - km.lastSnapshot) > cfg.WatchdogNs()
  }

  function TickKey(cfg: Config, km: KeyMeta, now: U64): KeyMeta {
    var km1 := if IsStuck(cfg, km, now) then km.(stuckReported := true) else km;
    if IsExpired(cfg, km, now) then km1.(pressed := false, upMarker := None) else km1
  }

  function ApplyTick(cfg: Config, s: State, now: U64): State {
    State(
      (set u | u in s.pressed && !IsExpired(cfg, s.keymeta[u], now)),
      s.modifiers,
      seq(256, u requires 0 <= u < 256 =>
        if u in s.pressed then TickKey(cfg, s.keymeta[u], now) else s.keymeta[u]))
  }

  function Step(cfg: Config, s: State, e: Event): State {
    match e
    case UdpEdge(now, stamp, key, down) =>
      if UdpAccepts(cfg, now, stamp) && key != 0 then ApplyEdge(s, key, down, now) else s
    case UdpMarker(now, stamp, key) =>
      if UdpAccepts(cfg, now, stamp) && key != 0 then
        s.(keymeta := s.keymeta[key := s.keymeta[key].(upMarker := Some(EffectiveStamp(now, stamp)))])
      else s
    case QuicEdge(now, tMs, usage, cmd, mods) =>
      if QuicAccepts(cfg, now, tMs) && usage < 256 then
        ApplyEdge(s.(modifiers := mods), usage, cmd == 1, now)
      else s
    case Snapshot(now, keys, mods) => ApplySnapshot(s, keys, mods, now)
    case Tick(now) => ApplyTick(cfg, s, now)
  }

  /** Whether the handler goes on to read six keys and send a report. */
  predicate Sends(cfg: Config, s: State, e: Event) {
    match e
    case UdpEdge(now, stamp, key, _) => UdpAccepts(cfg, now, stamp) && key != 0
    case UdpMarker(_, _, _) => false
    case QuicEdge(now, tMs, usage, _, _) => QuicAccepts(cfg, now, tMs) && usage < 256
    case Snapshot(_, _, _) => true
    case Tick(now) => exists u <- s.pressed :: IsExpired(cfg, s.keymeta[u], now)
  }

  /** The state after the first `n` events of `es`. */
  function After(cfg: Config, s: State, es: seq<Event>, n: nat): State
    requires n <= |es|
  {
    if n == 0 then s else Step(cfg, After(cfg, s, es, n - 1), es[n - 1])
  }

  // What is reported

  /** The lines on the daemon's error stream that its evaluation counts. */
  datatype Line =
    | Heal(key: Byte, ageMs: real)
    | Stuck(key: Byte, ageMs: real)
    | Watchdog(key: Byte, ageMs: real)

  predicate Heals(s: State, keys: set<Byte>, u: Byte) {
    u in s.pressed && u !in keys && s.keymeta[u].upMarker.Some?
  }

  /** What a handler may put in a report: at most six pressed keys, in any order. */
  ghost predicate IsSelection(v: seq<Byte>, pressed: set<Byte>) {
    && |v| == Min(6, |pressed|)
    && (forall i, j :: 0 <= i < j < |v| ==> v[i] != v[j])
    && (forall i :: 0 <= i < |v| ==> v[i] in pressed)
  }

  // The two parts of the state that a report shows.
  function View(s: State): (set<Byte>, Byte) {
    (s.pressed, s.modifiers)
  }
}

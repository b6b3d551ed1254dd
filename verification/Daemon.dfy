/**
 The daemon's state and handlers as they work: a set, a modifier byte and a table of 256
 entries, changed in place.  Each method is one section under the lock, and is proved
 against the functions of `KeyState`.
 */
module Daemon {
  import opened Words
  import opened KeyState
  import opened SnapshotCodec

  /** The eight bytes of a boot keyboard report: modifiers, a reserved zero, six keys. */
  type Report = r: seq<Byte> | |r| == 8 witness seq(8, _ => 0)

  function ReportOf(keys: seq<Byte>, mods: Byte): Report {
    [mods, 0] + seq(6, i requires 0 <= i < 6 => if i < |keys| then keys[i] else 0)
  }

  /** Fills an array that starts out zero, as the C++ aggregate does. */
  method BuildHidReport(keys: seq<Byte>, mods: Byte) returns (r: Report)
    ensures r[0] == mods && r[1] == 0
    ensures forall i :: 0 <= i < 6 ==> r[2 + i] == if i < |keys| then keys[i] else 0
    ensures r == ReportOf(keys, mods)
  {
    var bytes := new Byte[8](_ => 0);
    bytes[0] := mods;
    bytes[1] := 0;
    var i := 0;
    while i < 6 && i < |keys|
      invariant 0 <= i <= 6 && i <= |keys|
      invariant bytes[0] == mods && bytes[1] == 0
      invariant forall j :: 0 <= j < i ==> bytes[2 + j] == keys[j]
      invariant forall j :: 2 + i <= j < 8 ==> bytes[j] == 0
    {
      bytes[2 + i] := keys[i];
      i := i + 1;
    }
    r := bytes[..];
    assert r == ReportOf(keys, mods);
  }

  // The keys of a bitmap below `n`: what the decoder has found so far.
  function KeysBelow(data: seq<Byte>, n: nat): HidKeys
    requires |data| >= 52
  {
    set u: Byte | u < n && IsKeyboardUsage(u) && Bit(data[20 + u / 8], u % 8)
  }

  lemma OneMoreBit(data: seq<Byte>, n: Byte)
    requires |data| >= 52
    ensures KeysBelow(data, n + 1) ==
      KeysBelow(data, n) + if IsKeyboardUsage(n) && Bit(data[20 + n / 8], n % 8) then {n} else {}
  {
  }

  lemma SkippedByte(data: seq<Byte>, i: nat)
    requires |data| >= 52 && i < 32 && data[20 + i] == 0
    ensures KeysBelow(data, 8 * i + 8) == KeysBelow(data, 8 * i)
  {
    forall u: Byte | 8 * i <= u < 8 * i + 8
      ensures !Bit(data[20 + u / 8], u % 8)
    {
      ZeroHasNoBits(u % 8);
      assert u / 8 == i;
    }
  }

  /** The decoder's two loops over the 32 bytes of the bitmap. */
  method DecodeBitmap(data: seq<Byte>) returns (keys: HidKeys)
    requires |data| >= 52
    ensures keys == DecodeKeys(data)
  {
    keys := {};
    var byteIdx := 0;
    while byteIdx < 32
      invariant 0 <= byteIdx <= 32
      invariant keys == KeysBelow(data, 8 * byteIdx)
    {
      var b := data[20 + byteIdx];
      if b == 0 {
        SkippedByte(data, byteIdx);
        byteIdx := byteIdx + 1;
        continue;
      }
      var bit := 0;
      while bit < 8
        invariant 0 <= bit <= 8
        invariant keys == KeysBelow(data, 8 * byteIdx + bit)
      {
        var usage: Byte := byteIdx * 8 + bit;
        OneMoreBit(data, usage);
        assert usage / 8 == byteIdx && usage % 8 == bit;
        if Bit(b, bit) {
          if IsKeyboardUsage(usage) {
            keys := keys + {usage};
          }
        }
        bit := bit + 1;
      }
      byteIdx := byteIdx + 1;
    }
  }

  // What is printed about one key.

  function HealLine(km: KeyMeta, u: Byte, now: U64): seq<Line> {
    match km.upMarker
    case Some(m) => [Heal(u, NsToMs(Wrap64(now - m)))]
    case None => []
  }

  function TickLines(cfg: Config, km: KeyMeta, u: Byte, now: U64): seq<Line> {
    (if IsStuck(cfg, km, now) then [Stuck(u, NsToMs(Wrap64(now - km.lastEdge)))] else []) +
    (if IsExpired(cfg, km, now) then [Watchdog(u, NsToMs(Wrap64(now - km.lastSnapshot)))] else [])
  }

  /** What a section has to tell about each key, given the table it found. */
  datatype Account =
    | HealAccount(table: KeyTable, now: U64)
    | TickAccount(cfg: Config, table: KeyTable, now: U64)
  {
    function About(u: Byte): seq<Line> {
      match this
      case HealAccount(table, now) => HealLine(table[u], u, now)
      case TickAccount(cfg, table, now) => TickLines(cfg, table[u], u, now)
    }
  }

  function LinesInOrder(a: Account, order: seq<Byte>): seq<Line> {
    if order == [] then []
    else LinesInOrder(a, order[..|order| - 1]) + a.About(order[|order| - 1])
  }

  /** `lines` tells about each key of `among` once, taking the keys in some order. */
  ghost predicate PrintsEach(lines: seq<Line>, among: set<Byte>, a: Account) {
    exists order: seq<Byte> ::
      |order| == |among| && (forall u: Byte :: u in order <==> u in among) && lines == LinesInOrder(a, order)
  }

  lemma NothingPrinted(a: Account)
    ensures PrintsEach([], {}, a)
  {
    var order: seq<Byte> := [];
    assert LinesInOrder(a, order) == [];
  }

  lemma OneMorePrinted(lines: seq<Line>, among: set<Byte>, a: Account, u: Byte)
    requires PrintsEach(lines, among, a) && u !in among
    ensures PrintsEach(lines + a.About(u), among + {u}, a)
  {
    hide LinesInOrder, HealLine, TickLines;
    var order: seq<Byte> :|
      |order| == |among| && (forall u: Byte :: u in order <==> u in among) && lines == LinesInOrder(a, order);
    var order' := order + [u];
    OneMoreInOrder(a, order, u);
    forall v: Byte
      ensures v in order' <==> v in among + {u}
    {
      assert v in order' <==> v in order || v == u;
    }
  }

  lemma OneMoreInOrder(a: Account, order: seq<Byte>, u: Byte)
    ensures LinesInOrder(a, order + [u]) == LinesInOrder(a, order) + a.About(u)
  {
    hide HealLine, TickLines;
    assert (order + [u])[..|order|] == order;
  }

  class KeyDaemon {
    const cfg: Config
    var pressed: set<Byte>
    var modifiers: Byte
    const keymeta: array<KeyMeta>
    var printed: seq<Line>

    ghost predicate Valid()
      reads this
    {
      keymeta.Length == 256
    }

    ghost function Now(): State
      requires Valid()
      reads this, keymeta
    {
      State(pressed, modifiers, keymeta[..])
    }

    constructor (cfg: Config)
      ensures Valid() && fresh(keymeta)
      ensures this.cfg == cfg && Now() == Initial() && printed == []
    {
      this.cfg := cfg;
      pressed, modifiers, printed := {}, 0, [];
      keymeta := new KeyMeta[256](_ => FRESH_KEY);
      new;
      assert keymeta[..] == Initial().keymeta;
    }

    /** parse_snapshot: false and no change for a short record, else the whole reconciliation. */
    method ParseSnapshot(data: seq<Byte>, now: U64) returns (ok: bool)
      requires Valid()
      modifies this`pressed, this`modifiers, this`printed, keymeta
      ensures Valid() && ok == (|data| >= 52)
      ensures !ok ==> Now() == old(Now()) && printed == old(printed)
      ensures ok ==> Now() == Step(cfg, old(Now()), Snapshot(now, DecodeKeys(data), DecodeMods(data)))
      ensures ok ==> old(printed) <= printed
      ensures ok ==> PrintsEach(printed[|old(printed)|..], old(pressed) - DecodeKeys(data),
                                HealAccount(old(keymeta[..]), now))
    {
      if |data| < 52 {
        return false;
      }
      hide PrintsEach, HealLine, DecodeKeys, DecodeMods, Step;
      ghost var s := Now();
      var newPressed := DecodeBitmap(data);
      modifiers := DecodeMods(data);
      LetGo(newPressed, now);
      pressed := newPressed;
      Confirm(now);
      SnapshotTable(cfg, s, Now(), now);
      return true;
    }

    /** The first loop of the reconciliation, over the keys that were pressed. */
    method LetGo(newPressed: set<Byte>, now: U64)
      requires Valid()
      modifies this`printed, keymeta
      ensures forall u: Byte :: keymeta[u] == Released(old(keymeta[u]), u in pressed && u !in newPressed)
      ensures old(printed) <= printed
      ensures PrintsEach(printed[|old(printed)|..], pressed - newPressed, HealAccount(old(keymeta[..]), now))
    {
      hide PrintsEach, HealLine;
      ghost var table := keymeta[..];
      ghost var lines: seq<Line>, done: set<Byte>, told: set<Byte> := [], {}, {};
      NothingPrinted(HealAccount(table, now));
      var todo := pressed;
      while todo != {}
        invariant forall u: Byte :: u in done <==> u in pressed && u !in todo
        invariant forall u: Byte :: u in told <==> u in done && u !in newPressed
        invariant printed == old(printed) + lines
        invariant forall u: Byte :: keymeta[u] == Released(table[u], u in done && u !in newPressed)
        invariant PrintsEach(lines, told, HealAccount(table, now))
      {
        var u :| u in todo;
        if u !in newPressed {
          OneMorePrinted(lines, told, HealAccount(table, now), u);
          LetGoOne(u, now);
          lines, told := lines + HealLine(table[u], u, now), told + {u};
        }
        todo, done := todo - {u}, done + {u};
      }
      assert told == pressed - newPressed;
      assert printed[|old(printed)|..] == lines;
    }

    /** The body of that loop. */
    method LetGoOne(u: Byte, now: U64)
      requires Valid()
      modifies this`printed, keymeta
      ensures keymeta[u] == Released(old(keymeta[u]), true)
      ensures forall v: Byte :: v != u ==> keymeta[v] == old(keymeta[v])
      ensures printed == old(printed) + HealLine(old(keymeta[u]), u, now)
    {
      if keymeta[u].upMarker.Some? {
        printed := printed + [Heal(u, NsToMs(Wrap64(now - keymeta[u].upMarker.value)))];
        keymeta[u] := keymeta[u].(upMarker := None);
      }
      keymeta[u] := keymeta[u].(pressed := false);
    }

    /** The second loop, over the keys of the snapshot. */
    method Confirm(now: U64)
      requires Valid()
      modifies keymeta
      ensures forall u: Byte :: keymeta[u] == Reconciled(old(keymeta[u]), u in pressed, now)
    {
      var todo := pressed;
      while todo != {}
        invariant todo <= pressed
        invariant forall u: Byte :: keymeta[u] == Reconciled(old(keymeta[u]), u in pressed - todo, now)
      {
        var u :| u in todo;
        todo := todo - {u};
        keymeta[u] := keymeta[u].(pressed := true, lastSnapshot := now);
      }
    }

    /** The section under the lock of a watchdog tick; keys are erased while iterating. */
    method WatchdogTick(now: U64) returns (changed: bool)
      requires Valid()
      modifies this`pressed, this`printed, keymeta
      ensures Valid() && Now() == Step(cfg, old(Now()), Tick(now))
      ensures changed == Sends(cfg, old(Now()), Tick(now))
      ensures old(printed) <= printed
      ensures PrintsEach(printed[|old(printed)|..], old(pressed), TickAccount(cfg, old(keymeta[..]), now))
    {
      hide PrintsEach, IsExpired, TickKey, TickLines, Step;
      ghost var s := Now();
      ghost var lines: seq<Line>, done: set<Byte> := [], {};
      NothingPrinted(TickAccount(cfg, s.keymeta, now));
      changed := false;
      var todo := pressed;
      while todo != {}
        invariant forall u: Byte :: u in done <==> u in s.pressed && u !in todo
        invariant modifiers == s.modifiers
        invariant printed == old(printed) + lines
        invariant forall u: Byte :: keymeta[u] == if u in done then TickKey(cfg, s.keymeta[u], now) else s.keymeta[u]
        invariant forall u: Byte :: u in pressed <==>
                    u in s.pressed && (u in todo || !IsExpired(cfg, s.keymeta[u], now))
        invariant changed <==> exists u <- done :: IsExpired(cfg, s.keymeta[u], now)
        invariant PrintsEach(lines, done, TickAccount(cfg, s.keymeta, now))
      {
        var u :| u in todo;
        OneMorePrinted(lines, done, TickAccount(cfg, s.keymeta, now), u);
        var expired := TickOne(u, now);
        if expired {
          pressed := pressed - {u};
          changed := true;
        }
        lines := lines + TickLines(cfg, s.keymeta[u], u, now);
        todo, done := todo - {u}, done + {u};
      }
      assert done == s.pressed;
      assert printed[|old(printed)|..] == lines;
      TickTable(cfg, s, Now(), now);
      TickSends(cfg, s, now);
    }

    /** The body of that loop, up to the erasure. */
    method TickOne(u: Byte, now: U64) returns (expired: bool)
      requires Valid()
      modifies this`printed, keymeta
      ensures keymeta[u] == TickKey(cfg, old(keymeta[u]), now)
      ensures forall v: Byte :: v != u ==> keymeta[v] == old(keymeta[v])
      ensures expired == IsExpired(cfg, old(keymeta[u]), now)
      ensures printed == old(printed) + TickLines(cfg, old(keymeta[u]), u, now)
    {
      if cfg.stuckMs > 0 && keymeta[u].lastEdge != 0 && !keymeta[u].stuckReported {
        if Wrap64(now - keymeta[u].lastEdge) > cfg.stuckMs * 1000000 {
          printed := printed + [Stuck(u, NsToMs(Wrap64(now - keymeta[u].lastEdge)))];
          keymeta[u] := keymeta[u].(stuckReported := true);
        }
      }
      if cfg.watchdogMs > 0 && keymeta[u].lastSnapshot != 0 &&
         Wrap64(now - keymeta[u].lastSnapshot) > cfg.watchdogMs * 1000000 {
        printed := printed + [Watchdog(u, NsToMs(Wrap64(now - keymeta[u].lastSnapshot)))];
        keymeta[u] := keymeta[u].(pressed := false);
        keymeta[u] := keymeta[u].(upMarker := None);
        return true;
      }
      return false;
    }

    /** A text edge or marker that parsed; `sends` says whether a report follows. */
    method UdpMessage(now: U64, stamp: U64, cmd: Command, key: TextUsage) returns (sends: bool)
      requires Valid()
      modifies this`pressed, keymeta
      ensures Valid() && Now() == Step(cfg, old(Now()), TextEvent(now, stamp, cmd, key))
      ensures sends == Sends(cfg, old(Now()), TextEvent(now, stamp, cmd, key))
    {
      ghost var s := Now();
      var t := if stamp == 0 then now else stamp;
      if cfg.deadlineMs > 0 && NsToMs(Wrap64(now - t)) > cfg.deadlineMs as real {
        return false;
      }
      if key == 0 {
        return false;
      }
      if cmd.Mup? {
        keymeta[key] := keymeta[key].(upMarker := Some(t));
        return false;
      }
      keymeta[key] := keymeta[key].(lastEdge := now);
      if cmd.Down? {
        keymeta[key] := keymeta[key].(pressed := true);
        pressed := pressed + {key};
        keymeta[key] := keymeta[key].(stuckReported := false);
      } else {
        keymeta[key] := keymeta[key].(pressed := false);
        pressed := pressed - {key};
        keymeta[key] := keymeta[key].(upMarker := None);
        keymeta[key] := keymeta[key].(stuckReported := false);
      }
      assert keymeta[..] == ApplyEdge(s, key, cmd.Down?, now).keymeta;
      return true;
    }

    /** The callback of the reliable edge listener, on one record. */
    method QuicEdgeRecord(data: seq<Byte>, now: U64) returns (sends: bool)
      requires Valid()
      modifies this`pressed, this`modifiers, keymeta
      ensures Valid()
      ensures |data| < 16 ==> !sends && Now() == old(Now())
      ensures |data| >= 16 ==>
        var e := RecordEvent(now, UnpackEdge(data));
        Now() == Step(cfg, old(Now()), e) && sends == Sends(cfg, old(Now()), e)
    {
      if |data| < 16 {
        return false;
      }
      ghost var s := Now();
      var seqNo := ReadBigEndian(data[..4]);
      var tMs := ReadBigEndian(data[4..12]);
      var usage := ReadBigEndian(data[12..14]);
      var e := EdgeRecord(seqNo, tMs, usage, data[14], data[15]);
      var nowMs := now / 1000000;
      var dtMs := if nowMs >= e.tMs then nowMs - e.tMs else 0;
      if cfg.deadlineMs > 0 && dtMs > cfg.deadlineMs {
        return false;
      }
      if e.usage >= 256 {
        return false;
      }
      var u := e.usage;
      modifiers := e.mods;
      keymeta[u] := keymeta[u].(lastEdge := now);
      if e.cmd == 1 {
        keymeta[u] := keymeta[u].(pressed := true, stuckReported := false);
        pressed := pressed + {u};
      } else {
        keymeta[u] := keymeta[u].(pressed := false, stuckReported := false, upMarker := None);
        pressed := pressed - {u};
      }
      assert keymeta[..] == ApplyEdge(s, u, e.cmd == 1, now).keymeta;
      return true;
    }

    /** The second section under the lock: at most six keys, in the set's own order. */
    method ReadKeys() returns (v: seq<Byte>, mods: Byte)
      ensures IsSelection(v, pressed) && mods == modifiers
    {
      v := [];
      var todo := pressed;
      while todo != {}
        invariant todo <= pressed
        invariant |v| == Min(6, |pressed - todo|)
        invariant forall i, j :: 0 <= i < j < |v| ==> v[i] != v[j]
        invariant forall i :: 0 <= i < |v| ==> v[i] in pressed - todo
      {
        var u :| u in todo;
        assert pressed - (todo - {u}) == pressed - todo + {u};
        if |v| < 6 {
          v := v + [u];
        }
        todo := todo - {u};
      }
      assert pressed - {} == pressed;
      mods := modifiers;
    }
  }

  // Parts of the contracts above

  function Released(km: KeyMeta, yes: bool): KeyMeta {
    if yes then km.(pressed := false, upMarker := None) else km
  }

  function Reconciled(km: KeyMeta, yes: bool, now: U64): KeyMeta {
    if yes then km.(pressed := true, lastSnapshot := now) else km
  }

  // The two loops of a snapshot together make its step.
  lemma SnapshotTable(cfg: Config, s: State, s': State, now: U64)
    requires forall u <- s'.pressed :: IsKeyboardUsage(u)
    requires forall u: Byte ::
               var km := Released(s.keymeta[u], u in s.pressed && u !in s'.pressed);
               s'.keymeta[u] == Reconciled(km, u in s'.pressed, now)
    ensures s' == Step(cfg, s, Snapshot(now, s'.pressed, s'.modifiers))
  {
    assert s'.keymeta == ApplySnapshot(s, s'.pressed, s'.modifiers, now).keymeta;
  }

  // The loop of a tick, key by key, makes its step.
  lemma TickTable(cfg: Config, s: State, s': State, now: U64)
    requires forall u: Byte ::
               s'.keymeta[u] == if u in s.pressed then TickKey(cfg, s.keymeta[u], now) else s.keymeta[u]
    requires forall u: Byte :: u in s'.pressed <==> u in s.pressed && !IsExpired(cfg, s.keymeta[u], now)
    requires s'.modifiers == s.modifiers
    ensures s' == Step(cfg, s, Tick(now))
  {
    hide TickKey, IsExpired;
    assert s'.keymeta == ApplyTick(cfg, s, now).keymeta;
    assert s'.pressed == ApplyTick(cfg, s, now).pressed;
  }

  lemma TickSends(cfg: Config, s: State, now: U64)
    ensures Sends(cfg, s, Tick(now)) <==> exists u <- s.pressed :: IsExpired(cfg, s.keymeta[u], now)
  {
  }

  datatype Command = Down | Up | Mup

  function TextEvent(now: U64, stamp: U64, cmd: Command, key: TextUsage): Event {
    match cmd
    case Down => UdpEdge(now, stamp, key, true)
    case Up => UdpEdge(now, stamp, key, false)
    case Mup => UdpMarker(now, stamp, key)
  }

  function RecordEvent(now: U64, e: EdgeRecord): Event {
    QuicEdge(now, e.tMs, e.usage, e.cmd, e.mods)
  }
}

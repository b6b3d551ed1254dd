/**
 The scripted workload: the client's event list, the key set that the client keeps for its
 snapshots, and the daemon's key set when every edge arrives in order and in time.
 */
module Workload {
  import opened Words
  import opened KeyState
  import opened Daemon
  import opened TextEdges
  import KeyTiming

  /** An event of the script: how long to wait, what to send, and whether it is a marker. */
  datatype Scripted = Scripted(delay: real, cmd: string, key: string, marker: bool)

  function KeyName(c: char): string {
    if c == '\n' then "ENTER" else [c]
  }

  // What one character adds to the list, before the waits are folded together.
  function Keystroke(c: char, keyDelay: real): seq<Scripted> {
    [Scripted(0.0, "down", KeyName(c), false),
     Scripted(keyDelay, "mup", KeyName(c), true),
     Scripted(0.0, "up", KeyName(c), false),
     Scripted(keyDelay, "noop", "", false)]
  }

  function Raw(text: string, keyDelay: real): seq<Scripted> {
    if text == "" then [] else Raw(text[..|text| - 1], keyDelay) + Keystroke(text[|text| - 1], keyDelay)
  }

  function Repeated(text: string, repeat: nat): string {
    if repeat == 0 then "" else Repeated(text, repeat - 1) + text
  }

  // The waits of dropped "noop" events that the next event has still to take over.
  function Carry(events: seq<Scripted>): real {
    if events == [] then 0.0
    else
      var last := events[|events| - 1];
      if last.cmd == "noop" then Carry(events[..|events| - 1]) + last.delay else 0.0
  }

  function Folded(events: seq<Scripted>): seq<Scripted> {
    if events == [] then []
    else
      var front, last := events[..|events| - 1], events[|events| - 1];
      if last.cmd == "noop" then Folded(front)
      else Folded(front) + [last.(delay := last.delay + Carry(front))]
  }

  function TotalDelay(events: seq<Scripted>): real {
    if events == [] then 0.0 else TotalDelay(events[..|events| - 1]) + events[|events| - 1].delay
  }

  /** Folding loses no time, but for a wait at the very end. */
  lemma {:induction false} FoldingKeepsTime(events: seq<Scripted>)
    ensures TotalDelay(Folded(events)) + Carry(events) == TotalDelay(events)
  {
    if events != [] {
      var front, last := events[..|events| - 1], events[|events| - 1];
      FoldingKeepsTime(front);
      if last.cmd != "noop" {
        var f := Folded(front);
        var e := last.(delay := last.delay + Carry(front));
        assert (f + [e])[..|f|] == f;
      }
    }
  }

  lemma RawOneMore(typed: string, c: char, keyDelay: real)
    ensures Raw(typed + [c], keyDelay) == Raw(typed, keyDelay) + Keystroke(c, keyDelay)
  {
    assert (typed + [c])[..|typed|] == typed;
  }

  // The nested loops that list the keystrokes.
  method ListKeystrokes(text: string, repeat: nat, keyDelay: real) returns (events: seq<Scripted>)
    ensures events == Raw(Repeated(text, repeat), keyDelay)
  {
    hide Raw;
    events := [];
    RawOfNothing(keyDelay);
    for r := 0 to repeat
      invariant events == Raw(Repeated(text, r), keyDelay)
    {
      var typed := Repeated(text, r);
      assert typed + text[..0] == typed;
      for i := 0 to |text|
        invariant events == Raw(typed + text[..i], keyDelay)
      {
        assert typed + text[..i + 1] == typed + text[..i] + [text[i]];
        RawOneMore(typed + text[..i], text[i], keyDelay);
        ghost var listed := events;
        var key := if text[i] == '\n' then "ENTER" else [text[i]];
        events := events + [Scripted(0.0, "down", key, false)];
        events := events + [Scripted(keyDelay, "mup", key, true)];
        events := events + [Scripted(0.0, "up", key, false)];
        events := events + [Scripted(keyDelay, "noop", "", false)];
        assert events == listed + Keystroke(text[i], keyDelay);
      }
      assert text[..|text|] == text;
    }
  }

  lemma RawOfNothing(keyDelay: real)
    ensures Raw("", keyDelay) == []
  {
  }

  /** workload_events: lists the keystrokes, then folds the waits of "noop" events into the next. */
  method WorkloadEvents(text: string, repeat: nat, keyDelay: real) returns (folded: seq<Scripted>)
    ensures folded == Folded(Raw(Repeated(text, repeat), keyDelay))
    ensures Commands(folded) == Script(Repeated(text, repeat))
  {
    var events := ListKeystrokes(text, repeat, keyDelay);
    folded := [];
    var carry := 0.0;
    for i := 0 to |events|
      invariant folded == Folded(events[..i]) && carry == Carry(events[..i])
    {
      assert events[..i + 1][..i] == events[..i];
      if events[i].cmd == "noop" {
        carry := carry + events[i].delay;
      } else {
        folded := folded + [events[i].(delay := events[i].delay + carry)];
        carry := 0.0;
      }
    }
    assert events[..|events|] == events;
    WorkloadIsScript(Repeated(text, repeat), keyDelay);
  }

  // The script without its delays: three commands for each character.
  function Script(text: string): seq<(string, string)> {
    if text == "" then []
    else
      var key := KeyName(text[|text| - 1]);
      Script(text[..|text| - 1]) + [("down", key), ("mup", key), ("up", key)]
  }

  function Commands(events: seq<Scripted>): seq<(string, string)> {
    seq(|events|, i requires 0 <= i < |events| => (events[i].cmd, events[i].key))
  }

  lemma {:induction false} WorkloadIsScript(text: string, keyDelay: real)
    ensures Commands(Folded(Raw(text, keyDelay))) == Script(text)
  {
    if text != "" {
      var front, c := text[..|text| - 1], text[|text| - 1];
      WorkloadIsScript(front, keyDelay);
      FoldOneKeystroke(Raw(front, keyDelay), c, keyDelay);
    }
  }

  lemma FoldOneKeystroke(events: seq<Scripted>, c: char, keyDelay: real)
    ensures Commands(Folded(events + Keystroke(c, keyDelay))) ==
      Commands(Folded(events)) + [("down", KeyName(c)), ("mup", KeyName(c)), ("up", KeyName(c))]
  {
    var k := Keystroke(c, keyDelay);
    assert events + k[..1] == events + [k[0]];
    FoldOne(events, k[0]);
    FoldOne(events + [k[0]], k[1]);
    FoldOne(events + [k[0]] + [k[1]], k[2]);
    FoldOne(events + [k[0]] + [k[1]] + [k[2]], k[3]);
    assert events + k == events + [k[0]] + [k[1]] + [k[2]] + [k[3]];
  }

  lemma FoldOne(events: seq<Scripted>, e: Scripted)
    ensures Commands(Folded(events + [e])) ==
      Commands(Folded(events)) + if e.cmd == "noop" then [] else [(e.cmd, e.key)]
  {
    assert (events + [e])[..|events|] == events;
  }

  // The client's own key set

  /** state_machine, one event. */
  function ClientStep(pressed: set<int>, cmd: string, key: string): set<int> {
    var u := if key != "" then ClientUsage(key) else 0;
    if cmd == "down" && u != 0 then pressed + {u}
    else if cmd == "up" && u != 0 then pressed - {u}
    else pressed
  }

  function ClientAfter(script: seq<(string, string)>, n: nat): set<int>
    requires n <= |script|
  {
    if n == 0 then {} else ClientStep(ClientAfter(script, n - 1), script[n - 1].0, script[n - 1].1)
  }

  /** state_machine: the set it keeps while it walks the script. */
  method StateMachine(script: seq<(string, string)>) returns (pressed: set<int>)
    ensures pressed == ClientAfter(script, |script|)
  {
    pressed := {};
    for i := 0 to |script|
      invariant pressed == ClientAfter(script, i)
    {
      var (cmd, key) := script[i];
      var u: int := if key != "" then ClientUsage(key) else 0;
      if cmd == "down" && u != 0 {
        pressed := pressed + {u};
      } else if cmd == "up" && u != 0 {
        pressed := pressed - {u};
      }
    }
  }

  // Delivery

  /** How many of the first `n` events are messages; the others are ticks of the watchdog. */
  function MessagesIn(es: seq<Event>, n: nat): nat
    requires n <= |es|
  {
    if n == 0 then 0 else MessagesIn(es, n - 1) + if es[n - 1].Tick? then 0 else 1
  }

  /** The next message of the script, which the deadline lets through. */
  ghost predicate IsMessage(cfg: Config, e: Event, script: seq<(string, string)>, stamps: seq<U64>, m: nat) {
    && m < |script| == |stamps|
    && DatagramEvent(e.now, BuildEdgeMsg(script[m].0, script[m].1, stamps[m])) == Some(e)
    && UdpAccepts(cfg, e.now, stamps[m])
  }

  /**
   Messages of the script reach the daemon from the first one on, in order and in time, with
   ticks of the watchdog anywhere between them and nothing else.
   */
  ghost predicate DeliveredInOrder(
    cfg: Config, script: seq<(string, string)>, stamps: seq<U64>, es: seq<Event>)
  {
    forall i :: 0 <= i < |es| ==> es[i].Tick? || IsMessage(cfg, es[i], script, stamps, MessagesIn(es, i))
  }

  predicate IsTypeable(c: char) {
    c as int < 128 && c != ' '
  }

  lemma {:induction false} ScriptKeys(text: string, i: nat)
    requires i < |Script(text)|
    ensures Script(text)[i].0 in ["down", "mup", "up"]
    ensures exists c <- text :: Script(text)[i].1 == KeyName(c)
  {
    var front, c := text[..|text| - 1], text[|text| - 1];
    if i < |Script(front)| {
      ScriptKeys(front, i);
      var c1 :| c1 in front && Script(front)[i].1 == KeyName(c1);
      assert c1 in text;
    } else {
      assert c in text;
    }
  }

  // One message of the script, read by the daemon.
  lemma ScriptedMessage(now: U64, cmd: string, c: char, t: U64)
    requires cmd in ["down", "mup", "up"] && IsTypeable(c)
    ensures DatagramEvent(now, BuildEdgeMsg(cmd, KeyName(c), t)) ==
      Some(TextEvent(now, t, CommandOf(cmd).value, ClientUsage(KeyName(c))))
  {
    hide Tokens, ParseTokens, BuildEdgeMsg;
    if c == '\n' {
      EdgeMsgRoundTrip(cmd, "ENTER", t);
    } else if IsBlank(c) {
      BlankKeyIsLost(cmd, c, t);
    } else {
      EdgeMsgRoundTrip(cmd, [c], t);
    }
  }

  lemma StepsTogether(cfg: Config, s: State, pressed: set<int>, now: U64, cmd: string, c: char, t: U64)
    requires cmd in ["down", "mup", "up"] && IsTypeable(c) && UdpAccepts(cfg, now, t)
    requires s.pressed == pressed
    ensures Step(cfg, s, TextEvent(now, t, CommandOf(cmd).value, ClientUsage(KeyName(c)))).pressed ==
      ClientStep(pressed, cmd, KeyName(c))
  {
  }

  lemma MessagesAreNoSnapshots(cfg: Config, e: Event, script: seq<(string, string)>, stamps: seq<U64>, m: nat)
    requires IsMessage(cfg, e, script, stamps, m)
    ensures !e.Snapshot?
  {
    hide BuildEdgeMsg, UdpAccepts, Tokens, ParseTokens;
  }

  // Without snapshots the watchdog may look as often as it likes.
  lemma TickLeavesKeys(
    cfg: Config, script: seq<(string, string)>, stamps: seq<U64>, es: seq<Event>, n: nat)
    requires DeliveredInOrder(cfg, script, stamps, es) && n < |es| && es[n].Tick?
    ensures After(cfg, Initial(), es, n + 1).pressed == After(cfg, Initial(), es, n).pressed
  {
    hide IsMessage;
    forall i | 0 <= i <= n
      ensures !es[i].Snapshot?
    {
      if !es[i].Tick? {
        MessagesAreNoSnapshots(cfg, es[i], script, stamps, MessagesIn(es, i));
      }
    }
    KeyTiming.QuietTick(cfg, es, n);
  }

  lemma MessageMovesBoth(
    cfg: Config, text: string, stamps: seq<U64>, s: State, e: Event, m: nat)
    requires forall c <- text :: IsTypeable(c)
    requires IsMessage(cfg, e, Script(text), stamps, m) && s.pressed == ClientAfter(Script(text), m)
    ensures Step(cfg, s, e).pressed == ClientAfter(Script(text), m + 1)
  {
    hide Step, UdpAccepts, DatagramEvent, BuildEdgeMsg, ClientStep;
    ScriptKeys(text, m);
    var (cmd, key) := Script(text)[m];
    var c :| c in text && key == KeyName(c);
    ScriptedMessage(e.now, cmd, c, stamps[m]);
    StepsTogether(cfg, s, ClientAfter(Script(text), m), e.now, cmd, c, stamps[m]);
  }

  /**
   While edges arrive in order and in time and no snapshot comes in between, the daemon has
   pressed, after every single event, what the client had pressed after as many messages.
   The watchdog may tick at any time.
   */
  lemma {:induction false} DaemonFollowsClient(
    cfg: Config, text: string, stamps: seq<U64>, es: seq<Event>, n: nat)
    requires (forall c <- text :: IsTypeable(c)) && DeliveredInOrder(cfg, Script(text), stamps, es) && n <= |es|
    ensures MessagesIn(es, n) <= |Script(text)|
    ensures After(cfg, Initial(), es, n).pressed == ClientAfter(Script(text), MessagesIn(es, n))
  {
    hide Step, IsMessage, ClientAfter;
    if n == 0 {
      NothingYet(text);
    } else {
      DaemonFollowsClient(cfg, text, stamps, es, n - 1);
      if es[n - 1].Tick? {
        TickLeavesKeys(cfg, Script(text), stamps, es, n - 1);
      } else {
        var m := MessagesIn(es, n - 1);
        assert m < |Script(text)| by {
          MessagesAreOfScript(cfg, es[n - 1], Script(text), stamps, m);
        }
        MessageMovesBoth(cfg, text, stamps, After(cfg, Initial(), es, n - 1), es[n - 1], m);
      }
    }
  }

  lemma MessagesAreOfScript(cfg: Config, e: Event, script: seq<(string, string)>, stamps: seq<U64>, m: nat)
    requires IsMessage(cfg, e, script, stamps, m)
    ensures m < |script|
  {
  }

  lemma NothingYet(text: string)
    ensures ClientAfter(Script(text), 0) == Initial().pressed
  {
  }

  /** The client has released everything at the end of the script. */
  lemma {:induction false} ScriptEndsReleased(text: string)
    ensures ClientAfter(Script(text), |Script(text)|) == {}
  {
    if text != "" {
      var front, c := text[..|text| - 1], text[|text| - 1];
      ScriptEndsReleased(front);
      var script, m := Script(text), |Script(front)|;
      ClientPrefix(Script(front), script, m);
      assert script[m..] == [("down", KeyName(c)), ("mup", KeyName(c)), ("up", KeyName(c))];
      assert script[m] == script[m..][0] && script[m + 1] == script[m..][1] && script[m + 2] == script[m..][2];
      assert ClientAfter(script, m + 1) == ClientStep({}, "down", KeyName(c));
      assert ClientAfter(script, m + 2) == ClientAfter(script, m + 1);
      assert ClientAfter(script, m + 3) == ClientStep(ClientAfter(script, m + 1), "up", KeyName(c)) == {};
    }
  }

  lemma {:induction false} ClientPrefix(a: seq<(string, string)>, b: seq<(string, string)>, n: nat)
    requires n <= |a| && a <= b
    ensures ClientAfter(a, n) == ClientAfter(b, n)
  {
    if n > 0 {
      ClientPrefix(a, b, n - 1);
    }
  }

  /** So has the daemon, once all messages are in. */
  lemma DaemonEndsReleased(cfg: Config, text: string, stamps: seq<U64>, es: seq<Event>, n: nat)
    requires (forall c <- text :: IsTypeable(c)) && DeliveredInOrder(cfg, Script(text), stamps, es)
    requires n <= |es| && MessagesIn(es, n) == |Script(text)|
    ensures After(cfg, Initial(), es, n).pressed == {}
  {
    hide Step, DeliveredInOrder;
    DaemonFollowsClient(cfg, text, stamps, es, n);
    ScriptEndsReleased(text);
  }

  lemma {:induction false} MessagesInFront(es: seq<Event>, es': seq<Event>, n: nat)
    requires n <= |es| && es <= es'
    ensures MessagesIn(es, n) == MessagesIn(es', n)
  {
    if n > 0 {
      MessagesInFront(es, es', n - 1);
    }
  }

  lemma MessagesInOneMore(es: seq<Event>, e: Event, now: U64)
    requires !e.Tick?
    ensures forall i :: 0 <= i <= |es| ==> MessagesIn(es + [e, Tick(now)], i) == MessagesIn(es, i)
    ensures MessagesIn(es + [e, Tick(now)], |es| + 2) == MessagesIn(es, |es|) + 1
  {
    var es' := es + [e, Tick(now)];
    forall i | 0 <= i <= |es|
      ensures MessagesIn(es', i) == MessagesIn(es, i)
    {
      MessagesInFront(es, es', i);
    }
    assert es'[|es|] == e && es'[|es| + 1] == Tick(now);
    assert MessagesIn(es', |es| + 1) == MessagesIn(es, |es|) + 1;
  }

  // One more message, and a tick behind it.
  lemma DeliverOneMore(
    cfg: Config, script: seq<(string, string)>, stamps: seq<U64>, es: seq<Event>, e: Event, now: U64)
    requires DeliveredInOrder(cfg, script, stamps, es) && !e.Tick?
    requires IsMessage(cfg, e, script, stamps, MessagesIn(es, |es|))
    ensures DeliveredInOrder(cfg, script, stamps, es + [e, Tick(now)])
    ensures MessagesIn(es + [e, Tick(now)], |es| + 2) == MessagesIn(es, |es|) + 1
  {
    hide IsMessage, MessagesIn;
    var es' := es + [e, Tick(now)];
    MessagesInOneMore(es, e, now);
    forall i | 0 <= i < |es'|
      ensures es'[i].Tick? || IsMessage(cfg, es'[i], script, stamps, MessagesIn(es', i))
    {
      if i < |es| {
        assert es'[i] == es[i] && MessagesIn(es', i) == MessagesIn(es, i);
      } else if i == |es| {
        assert es'[i] == e;
      } else {
        assert es'[i] == Tick(now);
      }
    }
  }

  lemma {:induction false} SomeDelivered(cfg: Config, text: string, stamps: seq<U64>, now: U64, m: nat)
    returns (es: seq<Event>)
    requires (forall c <- text :: IsTypeable(c)) && m <= |Script(text)| == |stamps|
    requires forall i :: 0 <= i < |stamps| ==> stamps[i] == now
    ensures DeliveredInOrder(cfg, Script(text), stamps, es) && MessagesIn(es, |es|) == m && |es| == 2 * m
    ensures forall i :: 0 <= i < m ==> es[2 * i + 1] == Tick(now)
  {
    hide DatagramEvent, BuildEdgeMsg, ClientUsage, UdpAccepts, DeliveredInOrder;
    if m == 0 {
      es := [];
      NothingDelivered(cfg, Script(text), stamps);
    } else {
      es := SomeDelivered(cfg, text, stamps, now, m - 1);
      ScriptKeys(text, m - 1);
      var (cmd, key) := Script(text)[m - 1];
      var c :| c in text && key == KeyName(c);
      ScriptedMessage(now, cmd, c, now);
      var e := TextEvent(now, now, CommandOf(cmd).value, ClientUsage(key));
      FreshIsAccepted(cfg, now);
      DeliverOneMore(cfg, Script(text), stamps, es, e, now);
      es := es + [e, Tick(now)];
    }
  }

  lemma NothingDelivered(cfg: Config, script: seq<(string, string)>, stamps: seq<U64>)
    ensures DeliveredInOrder(cfg, script, stamps, [])
  {
  }

  lemma FreshIsAccepted(cfg: Config, now: U64)
    ensures UdpAccepts(cfg, now, now)
  {
  }

  /** Every typeable text can be delivered so, with a tick behind every message. */
  lemma DeliveriesExist(cfg: Config, text: string, now: U64) returns (stamps: seq<U64>, es: seq<Event>)
    requires forall c <- text :: IsTypeable(c)
    ensures DeliveredInOrder(cfg, Script(text), stamps, es) && MessagesIn(es, |es|) == |Script(text)|
    ensures |es| == 2 * |Script(text)| && forall i :: 0 <= i < |Script(text)| ==> es[2 * i + 1] == Tick(now)
  {
    stamps := seq(|Script(text)|, i => now);
    es := SomeDelivered(cfg, text, stamps, now, |Script(text)|);
  }

  // The schedule

  lemma {:induction false} CarryOfRaw(text: string, keyDelay: real)
    ensures Carry(Raw(text, keyDelay)) == if text == "" then 0.0 else keyDelay
  {
    if text != "" {
      var raw, c := Raw(text[..|text| - 1], keyDelay), text[|text| - 1];
      var k := Keystroke(c, keyDelay);
      var n := |raw + k|;
      assert (raw + k)[n - 1] == k[3];
      assert (raw + k)[..n - 1][n - 2] == k[2];
    }
  }

  lemma FoldedOneMore(events: seq<Scripted>, e: Scripted)
    ensures Folded(events + [e]) ==
      Folded(events) + if e.cmd == "noop" then [] else [e.(delay := e.delay + Carry(events))]
    ensures Carry(events + [e]) == if e.cmd == "noop" then Carry(events) + e.delay else 0.0
  {
    assert (events + [e])[..|events|] == events;
  }

  lemma FoldedKeystroke(events: seq<Scripted>, c: char, keyDelay: real)
    ensures Folded(events + Keystroke(c, keyDelay)) == Folded(events) +
      [Scripted(Carry(events), "down", KeyName(c), false), Scripted(keyDelay, "mup", KeyName(c), true),
       Scripted(0.0, "up", KeyName(c), false)]
  {
    hide Folded, Carry;
    var k := Keystroke(c, keyDelay);
    FoldedOneMore(events, k[0]);
    FoldedOneMore(events + [k[0]], k[1]);
    FoldedOneMore(events + [k[0]] + [k[1]], k[2]);
    FoldedOneMore(events + [k[0]] + [k[1]] + [k[2]], k[3]);
    assert events + k == events + [k[0]] + [k[1]] + [k[2]] + [k[3]];
  }

  /**
   The schedule of a text: each key goes down after the gap behind the one before it, its marker
   and its release follow together after the time it is held, and only the marker is marked so.
   */
  lemma {:induction false} ScheduleIs(text: string, keyDelay: real, i: nat)
    requires i < |text|
    ensures
      var f := Folded(Raw(text, keyDelay));
      var key := if text[i] == '\n' then "ENTER" else [text[i]];
      && |f| == 3 * |text|
      && f[3 * i] == Scripted(if i == 0 then 0.0 else keyDelay, "down", key, false)
      && f[3 * i + 1] == Scripted(keyDelay, "mup", key, true)
      && f[3 * i + 2] == Scripted(0.0, "up", key, false)
  {
    hide Keystroke, Carry;
    var n := |text| - 1;
    var front := text[..n];
    var raw := Raw(front, keyDelay);
    CarryOfRaw(front, keyDelay);
    FoldedKeystroke(raw, text[n], keyDelay);
    if i < n {
      ScheduleIs(front, keyDelay, i);
    } else if n > 0 {
      ScheduleIs(front, keyDelay, 0);
    }
  }

  /** The usages that the client gives its keys, the space among them. */
  lemma ClientUsageIs(c: char)
    ensures ClientUsage("ENTER") == 0x28
    ensures ClientUsage([c]) ==
      if 'a' <= c <= 'z' then 4 + (c as int - 'a' as int)
      else if 'A' <= c <= 'Z' then 4 + (c as int - 'A' as int)
      else if c == ' ' then 0x2C
      else 0
  {
  }
}

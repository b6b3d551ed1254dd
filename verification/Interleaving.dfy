/**
 The daemon's threads.  A handler runs in three stages: it changes the state under the
 lock, takes the lock again to read at most six keys, and sends the report after giving
 the lock back.  Any number of handlers may be between stages at once.
 */
module Interleaving {
  import opened Words
  import opened KeyState
  import opened KeyInvariants

  type ThreadId = nat

  /** Where a handler stands; a thread that is in no handler has no entry. */
  datatype Stage =
    | ToRead(changed: nat)
    | ToSend(read: nat)

  /** A report taken under the lock: after which change of the sender, and after which change at all. */
  datatype Reading = Reading(changed: nat, at: nat, keys: seq<Byte>, mods: Byte)

  /**
   `history` holds the state after every change, in lock order, `readings` the reports in
   the order in which they were read, and `sent` the readings in the order in which they
   were sent.
   */
  datatype System = System(
    history: seq<State>,
    stages: map<ThreadId, Stage>,
    readings: seq<Reading>,
    sent: seq<nat>)
  {
    function Shared(): State
      requires history != []
    {
      history[|history| - 1]
    }
  }

  datatype Action =
    | Change(thread: ThreadId, event: Event)
    | Read(thread: ThreadId, keys: seq<Byte>)
    | Send(thread: ThreadId)

  /** The daemon as main() sets it up: nothing pressed, no handler running. */
  ghost predicate IsStart(y: System) {
    y.history == [Initial()] && y.stages == map[] && y.readings == [] && y.sent == []
  }

  ghost predicate Enabled(y: System, a: Action) {
    match a
    case Change(t, _) => t !in y.stages
    case Read(t, keys) =>
      t in y.stages && y.stages[t].ToRead? && y.history != [] && IsSelection(keys, y.Shared().pressed)
    case Send(t) => t in y.stages && y.stages[t].ToSend?
  }

  function Perform(cfg: Config, y: System, a: Action): System
    requires y.history != []
    requires !a.Change? ==> a.thread in y.stages
    requires a.Read? ==> y.stages[a.thread].ToRead?
    requires a.Send? ==> y.stages[a.thread].ToSend?
  {
    match a
    case Change(t, e) =>
      var s := Step(cfg, y.Shared(), e);
      y.(history := y.history + [s],
         stages := if Sends(cfg, y.Shared(), e) then y.stages[t := ToRead(|y.history|)] else y.stages)
    case Read(t, keys) =>
      var r := Reading(y.stages[t].changed, |y.history| - 1, keys, y.Shared().modifiers);
      y.(readings := y.readings + [r], stages := y.stages[t := ToSend(|y.readings|)])
    case Send(t) =>
      y.(sent := y.sent + [y.stages[t].read], stages := y.stages - {t})
  }

  ghost predicate Next(cfg: Config, y: System, y': System) {
    exists a: Action :: y.history != [] && Enabled(y, a) && y' == Perform(cfg, y, a)
  }

  ghost predicate IsExecution(cfg: Config, ys: seq<System>) {
    var n := |ys| - 1;
    && ys != []
    && if n == 0 then IsStart(ys[0]) else IsExecution(cfg, ys[..n]) && Next(cfg, ys[n - 1], ys[n])
  }

  ghost predicate Reachable(cfg: Config, y: System) {
    exists ys :: IsExecution(cfg, ys) && ys[|ys| - 1] == y
  }

  /** No handler is between two stages. */
  predicate Quiescent(y: System) {
    y.stages == map[]
  }

  /** The report shows this state: its modifiers, and six of its keys or all of them. */
  ghost predicate Describes(r: Reading, s: State) {
    r.mods == s.modifiers && IsSelection(r.keys, s.pressed)
  }

  // The latest change, counted from 1, that altered what reports show; 0 if none did.
  function LatestVisible(history: seq<State>): nat
    requires history != []
    ensures LatestVisible(history) < |history|
  {
    var n := |history| - 1;
    if n == 0 then 0
    else if View(history[n]) != View(history[n - 1]) then n
    else LatestVisible(history[..n])
  }

  lemma {:induction false} QuietSinceLatestVisible(history: seq<State>, i: nat)
    requires history != [] && LatestVisible(history) <= i < |history|
    ensures View(history[i]) == View(history[|history| - 1])
  {
    var n := |history| - 1;
    if i < n {
      QuietSinceLatestVisible(history[..n], i);
    }
  }

  // The invariant

  ghost predicate StatesAgree(y: System) {
    y.history != [] && y.history[0] == Initial() && forall i :: 0 <= i < |y.history| ==> Agrees(y.history[i])
  }

  ghost predicate ReadingsHonest(y: System) {
    && (forall t <- y.stages :: y.stages[t].ToRead? ==> y.stages[t].changed < |y.history|)
    && (forall k :: 0 <= k < |y.readings| ==>
          && y.readings[k].changed <= y.readings[k].at < |y.history|
          && Describes(y.readings[k], y.history[y.readings[k].at]))
    && (forall j, k :: 0 <= j < k < |y.readings| ==> y.readings[j].at <= y.readings[k].at)
  }

  // Every reading is with exactly one thread, or was sent exactly once.
  ghost predicate ReadingsConserved(y: System) {
    && (forall t <- y.stages :: y.stages[t].ToSend? ==>
          y.stages[t].read < |y.readings| && y.stages[t].read !in y.sent)
    && (forall t, t' | t in y.stages && t' in y.stages && t != t' && y.stages[t].ToSend? && y.stages[t'].ToSend? ::
          y.stages[t].read != y.stages[t'].read)
    && (forall i :: 0 <= i < |y.sent| ==> y.sent[i] < |y.readings|)
    && (forall i, j :: 0 <= i < j < |y.sent| ==> y.sent[i] != y.sent[j])
    && (forall k :: 0 <= k < |y.readings| ==> k in y.sent || exists t <- y.stages :: y.stages[t] == ToSend(k))
  }

  ghost predicate ReadPending(y: System, since: nat) {
    exists t <- y.stages :: y.stages[t].ToRead? && y.stages[t].changed >= since
  }

  // What reports show has not changed since the last reading, or a handler is about to read.
  ghost predicate NothingForgotten(y: System)
    requires y.history != []
  {
    var c := LatestVisible(y.history);
    || c == 0
    || ReadPending(y, c)
    || (y.readings != [] && y.readings[|y.readings| - 1].at >= c)
  }

  ghost predicate Inv(y: System) {
    StatesAgree(y) && ReadingsHonest(y) && ReadingsConserved(y) && NothingForgotten(y)
  }

  lemma StartInv(y: System)
    requires IsStart(y)
    ensures Inv(y)
  {
    assert forall u: Byte :: Initial().keymeta[u].pressed <==> u in Initial().pressed;
  }

  // What a change leaves behind: one more state, and perhaps a thread about to read.
  ghost predicate IsChange(y: System, y': System, t: ThreadId, s: State, sends: bool) {
    && t !in y.stages
    && y'.history == y.history + [s]
    && y'.stages == (if sends then y.stages[t := ToRead(|y.history|)] else y.stages)
    && y'.readings == y.readings && y'.sent == y.sent
  }

  lemma ChangeHonest(y: System, y': System, t: ThreadId, s: State, sends: bool)
    requires IsChange(y, y', t, s, sends) && ReadingsHonest(y)
    ensures ReadingsHonest(y')
  {
    hide Describes;
  }

  lemma ChangeConserves(y: System, y': System, t: ThreadId, s: State, sends: bool)
    requires IsChange(y, y', t, s, sends) && ReadingsConserved(y)
    ensures ReadingsConserved(y')
  {
    forall k | 0 <= k < |y'.readings|
      ensures k in y'.sent || exists t <- y'.stages :: y'.stages[t] == ToSend(k)
    {
      if k !in y.sent {
        var t1 :| t1 in y.stages && y.stages[t1] == ToSend(k);
        assert y'.stages[t1] == ToSend(k);
      }
    }
  }

  lemma ChangeForgetsNothing(y: System, y': System, t: ThreadId, s: State, sends: bool)
    requires y.history != [] && IsChange(y, y', t, s, sends) && NothingForgotten(y)
    requires sends || View(s) == View(y.Shared())
    ensures NothingForgotten(y')
  {
    assert y'.history[..|y.history|] == y.history;
    if sends {
      assert y'.stages[t] == ToRead(|y.history|);
      assert ReadPending(y', LatestVisible(y'.history));
    }
  }

  lemma ChangeInv(cfg: Config, y: System, t: ThreadId, e: Event)
    requires Inv(y) && Enabled(y, Change(t, e))
    ensures Inv(Perform(cfg, y, Change(t, e)))
  {
    hide Step, Sends, Agrees, ReadingsHonest, ReadingsConserved, NothingForgotten;
    var y' := Perform(cfg, y, Change(t, e));
    var s, sends := Step(cfg, y.Shared(), e), Sends(cfg, y.Shared(), e);
    StepKeepsAgreement(cfg, y.Shared(), e);
    if !sends {
      SilentHandlersKeepView(cfg, y.Shared(), e);
    }
    ChangeHonest(y, y', t, s, sends);
    ChangeConserves(y, y', t, s, sends);
    ChangeForgetsNothing(y, y', t, s, sends);
  }

  lemma ReadInv(cfg: Config, y: System, t: ThreadId, keys: seq<Byte>)
    requires Inv(y) && Enabled(y, Read(t, keys))
    ensures Inv(Perform(cfg, y, Read(t, keys)))
  {
    hide IsSelection, Agrees;
    var y' := Perform(cfg, y, Read(t, keys));
    forall k | 0 <= k < |y'.readings|
      ensures k in y'.sent || exists t <- y'.stages :: y'.stages[t] == ToSend(k)
    {
      if k == |y.readings| {
        assert y'.stages[t] == ToSend(k);
      } else if k !in y.sent {
        var t1 :| t1 in y.stages && y.stages[t1] == ToSend(k);
        assert y'.stages[t1] == ToSend(k);
      }
    }
  }

  lemma SendConserves(cfg: Config, y: System, t: ThreadId)
    requires y.history != [] && Enabled(y, Send(t)) && ReadingsConserved(y)
    ensures ReadingsConserved(Perform(cfg, y, Send(t)))
  {
    var y' := Perform(cfg, y, Send(t));
    forall k | 0 <= k < |y'.readings|
      ensures k in y'.sent || exists t <- y'.stages :: y'.stages[t] == ToSend(k)
    {
      if k == y.stages[t].read {
        assert y'.sent[|y.sent|] == k;
      } else if k in y.sent {
        assert k in y'.sent;
      } else {
        var t1 :| t1 in y.stages && y.stages[t1] == ToSend(k);
        assert y'.stages[t1] == ToSend(k);
      }
    }
  }

  lemma SendInv(cfg: Config, y: System, t: ThreadId)
    requires Inv(y) && Enabled(y, Send(t))
    ensures Inv(Perform(cfg, y, Send(t)))
  {
    hide Describes, Agrees, ReadingsConserved;
    var y' := Perform(cfg, y, Send(t));
    SendConserves(cfg, y, t);
    var c := LatestVisible(y.history);
    if ReadPending(y, c) {
      var t1 :| t1 in y.stages && y.stages[t1].ToRead? && y.stages[t1].changed >= c;
      assert y'.stages[t1] == y.stages[t1];
    }
  }

  lemma {:induction false} ExecutionsKeepInv(cfg: Config, ys: seq<System>)
    requires IsExecution(cfg, ys)
    ensures Inv(ys[|ys| - 1])
  {
    hide Inv, Perform, Enabled;
    var n := |ys| - 1;
    if n == 0 {
      StartInv(ys[0]);
    } else {
      ExecutionsKeepInv(cfg, ys[..n]);
      NextKeepsInv(cfg, ys[n - 1], ys[n]);
    }
  }

  lemma NextKeepsInv(cfg: Config, y: System, y': System)
    requires Inv(y) && Next(cfg, y, y')
    ensures Inv(y')
  {
    hide Inv, Perform;
    var a: Action :| y.history != [] && Enabled(y, a) && y' == Perform(cfg, y, a);
    match a
    case Change(t, e) => ChangeInv(cfg, y, t, e);
    case Read(t, keys) => ReadInv(cfg, y, t, keys);
    case Send(t) => SendInv(cfg, y, t);
  }

  lemma ReachableInv(cfg: Config, y: System)
    requires Reachable(cfg, y)
    ensures Inv(y)
  {
    hide Inv;
    var ys :| IsExecution(cfg, ys) && ys[|ys| - 1] == y;
    ExecutionsKeepInv(cfg, ys);
  }

  // Executions and runs

  /** The states in lock order are those of this run of events. */
  ghost predicate IsHistoryOf(cfg: Config, y: System, es: seq<Event>) {
    && |y.history| == |es| + 1
    && forall i :: 0 <= i <= |es| ==> y.history[i] == After(cfg, Initial(), es, i)
  }

  lemma NextExtendsRun(cfg: Config, y: System, y': System, es: seq<Event>) returns (es': seq<Event>)
    requires Next(cfg, y, y') && IsHistoryOf(cfg, y, es)
    ensures IsHistoryOf(cfg, y', es')
  {
    hide Step, Sends, IsSelection, Initial;
    var a: Action :| y.history != [] && Enabled(y, a) && y' == Perform(cfg, y, a);
    es' := es;
    if a.Change? {
      es' := es + [a.event];
      assert y'.history == y.history + [Step(cfg, y.Shared(), a.event)];
      assert es'[|es|] == a.event;
      forall i | 0 <= i <= |es|
        ensures y'.history[i] == After(cfg, Initial(), es', i)
      {
        AfterPrefix(cfg, Initial(), es, es', i);
      }
      assert y.Shared() == After(cfg, Initial(), es', |es|);
    }
  }

  lemma {:induction false} ExecutionsAreRuns(cfg: Config, ys: seq<System>) returns (es: seq<Event>)
    requires IsExecution(cfg, ys)
    ensures IsHistoryOf(cfg, ys[|ys| - 1], es)
  {
    hide Next;
    var n := |ys| - 1;
    if n == 0 {
      es := [];
    } else {
      es := ExecutionsAreRuns(cfg, ys[..n]);
      es := NextExtendsRun(cfg, ys[n - 1], ys[n], es);
    }
  }

  /** However the threads interleave, the states in lock order are those of one run of events. */
  lemma HistoryIsRun(cfg: Config, y: System) returns (es: seq<Event>)
    requires Reachable(cfg, y)
    ensures IsHistoryOf(cfg, y, es)
  {
    hide IsHistoryOf;
    var ys :| IsExecution(cfg, ys) && ys[|ys| - 1] == y;
    es := ExecutionsAreRuns(cfg, ys);
  }

  // Main results

  /** Whenever the lock is free, in any interleaving, the set and the table agree. */
  lemma LockFreeAgreement(cfg: Config, y: System)
    requires Reachable(cfg, y)
    ensures y.history != [] && Agrees(y.Shared())
  {
    ReachableInv(cfg, y);
  }

  /**
   Every report that was sent shows a state that really held, no earlier than the sender's
   own change; and no reading is sent twice.
   */
  lemma SentReportsAreHonest(cfg: Config, y: System, i: nat)
    requires Reachable(cfg, y) && i < |y.sent|
    ensures
      && y.sent[i] < |y.readings|
      && var r := y.readings[y.sent[i]];
      && r.changed <= r.at < |y.history|
      && Describes(r, y.history[r.at])
    ensures forall j :: 0 <= j < |y.sent| && j != i ==> y.sent[j] != y.sent[i]
  {
    var ys :| IsExecution(cfg, ys) && ys[|ys| - 1] == y;
    ExecutionsKeepInv(cfg, ys);
  }

  // The same of a reading that may still wait to be sent.
  lemma ReadingIsHonest(cfg: Config, y: System, k: nat)
    requires Reachable(cfg, y) && k < |y.readings|
    ensures y.readings[k].at < |y.history| && Describes(y.readings[k], y.history[y.readings[k].at])
  {
    ReachableInv(cfg, y);
  }

  lemma SameViewSameReport(r: Reading, s: State, s': State)
    requires Describes(r, s) && View(s) == View(s')
    ensures Describes(r, s')
  {
  }

  // With no handler between stages, nothing waits to be read and nothing waits to be sent.
  lemma QuiescentReadings(y: System)
    requires y.history != [] && Quiescent(y)
    requires ReadingsHonest(y) && ReadingsConserved(y) && NothingForgotten(y)
    ensures y.readings == [] ==> LatestVisible(y.history) == 0
    ensures y.readings != [] ==>
      var k := |y.readings| - 1;
      LatestVisible(y.history) <= y.readings[k].at < |y.history| && k in y.sent
  {
    hide Describes;
    if y.readings != [] {
      var k := |y.readings| - 1;
      assert k in y.sent;
      if LatestVisible(y.history) == 0 {
        assert y.readings[k].changed <= y.readings[k].at;
      }
    }
  }

  /**
   Once every handler has finished, the report that was read last shows the present state,
   and it was sent.  If none was read, nothing that reports show has ever changed.
   */
  lemma LastReadingIsCurrent(cfg: Config, y: System)
    requires Reachable(cfg, y) && Quiescent(y)
    ensures y.history != []
    ensures y.readings == [] ==> View(y.Shared()) == View(Initial())
    ensures y.readings != [] ==>
      Describes(y.readings[|y.readings| - 1], y.Shared()) && |y.readings| - 1 in y.sent
  {
    hide Describes, Agrees, ReadingsConserved, NothingForgotten, Quiescent, Reachable;
    ReachableInv(cfg, y);
    QuiescentReadings(y);
    if y.readings == [] {
      QuietSinceLatestVisible(y.history, 0);
    } else {
      var r := y.readings[|y.readings| - 1];
      QuietSinceLatestVisible(y.history, r.at);
      SameViewSameReport(r, y.history[r.at], y.Shared());
    }
  }

  /**
   What the guest was told last is stale only if sends were reordered: the newest reading
   was sent before an older one.
   */
  lemma OnlyReorderingIsStale(cfg: Config, y: System)
    requires Reachable(cfg, y) && Quiescent(y) && y.sent != []
    requires y.history != [] && y.sent[|y.sent| - 1] < |y.readings|
    requires !Describes(y.readings[y.sent[|y.sent| - 1]], y.Shared())
    ensures exists i :: 0 <= i < |y.sent| - 1 && y.sent[i] > y.sent[|y.sent| - 1]
  {
    hide Describes;
    LastReadingIsCurrent(cfg, y);
    var i :| 0 <= i < |y.sent| && y.sent[i] == |y.readings| - 1;
    assert i < |y.sent| - 1;
  }

  lemma ReachOneMore(cfg: Config, y: System, a: Action)
    requires Reachable(cfg, y) && y.history != [] && Enabled(y, a)
    ensures Reachable(cfg, Perform(cfg, y, a))
  {
    hide Perform, IsStart;
    var ys :| IsExecution(cfg, ys) && ys[|ys| - 1] == y;
    var y' := Perform(cfg, y, a);
    assert (ys + [y'])[..|ys|] == ys;
    assert Next(cfg, y, y');
    assert IsExecution(cfg, ys + [y']);
  }

  // Two handlers change, read in that order, and send in the other.
  lemma TwoCrossedHandlers(cfg: Config, a: Event, b: Event, s1: State, s2: State, v1: seq<Byte>, v2: seq<Byte>)
    returns (y: System)
    requires Step(cfg, Initial(), a) == s1 && Sends(cfg, Initial(), a) && IsSelection(v1, s1.pressed)
    requires Step(cfg, s1, b) == s2 && Sends(cfg, s1, b) && IsSelection(v2, s2.pressed)
    ensures Reachable(cfg, y)
    ensures y == System([Initial(), s1, s2], map[],
      [Reading(1, 1, v1, s1.modifiers), Reading(2, 2, v2, s2.modifiers)], [1, 0])
  {
    hide Step, Sends, IsSelection, Initial, Reachable;
    var r1, r2 := Reading(1, 1, v1, s1.modifiers), Reading(2, 2, v2, s2.modifiers);
    y := StartIsReachable(cfg);
    y := TakeStep(cfg, y, Change(0, a), System([Initial(), s1], map[0 := ToRead(1)], [], []));
    y := TakeStep(cfg, y, Read(0, v1), System([Initial(), s1], map[0 := ToSend(0)], [r1], []));
    y := TakeStep(cfg, y, Change(1, b), System([Initial(), s1, s2], map[0 := ToSend(0), 1 := ToRead(2)], [r1], []));
    y := TakeStep(cfg, y, Read(1, v2), System([Initial(), s1, s2], map[0 := ToSend(0), 1 := ToSend(1)], [r1, r2], []));
    y := TakeStep(cfg, y, Send(1), System([Initial(), s1, s2], map[0 := ToSend(0)], [r1, r2], [1]));
    y := TakeStep(cfg, y, Send(0), System([Initial(), s1, s2], map[], [r1, r2], [1, 0]));
  }

  // One handler goes through its three stages undisturbed.
  lemma OneHandlerAlone(cfg: Config, e: Event, s: State, v: seq<Byte>) returns (y: System)
    requires Step(cfg, Initial(), e) == s && Sends(cfg, Initial(), e) && IsSelection(v, s.pressed)
    ensures Reachable(cfg, y)
    ensures y == System([Initial(), s], map[], [Reading(1, 1, v, s.modifiers)], [0])
  {
    hide Step, Sends, IsSelection, Initial, Reachable;
    var r := Reading(1, 1, v, s.modifiers);
    y := StartIsReachable(cfg);
    y := TakeStep(cfg, y, Change(0, e), System([Initial(), s], map[0 := ToRead(1)], [], []));
    y := TakeStep(cfg, y, Read(0, v), System([Initial(), s], map[0 := ToSend(0)], [r], []));
    y := TakeStep(cfg, y, Send(0), System([Initial(), s], map[], [r], [0]));
  }

  lemma StartIsReachable(cfg: Config) returns (y: System)
    ensures Reachable(cfg, y) && y == System([Initial()], map[], [], [])
  {
    y := System([Initial()], map[], [], []);
    assert IsExecution(cfg, [y]);
  }

  lemma TakeStep(cfg: Config, y: System, a: Action, next: System) returns (y': System)
    requires Reachable(cfg, y) && y.history != [] && Enabled(y, a) && Perform(cfg, y, a) == next
    ensures Reachable(cfg, next) && y' == next
  {
    hide Step, Sends, Reachable;
    ReachOneMore(cfg, y, a);
    y' := next;
  }

  /** Such a reordering can happen: the guest is left with one key of the two that are held. */
  lemma StaleReportExists() returns (cfg: Config, y: System)
    ensures Reachable(cfg, y) && Quiescent(y) && y.history != []
    ensures y.sent == [1, 0] && |y.readings| == 2
    ensures y.Shared().pressed == {4, 5} && y.readings[0].keys == [4]
    ensures !Describes(y.readings[0], y.Shared())
  {
    cfg := Config(200, 100, 300);
    var a, b := UdpEdge(1, 0, 4, true), QuicEdge(1, 0, 5, 1, 0);
    var s1 := Step(cfg, Initial(), a);
    var s2 := Step(cfg, s1, b);
    assert s1.pressed == {4} && s2.pressed == {4, 5};
    y := TwoCrossedHandlers(cfg, a, b, s1, s2, [4], [4, 5]);
  }

  /**
   With at most six keys involved, what the guest was told last is current exactly when
   nothing that reports show differs from what held at that reading.
   */
  lemma FreshIff(cfg: Config, y: System)
    requires Reachable(cfg, y) && y.sent != []
    requires y.history != [] && y.sent[|y.sent| - 1] < |y.readings|
    requires
      var r := y.readings[y.sent[|y.sent| - 1]];
      r.at < |y.history| && |y.history[r.at].pressed| <= 6 && |y.Shared().pressed| <= 6
    ensures
      var r := y.readings[y.sent[|y.sent| - 1]];
      Describes(r, y.Shared()) <==> View(y.history[r.at]) == View(y.Shared())
  {
    var r := y.readings[y.sent[|y.sent| - 1]];
    SentReportsAreHonest(cfg, y, |y.sent| - 1);
    SelectionIsWhole(r.keys, y.history[r.at].pressed);
    if Describes(r, y.Shared()) {
      SelectionIsWhole(r.keys, y.Shared().pressed);
      assert y.history[r.at].pressed == y.Shared().pressed;
    }
  }

  /** Two reports that put the same keys down and have the same modifiers. */
  ghost predicate SayTheSame(r: Reading, r': Reading) {
    r.mods == r'.mods && forall u: Byte :: u in r.keys <==> u in r'.keys
  }

  /**
   Once every handler has finished and at most six keys are held, the guest was told something
   stale last exactly when the newest reading had been sent before, and said something else.
   */
  lemma StaleIff(cfg: Config, y: System)
    requires Reachable(cfg, y) && Quiescent(y) && y.sent != []
    requires y.history != [] && y.sent[|y.sent| - 1] < |y.readings| && |y.Shared().pressed| <= 6
    ensures
      var last, newest := y.sent[|y.sent| - 1], |y.readings| - 1;
      !Describes(y.readings[last], y.Shared()) <==>
        && (exists i :: 0 <= i < |y.sent| - 1 && y.sent[i] == newest)
        && last < newest && !SayTheSame(y.readings[last], y.readings[newest])
  {
    hide Reachable, Quiescent, IsSelection;
    var last, newest := y.sent[|y.sent| - 1], |y.readings| - 1;
    LastReadingIsCurrent(cfg, y);
    SentReportsAreHonest(cfg, y, |y.sent| - 1);
    var r, n, s := y.readings[last], y.readings[newest], y.Shared();
    SelectionIsWhole(n.keys, s.pressed);
    if Describes(r, s) {
      SelectionIsWhole(r.keys, s.pressed);
    } else {
      var i :| 0 <= i < |y.sent| && y.sent[i] == newest;
      if SayTheSame(r, n) {
        SelectionOfSame(r.keys, y.history[r.at].pressed, s.pressed);
      }
    }
  }

  // A selection whose members are a set of at most six is a selection from that set.
  lemma SelectionOfSame(v: seq<Byte>, pressed: set<Byte>, shown: set<Byte>)
    requires IsSelection(v, pressed) && |shown| <= 6
    requires forall u: Byte :: u in shown <==> u in v
    ensures IsSelection(v, shown)
  {
    DistinctCount(v);
    assert (set i | 0 <= i < |v| :: v[i]) == shown;
  }
}

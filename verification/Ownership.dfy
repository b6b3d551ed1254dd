/** Whose reports are sent: each handler that has something to tell reads and sends one report. */
module Ownership {
  import opened Words
  import opened KeyState
  import opened KeyInvariants
  import opened KeyHistory
  import opened Interleaving

  /** A handler owes a report for every snapshot, every accepted edge, and a tick that lets go of a key. */
  ghost predicate Owes(cfg: Config, s: State, e: Event) {
    || e.Snapshot?
    || (exists u: Byte :: EdgeOf(cfg, e, u).Some?)
    || (e.Tick? && Step(cfg, s, e).pressed != s.pressed)
  }

  lemma OwesIsSends(cfg: Config, s: State, e: Event)
    ensures Owes(cfg, s, e) <==> Sends(cfg, s, e)
  {
    match e
    case UdpEdge(now, stamp, key, down) =>
      if Sends(cfg, s, e) {
        assert EdgeOf(cfg, e, key).Some?;
      }
    case QuicEdge(now, tMs, usage, cmd, mods) =>
      if Sends(cfg, s, e) {
        assert EdgeOf(cfg, e, usage).Some?;
      }
    case Tick(now) =>
      if u :| u in s.pressed && IsExpired(cfg, s.keymeta[u], now) {
        assert u !in Step(cfg, s, e).pressed;
      } else {
        assert Step(cfg, s, e).pressed == s.pressed;
      }
    case _ =>
  }

  /** How many of the first `n` events owe a report. */
  ghost function Owed(cfg: Config, es: seq<Event>, n: nat): nat
    requires n <= |es|
  {
    if n == 0 then 0
    else Owed(cfg, es, n - 1) + if Owes(cfg, After(cfg, Initial(), es, n - 1), es[n - 1]) then 1 else 0
  }

  lemma {:induction false} OwedInFront(cfg: Config, es: seq<Event>, es': seq<Event>, n: nat)
    requires n <= |es| && es <= es'
    ensures Owed(cfg, es, n) == Owed(cfg, es', n)
  {
    hide Owes, Step;
    if n > 0 {
      OwedInFront(cfg, es, es', n - 1);
      AfterPrefix(cfg, Initial(), es, es', n - 1);
    }
  }

  // The event behind a change: the change that made state `c` of the history.
  ghost predicate IsOwedChange(cfg: Config, es: seq<Event>, c: nat) {
    0 < c <= |es| && Owes(cfg, After(cfg, Initial(), es, c - 1), es[c - 1])
  }

  // Reports under way and sent are as many as owed, and each stands for a change of its own.
  ghost predicate Books(cfg: Config, y: System, es: seq<Event>) {
    && |y.stages| + |y.sent| == Owed(cfg, es, |es|)
    && (forall k :: 0 <= k < |y.readings| ==> IsOwedChange(cfg, es, y.readings[k].changed))
    && (forall t :: t in y.stages && y.stages[t].ToRead? ==> IsOwedChange(cfg, es, y.stages[t].changed))
  }

  ghost predicate OwnChanges(y: System) {
    && (forall j, k :: 0 <= j < k < |y.readings| ==> y.readings[j].changed != y.readings[k].changed)
    && (forall t, k :: t in y.stages && y.stages[t].ToRead? && 0 <= k < |y.readings| ==>
          y.readings[k].changed != y.stages[t].changed)
    && (forall t, t' :: t in y.stages && t' in y.stages && t != t' && y.stages[t].ToRead? && y.stages[t'].ToRead? ==>
          y.stages[t].changed != y.stages[t'].changed)
  }

  lemma OwedChangeStays(cfg: Config, es: seq<Event>, es': seq<Event>, c: nat)
    requires es <= es' && IsOwedChange(cfg, es, c)
    ensures IsOwedChange(cfg, es', c)
  {
    hide Owes;
    AfterPrefix(cfg, Initial(), es, es', c - 1);
  }

  lemma ChangeKeepsBooks(cfg: Config, y: System, t: ThreadId, e: Event, es: seq<Event>)
    requires IsHistoryOf(cfg, y, es) && Books(cfg, y, es) && OwnChanges(y) && t !in y.stages
    ensures
      var y' := Perform(cfg, y, Change(t, e));
      IsHistoryOf(cfg, y', es + [e]) && Books(cfg, y', es + [e]) && OwnChanges(y')
  {
    hide Step, Sends, Owes, Initial;
    var y', es' := Perform(cfg, y, Change(t, e)), es + [e];
    forall i | 0 <= i <= |es|
      ensures y'.history[i] == After(cfg, Initial(), es', i)
    {
      AfterPrefix(cfg, Initial(), es, es', i);
    }
    assert es'[|es|] == e && y.Shared() == After(cfg, Initial(), es', |es|);
    OwedInFront(cfg, es, es', |es|);
    OwesIsSends(cfg, y.Shared(), e);
    forall k | 0 <= k < |y.readings|
      ensures IsOwedChange(cfg, es', y'.readings[k].changed)
    {
      OwedChangeStays(cfg, es, es', y.readings[k].changed);
    }
    forall t' | t' in y'.stages && y'.stages[t'].ToRead?
      ensures IsOwedChange(cfg, es', y'.stages[t'].changed)
    {
      if t' != t {
        OwedChangeStays(cfg, es, es', y.stages[t'].changed);
      }
    }
  }

  lemma ReadKeepsBooks(cfg: Config, y: System, t: ThreadId, keys: seq<Byte>, es: seq<Event>)
    requires IsHistoryOf(cfg, y, es) && Books(cfg, y, es) && OwnChanges(y)
    requires t in y.stages && y.stages[t].ToRead?
    ensures
      var y' := Perform(cfg, y, Read(t, keys));
      IsHistoryOf(cfg, y', es) && Books(cfg, y', es) && OwnChanges(y')
  {
    hide Step, Owes, IsOwedChange;
    var y' := Perform(cfg, y, Read(t, keys));
    assert y'.stages.Keys == y.stages.Keys;
    assert |y'.stages| == |y'.stages.Keys| == |y.stages|;
  }

  lemma SendKeepsBooks(cfg: Config, y: System, t: ThreadId, es: seq<Event>)
    requires IsHistoryOf(cfg, y, es) && Books(cfg, y, es) && OwnChanges(y)
    requires t in y.stages && y.stages[t].ToSend?
    ensures
      var y' := Perform(cfg, y, Send(t));
      IsHistoryOf(cfg, y', es) && Books(cfg, y', es) && OwnChanges(y')
  {
    hide Step, Owes, IsOwedChange;
    var y' := Perform(cfg, y, Send(t));
    assert y'.stages.Keys == y.stages.Keys - {t};
    assert |y'.stages| == |y'.stages.Keys| == |y.stages| - 1;
  }

  lemma NextKeepsBooks(cfg: Config, y: System, y': System, es: seq<Event>) returns (es': seq<Event>)
    requires Next(cfg, y, y') && IsHistoryOf(cfg, y, es) && Books(cfg, y, es) && OwnChanges(y)
    ensures IsHistoryOf(cfg, y', es') && Books(cfg, y', es') && OwnChanges(y')
  {
    hide Perform, IsHistoryOf, Books, OwnChanges;
    var a: Action :| y.history != [] && Enabled(y, a) && y' == Perform(cfg, y, a);
    es' := es;
    match a
    case Change(t, e) =>
      ChangeKeepsBooks(cfg, y, t, e, es);
      es' := es + [e];
    case Read(t, keys) => ReadKeepsBooks(cfg, y, t, keys, es);
    case Send(t) => SendKeepsBooks(cfg, y, t, es);
  }

  lemma {:induction false} ExecutionsKeepBooks(cfg: Config, ys: seq<System>) returns (es: seq<Event>)
    requires IsExecution(cfg, ys)
    ensures
      var y := ys[|ys| - 1];
      IsHistoryOf(cfg, y, es) && Books(cfg, y, es) && OwnChanges(y)
  {
    hide Next;
    var n := |ys| - 1;
    if n == 0 {
      es := [];
    } else {
      es := ExecutionsKeepBooks(cfg, ys[..n]);
      es := NextKeepsBooks(cfg, ys[n - 1], ys[n], es);
    }
  }

  /**
   In every interleaving: the reports sent and the handlers still under way are together as many
   as the events that owe a report, each report was read for such an event, no earlier than its
   change, and no two for the same.  So once all have finished, each such event has had its one
   report.
   */
  lemma EachHandlerReportsOnce(cfg: Config, y: System) returns (es: seq<Event>)
    requires Reachable(cfg, y)
    ensures IsHistoryOf(cfg, y, es) && |y.stages| + |y.sent| == Owed(cfg, es, |es|)
    ensures forall i :: 0 <= i < |y.sent| ==>
      && y.sent[i] < |y.readings|
      && IsOwedChange(cfg, es, y.readings[y.sent[i]].changed)
      && y.readings[y.sent[i]].changed <= y.readings[y.sent[i]].at
    ensures forall i, j :: 0 <= i < j < |y.sent| && y.sent[i] < |y.readings| && y.sent[j] < |y.readings| ==>
      y.readings[y.sent[i]].changed != y.readings[y.sent[j]].changed
    ensures Quiescent(y) ==> |y.sent| == Owed(cfg, es, |es|)
  {
    hide IsHistoryOf, IsOwedChange, StatesAgree, NothingForgotten, Describes;
    var ys :| IsExecution(cfg, ys) && ys[|ys| - 1] == y;
    es := ExecutionsKeepBooks(cfg, ys);
    ExecutionsKeepInv(cfg, ys);
  }
}

/**
 Guarantees over whole runs that speak about time: convergence after a snapshot,
 the watchdog's bound on staleness, and the bound on healing a lost key-up.
 */
module KeyTiming {
  import opened Words
  import opened KeyState
  import opened KeyInvariants
  import opened KeyHistory

  // Convergence

  /**
   The two daemons show the same keys and modifiers at every step of every later run whose
   clocks are not before `from`.
   */
  ghost predicate AgreeFrom(cfg: Config, a: State, b: State, from: U64, skew: nat) {
    forall es: seq<Event>, n: nat | n <= |es| && WithinSkew(es, skew) && NoneBefore(es, from) ::
      View(After(cfg, a, es, n)) == View(After(cfg, b, es, n))
  }

  ghost predicate NoneBefore(es: seq<Event>, from: U64) {
    forall i :: 0 <= i < |es| ==> es[i].now >= from
  }

  /** From `from` on the watchdog lets this key be: it was in no snapshot, or the clock ends first. */
  predicate NeverExpires(cfg: Config, km: KeyMeta, from: U64) {
    || km.lastSnapshot == 0
    || (km.lastSnapshot <= from && km.lastSnapshot + cfg.WatchdogNs() >= TWO_TO_64 - 1)
  }

  /** The key is too old already. */
  predicate ExpiredForGood(cfg: Config, km: KeyMeta, from: U64) {
    km.lastSnapshot != 0 && from - km.lastSnapshot > cfg.WatchdogNs()
  }

  predicate SameToWatchdog(cfg: Config, p: KeyMeta, q: KeyMeta, from: U64) {
    || p.lastSnapshot == q.lastSnapshot
    || (NeverExpires(cfg, p, from) && NeverExpires(cfg, q, from))
    || (ExpiredForGood(cfg, p, from) && ExpiredForGood(cfg, q, from))
  }

  lemma SameExpiry(cfg: Config, p: KeyMeta, q: KeyMeta, from: U64, now: U64)
    requires cfg.watchdogMs > 0 && SameToWatchdog(cfg, p, q, from) && now >= from
    ensures IsExpired(cfg, p, now) == IsExpired(cfg, q, now)
  {
    hide IsExpired;
    ExpiredIff(cfg, p, now);
    ExpiredIff(cfg, q, now);
  }

  // A tick, not before `from`, at which exactly one of the two keys has expired.
  lemma TellingTick(cfg: Config, p: KeyMeta, q: KeyMeta, from: U64) returns (now: U64)
    requires cfg.watchdogMs > 0 && !SameToWatchdog(cfg, p, q, from) && p.lastSnapshot < q.lastSnapshot
    ensures now >= from && IsExpired(cfg, p, now) != IsExpired(cfg, q, now)
  {
    hide IsExpired;
    var w, earlier, later := cfg.WatchdogNs(), p.lastSnapshot, q.lastSnapshot;
    if later > from {
      now := if earlier == 0 || later - earlier <= w then later - 1 else later;
    } else if earlier == 0 {
      now := Max(from, later + w + 1);
    } else {
      now := Max(from, earlier + w + 1);
    }
    ExpiredIff(cfg, p, now);
    ExpiredIff(cfg, q, now);
  }

  // Equal views, and watchdogs that cannot tell the two apart.
  ghost predicate Alike(cfg: Config, a: State, b: State, from: U64) {
    && View(a) == View(b)
    && (cfg.watchdogMs <= 0 || forall u: Byte :: SameToWatchdog(cfg, a.keymeta[u], b.keymeta[u], from))
  }

  lemma StepKeepsAlike(cfg: Config, a: State, b: State, e: Event, from: U64)
    requires Alike(cfg, a, b, from) && e.now >= from
    ensures Alike(cfg, Step(cfg, a, e), Step(cfg, b, e), from)
  {
    hide NeverExpires, ExpiredForGood;
    var a', b' := Step(cfg, a, e), Step(cfg, b, e);
    if e.Tick? {
      forall u | u in a.pressed
        ensures IsExpired(cfg, a.keymeta[u], e.now) == IsExpired(cfg, b.keymeta[u], e.now)
      {
        if cfg.watchdogMs > 0 {
          SameExpiry(cfg, a.keymeta[u], b.keymeta[u], from, e.now);
        }
      }
      assert a'.pressed == b'.pressed;
    }
    if cfg.watchdogMs > 0 {
      forall u: Byte
        ensures SameToWatchdog(cfg, a'.keymeta[u], b'.keymeta[u], from)
      {
        StepKeepsSame(cfg, a, b, e, from, u);
      }
    }
  }

  // No event but a snapshot writes the confirmation time, and a snapshot writes the same to both.
  lemma StepKeepsSame(cfg: Config, a: State, b: State, e: Event, from: U64, u: Byte)
    requires SameToWatchdog(cfg, a.keymeta[u], b.keymeta[u], from)
    ensures SameToWatchdog(cfg, Step(cfg, a, e).keymeta[u], Step(cfg, b, e).keymeta[u], from)
  {
    var a', b' := Step(cfg, a, e).keymeta[u], Step(cfg, b, e).keymeta[u];
    if e.Snapshot? && u in e.keys {
      assert a'.lastSnapshot == e.now == b'.lastSnapshot;
    } else {
      assert a'.lastSnapshot == a.keymeta[u].lastSnapshot && b'.lastSnapshot == b.keymeta[u].lastSnapshot;
    }
  }

  lemma {:induction false} AlikeFrom(cfg: Config, a: State, b: State, es: seq<Event>, n: nat, from: U64)
    requires Alike(cfg, a, b, from) && n <= |es| && NoneBefore(es, from)
    ensures Alike(cfg, After(cfg, a, es, n), After(cfg, b, es, n), from)
  {
    hide Step, Alike;
    if n > 0 {
      AlikeFrom(cfg, a, b, es, n - 1, from);
      StepKeepsAlike(cfg, After(cfg, a, es, n - 1), After(cfg, b, es, n - 1), es[n - 1], from);
    }
  }

  // The run that tells two daemons apart: press the key, then let the watchdog look.
  lemma TellingRun(cfg: Config, a: State, b: State, u: Byte, from: U64, skew: nat)
    requires cfg.watchdogMs > 0 && !SameToWatchdog(cfg, a.keymeta[u], b.keymeta[u], from)
    ensures !AgreeFrom(cfg, a, b, from, skew)
  {
    hide SameToWatchdog;
    var press := QuicEdge(from, from / 1000000, u, 1, 0);
    var a1, b1 := Step(cfg, a, press), Step(cfg, b, press);
    var p, q := a1.keymeta[u], b1.keymeta[u];
    var now := TellingTickEitherWay(cfg, a.keymeta[u], b.keymeta[u], from, p, q);
    var es := [press, Tick(now)];
    assert After(cfg, a, es, 0) == a && After(cfg, b, es, 0) == b;
    assert After(cfg, a, es, 1) == a1 && After(cfg, b, es, 1) == b1;
    assert After(cfg, a, es, 2) == ApplyTick(cfg, a1, now);
    assert After(cfg, b, es, 2) == ApplyTick(cfg, b1, now);
    assert u in ApplyTick(cfg, a1, now).pressed <==> !IsExpired(cfg, p, now);
    assert u in ApplyTick(cfg, b1, now).pressed <==> !IsExpired(cfg, q, now);
    assert View(After(cfg, a, es, 2)) != View(After(cfg, b, es, 2));
    assert WithinSkew(es, skew) && NoneBefore(es, from);
  }

  lemma TellingTickEitherWay(cfg: Config, a: KeyMeta, b: KeyMeta, from: U64, p: KeyMeta, q: KeyMeta)
    returns (now: U64)
    requires cfg.watchdogMs > 0 && !SameToWatchdog(cfg, a, b, from)
    requires p.lastSnapshot == a.lastSnapshot && q.lastSnapshot == b.lastSnapshot
    ensures now >= from && IsExpired(cfg, p, now) != IsExpired(cfg, q, now)
  {
    hide IsExpired;
    if p.lastSnapshot < q.lastSnapshot {
      now := TellingTick(cfg, p, q, from);
    } else {
      now := TellingTick(cfg, q, p, from);
    }
  }

  /**
   Two daemons in any two states that apply the same snapshot agree in every run whose clocks
   are not before `from` (the snapshot's own clock, or less by the skew) exactly when no
   watchdog runs or, for each key that the snapshot omits, the watchdog sees no difference:
   the key was last confirmed at the same time in both, or it can expire in neither, or it had
   expired in both by then.
   */
  lemma SnapshotConvergesIff(
    cfg: Config, a: State, b: State, now: U64, keys: HidKeys, mods: Byte, from: U64, skew: nat)
    ensures
      var snap := Snapshot(now, keys, mods);
      AgreeFrom(cfg, Step(cfg, a, snap), Step(cfg, b, snap), from, skew) <==>
        || cfg.watchdogMs <= 0
        || forall u: Byte | u !in keys :: SameToWatchdog(cfg, a.keymeta[u], b.keymeta[u], from)
  {
    hide NeverExpires, ExpiredForGood;
    var snap := Snapshot(now, keys, mods);
    var a1, b1 := Step(cfg, a, snap), Step(cfg, b, snap);
    forall u: Byte
      ensures u in keys ==> a1.keymeta[u].lastSnapshot == now == b1.keymeta[u].lastSnapshot
      ensures u !in keys ==>
        && a1.keymeta[u].lastSnapshot == a.keymeta[u].lastSnapshot
        && b1.keymeta[u].lastSnapshot == b.keymeta[u].lastSnapshot
      ensures SameToWatchdog(cfg, a1.keymeta[u], b1.keymeta[u], from) <==>
        u in keys || SameToWatchdog(cfg, a.keymeta[u], b.keymeta[u], from)
    {
      OnlyTimesMatter(cfg, a.keymeta[u], b.keymeta[u], a1.keymeta[u], b1.keymeta[u], from);
    }
    if Alike(cfg, a1, b1, from) {
      forall es: seq<Event>, n: nat | n <= |es| && WithinSkew(es, skew) && NoneBefore(es, from)
        ensures View(After(cfg, a1, es, n)) == View(After(cfg, b1, es, n))
      {
        AlikeFrom(cfg, a1, b1, es, n, from);
      }
    } else {
      var u: Byte :| !SameToWatchdog(cfg, a1.keymeta[u], b1.keymeta[u], from);
      TellingRun(cfg, a1, b1, u, from, skew);
    }
  }

  lemma OnlyTimesMatter(cfg: Config, p: KeyMeta, q: KeyMeta, p': KeyMeta, q': KeyMeta, from: U64)
    ensures p'.lastSnapshot == p.lastSnapshot && q'.lastSnapshot == q.lastSnapshot ==>
      (SameToWatchdog(cfg, p', q', from) <==> SameToWatchdog(cfg, p, q, from))
  {
  }

  // Time and the order of the lock

  /**
   A handler reads its clock before it waits for the lock, so a later section may carry an
   earlier time, but by no more than `skew`.
   */
  ghost predicate WithinSkew(es: seq<Event>, skew: nat) {
    forall i, j :: 0 <= i <= j < |es| ==> es[i].now <= es[j].now + skew
  }

  ghost predicate InLockOrder(es: seq<Event>) {
    WithinSkew(es, 0)
  }

  // The watchdog

  /** The clock of the last tick among the first `n` events, or the start of the run. */
  function LastTick(start: nat, es: seq<Event>, n: nat): nat
    requires n <= |es|
  {
    if n == 0 then start
    else if es[n - 1].Tick? then es[n - 1].now
    else LastTick(start, es, n - 1)
  }

  /** An accepted down edge of `u` since the last tick. */
  ghost predicate DownSinceTick(cfg: Config, es: seq<Event>, n: nat, u: Byte)
    requires n <= |es|
  {
    exists i :: 0 <= i < n && EdgeOf(cfg, es[i], u) == Some(true) && forall j :: i < j < n ==> !es[j].Tick?
  }

  // What is known of a pressed key since the last tick.
  predicate ConfirmedSince(km: KeyMeta, since: int) {
    km.lastSnapshot == 0 || km.lastSnapshot >= since
  }

  lemma StepConfirms(cfg: Config, s: State, e: Event, u: Byte, since: int)
    requires u in s.pressed ==> ConfirmedSince(s.keymeta[u], since)
    requires since <= e.now && !e.Tick? && EdgeOf(cfg, e, u) != Some(true)
    ensures u in Step(cfg, s, e).pressed ==> ConfirmedSince(Step(cfg, s, e).keymeta[u], since)
  {
  }

  lemma TickConfirms(cfg: Config, s: State, e: Event, u: Byte)
    requires cfg.watchdogMs > 0 && e.Tick?
    ensures u in Step(cfg, s, e).pressed ==> ConfirmedSince(Step(cfg, s, e).keymeta[u], e.now - cfg.WatchdogNs())
  {
    ExpiredIff(cfg, s.keymeta[u], e.now);
  }

  lemma {:induction false} LastTickBounded(start: nat, es: seq<Event>, n: nat, skew: nat)
    requires n <= |es| && WithinSkew(es, skew)
    requires forall j :: 0 <= j < |es| ==> start <= es[j].now + skew
    ensures forall j :: n <= j < |es| ==> LastTick(start, es, n) <= es[j].now + skew
  {
    if n > 0 {
      LastTickBounded(start, es, n - 1, skew);
    }
  }

  lemma {:induction false} ConfirmedSinceTick(cfg: Config, es: seq<Event>, n: nat, start: nat, skew: nat, u: Byte)
    requires cfg.watchdogMs > 0 && n <= |es| && WithinSkew(es, skew)
    requires forall j :: 0 <= j < |es| ==> start <= es[j].now + skew
    ensures u in After(cfg, Initial(), es, n).pressed && !DownSinceTick(cfg, es, n, u) ==>
      ConfirmedSince(After(cfg, Initial(), es, n).keymeta[u], LastTick(start, es, n) - Max(cfg.WatchdogNs(), skew))
  {
    hide Step, EdgeOf;
    if n > 0 {
      ConfirmedSinceTick(cfg, es, n - 1, start, skew, u);
      var s, e := After(cfg, Initial(), es, n - 1), es[n - 1];
      LastTickBounded(start, es, n - 1, skew);
      if e.Tick? {
        TickConfirms(cfg, s, e, u);
      } else if EdgeOf(cfg, e, u) == Some(true) || DownSinceTick(cfg, es, n - 1, u) {
        DownStays(cfg, es, n, u);
      } else {
        StepConfirms(cfg, s, e, u, LastTick(start, es, n - 1) - Max(cfg.WatchdogNs(), skew));
      }
    } else {
      NothingPressedAtFirst(u);
    }
  }

  lemma NothingPressedAtFirst(u: Byte)
    ensures u !in Initial().pressed && Initial().keymeta[u].lastSnapshot == 0
  {
  }

  // A down edge counts until the next tick.
  lemma DownStays(cfg: Config, es: seq<Event>, n: nat, u: Byte)
    requires 0 < n <= |es| && !es[n - 1].Tick?
    requires EdgeOf(cfg, es[n - 1], u) == Some(true) || DownSinceTick(cfg, es, n - 1, u)
    ensures DownSinceTick(cfg, es, n, u)
  {
    hide EdgeOf;
    if EdgeOf(cfg, es[n - 1], u) != Some(true) {
      var i :| 0 <= i < n - 1 && EdgeOf(cfg, es[i], u) == Some(true) && forall j :: i < j < n - 1 ==> !es[j].Tick?;
      assert forall j :: i < j < n ==> !es[j].Tick?;
    }
  }

  /**
   With a watchdog of W and ticks at most `period` apart, a key that is pressed at time `t`
   was never in a snapshot, or was in one at most W + period ago (the skew + period, if the
   skew is more than W), or went down since the last tick.
   */
  lemma WatchdogBound(
    cfg: Config, es: seq<Event>, n: nat, start: nat, t: nat, period: nat, skew: nat, u: Byte)
    requires cfg.watchdogMs > 0 && n <= |es| && WithinSkew(es, skew)
    requires forall j :: 0 <= j < |es| ==> start <= es[j].now + skew
    requires t - LastTick(start, es, n) <= period
    requires u in After(cfg, Initial(), es, n).pressed
    ensures
      var confirmed := After(cfg, Initial(), es, n).keymeta[u].lastSnapshot;
      || confirmed == 0
      || t - confirmed <= Max(cfg.watchdogMs * 1000000, skew) + period
      || DownSinceTick(cfg, es, n, u)
  {
    hide Step, DownSinceTick, WithinSkew;
    ConfirmedSinceTick(cfg, es, n, start, skew, u);
  }

  // A down edge leaves the confirmation time as it was

  lemma StepKeepsPress(cfg: Config, s: State, e: Event, u: Byte)
    requires !e.Snapshot? && EdgeOf(cfg, e, u) == None
    ensures Step(cfg, s, e).keymeta[u].lastSnapshot == s.keymeta[u].lastSnapshot
    ensures u in Step(cfg, s, e).pressed <==>
      u in s.pressed && !(e.Tick? && IsExpired(cfg, s.keymeta[u], e.now))
  {
  }

  lemma EdgePresses(cfg: Config, s: State, e: Event, u: Byte)
    requires EdgeOf(cfg, e, u) == Some(true)
    ensures u in Step(cfg, s, e).pressed
    ensures Step(cfg, s, e).keymeta[u].lastSnapshot == s.keymeta[u].lastSnapshot
  {
  }

  lemma {:induction false} HeldSincePress(cfg: Config, s: State, es: seq<Event>, i: nat, n: nat, u: Byte)
    requires i < n <= |es| && EdgeOf(cfg, es[i], u) == Some(true)
    requires forall j :: i < j < n ==> !es[j].Snapshot? && EdgeOf(cfg, es[j], u) == None
    ensures After(cfg, s, es, n).keymeta[u].lastSnapshot == After(cfg, s, es, i).keymeta[u].lastSnapshot
    ensures u in After(cfg, s, es, n).pressed <==>
      forall j :: i < j < n && es[j].Tick? ==> !IsExpired(cfg, After(cfg, s, es, i).keymeta[u], es[j].now)
  {
    hide Step, EdgeOf;
    if n == i + 1 {
      EdgePresses(cfg, After(cfg, s, es, i), es[i], u);
    } else {
      HeldSincePress(cfg, s, es, i, n - 1, u);
      StepKeepsPress(cfg, After(cfg, s, es, n - 1), es[n - 1], u);
    }
  }

  /**
   Until the next snapshot or edge of its key, a press that was acted on holds exactly until a
   tick finds the confirmation from before the press too old, however young the press.
   */
  lemma PressHoldsIff(cfg: Config, es: seq<Event>, i: nat, n: nat, u: Byte)
    requires i < n <= |es| && EdgeOf(cfg, es[i], u) == Some(true)
    requires forall j :: i < j < n ==> !es[j].Snapshot? && EdgeOf(cfg, es[j], u) == None
    ensures u in After(cfg, Initial(), es, n).pressed <==>
      forall j, k :: i < j < n && es[j].Tick? && LastConfirmedBy(es, i, u, k) ==> !TickReleases(cfg, es, j, k)
  {
    hide Step, EdgeOf, IsExpired;
    HeldSincePress(cfg, Initial(), es, i, n, u);
    forall j | i < j < n && es[j].Tick?
      ensures IsExpired(cfg, After(cfg, Initial(), es, i).keymeta[u], es[j].now) <==>
        exists k :: LastConfirmedBy(es, i, u, k) && TickReleases(cfg, es, j, k)
    {
      ExpiredInRunIff(cfg, es, i, u, j);
    }
  }

  /** The last of the first `n` events that is a snapshot with `u` in it. */
  ghost predicate LastConfirmedBy(es: seq<Event>, n: nat, u: Byte, k: int)
    requires n <= |es|
  {
    && 0 <= k < n && es[k].Snapshot? && u in es[k].keys
    && forall j :: k < j < n && es[j].Snapshot? ==> u !in es[j].keys
  }

  lemma LastConfirmedWrites(es: seq<Event>, n: nat, u: Byte, k: int, t: U64)
    requires n <= |es|
    ensures LastWriteIs(ConfirmWrites(es, n, u), k, t) <==> LastConfirmedBy(es, n, u, k) && es[k].now == t
  {
    var w := ConfirmWrites(es, n, u);
    assert forall j :: 0 <= j < n ==> (w[j] == None <==> !(es[j].Snapshot? && u in es[j].keys));
  }

  /** The tick `j` finds a key too old that was last in the snapshot `k`, or was overtaken by it. */
  predicate TickReleases(cfg: Config, es: seq<Event>, j: int, k: int)
    requires 0 <= j < |es|
  {
    && cfg.watchdogMs > 0 && 0 <= k < |es| && es[k].now != 0
    && (es[j].now - es[k].now > cfg.watchdogMs * 1000000 ||
        0 < es[k].now - es[j].now < TWO_TO_64 - cfg.watchdogMs * 1000000)
  }

  lemma ExpiredInRunIff(cfg: Config, es: seq<Event>, n: nat, u: Byte, j: nat)
    requires n <= |es| && j < |es|
    ensures IsExpired(cfg, After(cfg, Initial(), es, n).keymeta[u], es[j].now) <==>
      exists k :: LastConfirmedBy(es, n, u, k) && TickReleases(cfg, es, j, k)
  {
    hide Step, IsExpired, ConfirmWrites;
    var km := After(cfg, Initial(), es, n).keymeta[u];
    var w := ConfirmWrites(es, n, u);
    ConfirmationIsLastWrite(cfg, Initial(), es, n, u, km.lastSnapshot);
    NothingPressedAtFirst(u);
    if cfg.watchdogMs > 0 {
      ExpiredIff(cfg, km, es[j].now);
    } else {
      NoWatchdog(cfg, km, es[j].now);
    }
    forall k | LastConfirmedBy(es, n, u, k)
      ensures es[k].now == km.lastSnapshot
    {
      LastConfirmedWrites(es, n, u, k, es[k].now);
      ConfirmationIsLastWrite(cfg, Initial(), es, n, u, es[k].now);
    }
    if km.lastSnapshot != 0 {
      var k :| LastWriteIs(w, k, km.lastSnapshot);
      LastConfirmedWrites(es, n, u, k, km.lastSnapshot);
    }
  }

  lemma NoWatchdog(cfg: Config, km: KeyMeta, now: U64)
    requires cfg.watchdogMs <= 0
    ensures !IsExpired(cfg, km, now)
  {
  }

  /**
   In any run a tick lets a pressed key go exactly when the last snapshot that held the key was
   longer ago than the watchdog allows, or is later than the clock that the tick had read.
   */
  lemma TickReleasesIff(cfg: Config, es: seq<Event>, n: nat, u: Byte)
    requires n < |es| && es[n].Tick? && u in After(cfg, Initial(), es, n).pressed
    ensures u !in After(cfg, Initial(), es, n + 1).pressed <==>
      exists k :: LastConfirmedBy(es, n, u, k) && TickReleases(cfg, es, n, k)
  {
    hide IsExpired, LastConfirmedBy, TickReleases;
    ExpiredInRunIff(cfg, es, n, u, n);
  }

  /** A key that was pressed five milliseconds ago goes, because its last snapshot was long before. */
  lemma FreshPressReleased()
    ensures
      var cfg, ms := Config(200, 100, 300), 1_000_000;
      var es := [Snapshot(1000 * ms, {4}, 0), Snapshot(2000 * ms, {}, 0),
                 UdpEdge(10_000 * ms, 10_000 * ms, 4, true), Tick(10_005 * ms)];
      4 in After(cfg, Initial(), es, 3).pressed && 4 !in After(cfg, Initial(), es, 4).pressed
  {
    hide Step, Initial, IsExpired;
    var cfg, ms := Config(200, 100, 300), 1_000_000;
    var es := [Snapshot(1000 * ms, {4}, 0), Snapshot(2000 * ms, {}, 0),
               UdpEdge(10_000 * ms, 10_000 * ms, 4, true), Tick(10_005 * ms)];
    UdpAcceptsIff(cfg, 10_000 * ms, 10_000 * ms);
    assert EdgeOf(cfg, es[2], 4) == Some(true);
    PressHoldsIff(cfg, es, 2, 3, 4);
    PressHoldsIff(cfg, es, 2, 4, 4);
    assert LastConfirmedBy(es, 2, 4, 0);
    assert TickReleases(cfg, es, 3, 0);
  }

  lemma StepConfirmsNothing(cfg: Config, s: State, e: Event, u: Byte)
    requires !e.Snapshot? && s.keymeta[u].lastSnapshot == 0
    ensures Step(cfg, s, e).keymeta[u].lastSnapshot == 0
    ensures !WatchdogReleases(cfg, s, e, u)
  {
  }

  /** Without snapshots the watchdog lets nothing go. */
  lemma {:induction false} NoSnapshotsNoReleases(cfg: Config, es: seq<Event>, n: nat, u: Byte)
    requires n < |es| && forall i :: 0 <= i <= n ==> !es[i].Snapshot?
    ensures After(cfg, Initial(), es, n).keymeta[u].lastSnapshot == 0
    ensures !WatchdogReleases(cfg, After(cfg, Initial(), es, n), es[n], u)
  {
    hide Step, WatchdogReleases;
    if n > 0 {
      NoSnapshotsNoReleases(cfg, es, n - 1, u);
      StepConfirmsNothing(cfg, After(cfg, Initial(), es, n - 1), es[n - 1], u);
    } else {
      NothingPressedAtFirst(u);
    }
    StepConfirmsNothing(cfg, After(cfg, Initial(), es, n), es[n], u);
  }

  /** Nor does a tick change the key set. */
  lemma QuietTick(cfg: Config, es: seq<Event>, n: nat)
    requires n < |es| && es[n].Tick? && forall i :: 0 <= i <= n ==> !es[i].Snapshot?
    ensures After(cfg, Initial(), es, n + 1).pressed == After(cfg, Initial(), es, n).pressed
  {
    var before := After(cfg, Initial(), es, n);
    forall u | u in before.pressed
      ensures !IsExpired(cfg, before.keymeta[u], es[n].now)
    {
      NoSnapshotsNoReleases(cfg, es, n, u);
    }
    assert ApplyTick(cfg, before, es[n].now).pressed == before.pressed;
  }

  // Healing

  /** One of the first `n` events is a snapshot applied after `from` and no later than `to`. */
  ghost predicate SnapshotWithin(es: seq<Event>, n: nat, from: int, to: int)
    requires n <= |es|
  {
    exists i :: 0 <= i < n && es[i].Snapshot? && from < es[i].now <= to
  }

  /** Every stretch of length `period` from `from` up to `t` has a snapshot in it. */
  ghost predicate SnapshotsEvery(es: seq<Event>, n: nat, from: int, t: int, period: nat)
    requires n <= |es|
  {
    forall a: int, b: int | from <= a && a + period <= b <= t :: SnapshotWithin(es, n, a, b)
  }

  /**
   The client pressed `u` for the last time at `c` and held it until `released`: no later stamp
   on a down edge, and no key `u` in a later snapshot.
   */
  ghost predicate LastHeld(es: seq<Event>, u: Byte, c: nat, released: int) {
    && (forall i :: 0 <= i < |es| && es[i].UdpEdge? && es[i].key == u && es[i].down ==> 0 < es[i].stamp <= c)
    && (forall i :: 0 <= i < |es| && es[i].QuicEdge? && es[i].usage == u ==> es[i].cmd != 1)
    && (forall i :: 0 <= i < |es| && es[i].Snapshot? && es[i].now > released ==> u !in es[i].keys)
  }

  /** The client pressed `u` for the last time at `c`, and let go of it within the deadline. */
  ghost predicate LastPressedAt(cfg: Config, es: seq<Event>, u: Byte, c: nat) {
    LastHeld(es, u, c, c + cfg.DeadlineNs())
  }

  // Past the deadline nothing presses the key, and a snapshot lets it go.
  lemma LateStepReleases(cfg: Config, s: State, es: seq<Event>, i: nat, u: Byte, c: nat)
    requires cfg.deadlineMs > 0 && i < |es| && LastPressedAt(cfg, es, u, c)
    requires es[i].now > c + cfg.DeadlineNs()
    requires u !in s.pressed || es[i].Snapshot?
    ensures u !in Step(cfg, s, es[i]).pressed
  {
    if es[i].UdpEdge? && es[i].key == u {
      UdpAcceptsIff(cfg, es[i].now, es[i].stamp);
    }
  }

  lemma {:induction false} ReleasedForGood(
    cfg: Config, s: State, es: seq<Event>, i: nat, n: nat, u: Byte, c: nat, skew: nat)
    requires cfg.deadlineMs > 0 && i < n <= |es| && LastPressedAt(cfg, es, u, c) && WithinSkew(es, skew)
    requires es[i].Snapshot? && es[i].now > c + cfg.DeadlineNs() + skew
    ensures u !in After(cfg, s, es, n).pressed
    decreases n
  {
    hide Step, LastPressedAt;
    if n > i + 1 {
      ReleasedForGood(cfg, s, es, i, n - 1, u, c, skew);
    }
    LateStepReleases(cfg, After(cfg, s, es, n - 1), es, n - 1, u, c);
  }

  /**
   Whatever UDP edges are lost, delayed or reordered, and whatever state the daemon began in,
   a key last pressed at `c` is released by c + deadline + period (and the skew, if there is any).
   */
  lemma HealingBound(
    cfg: Config, s: State, es: seq<Event>, n: nat, u: Byte, c: nat, t: nat, period: nat, skew: nat)
    requires cfg.deadlineMs > 0 && n <= |es| && WithinSkew(es, skew)
    requires LastPressedAt(cfg, es, u, c)
    requires SnapshotsEvery(es, n, c + cfg.DeadlineNs() + skew, t, period)
    requires t >= c + cfg.DeadlineNs() + skew + period
    ensures u !in After(cfg, s, es, n).pressed
  {
    var a := c + cfg.DeadlineNs() + skew;
    assert SnapshotWithin(es, n, a, a + period);
    var i :| 0 <= i < n && es[i].Snapshot? && a < es[i].now <= a + period;
    ReleasedForGood(cfg, s, es, i, n, u, c, skew);
  }

  // The bound is exact

  /** Snapshots at `last` and every `period` before it, all of them empty. */
  function Grid(last: U64, period: nat): seq<Event>
    requires period > 0
    decreases last
  {
    (if last > period then Grid(last - period, period) else []) + [Snapshot(last, {}, 0)]
  }

  lemma {:induction false} GridIsOrdered(last: U64, period: nat)
    requires period > 0
    ensures forall i :: 0 <= i < |Grid(last, period)| ==>
      Grid(last, period)[i].Snapshot? && Grid(last, period)[i].now <= last && Grid(last, period)[i].keys == {}
    ensures InLockOrder(Grid(last, period))
    decreases last
  {
    if last > period {
      GridIsOrdered(last - period, period);
    }
  }

  lemma {:induction false} GridCovers(last: U64, period: nat, a: nat)
    requires period > 0 && a < last
    ensures SnapshotWithin(Grid(last, period), |Grid(last, period)|, a, a + period)
    decreases last
  {
    var n := |Grid(last, period)| - 1;
    if last <= a + period {
      assert Grid(last, period)[n].now == last;
    } else {
      var front := Grid(last - period, period);
      GridCovers(last - period, period, a);
      var i :| 0 <= i < |front| && front[i].Snapshot? && a < front[i].now <= a + period;
      assert Grid(last, period)[i] == front[i];
    }
  }

  /**
   The client presses `u` for the last time at `c` and lets go of it at `released`, snapshots are
   `period` apart all the time, and the run is over at `t`.
   */
  ghost predicate HealingRun(
    es: seq<Event>, u: Byte, c: nat, released: nat, t: nat, period: nat, skew: nat)
  {
    && WithinSkew(es, skew) && LastHeld(es, u, c, released) && SnapshotsEvery(es, |es|, 0, t, period)
    && forall i :: 0 <= i < |es| ==> es[i].now <= t
  }

  // The letters and ENTER, which a text edge can name.
  predicate IsTextKey(u: int) {
    4 <= u <= 0x1D || u == 0x28
  }

  // What can press `u` late: the last edge, or a snapshot taken before the release.
  predicate PressesLate(cfg: Config, e: Event, u: Byte, c: U64, released: nat) {
    || (IsTextKey(u) && e == UdpEdge(e.now, c, u, true) && UdpAccepts(cfg, e.now, c))
    || (IsKeyboardUsage(u) && e == Snapshot(e.now, {u}, 0) && e.now <= released)
  }

  // It takes the lock behind an empty snapshot of clock `last`.
  lemma LatePress(
    cfg: Config, s: State, u: Byte, c: U64, released: nat, e: Event, last: U64, t: U64, period: nat, skew: nat)
    returns (es: seq<Event>)
    requires 0 < c && 0 < period && PressesLate(cfg, e, u, c, released)
    requires e.now <= t && last <= t < last + period && last <= e.now + skew
    ensures HealingRun(es, u, c, released, t, period, skew) && u in After(cfg, s, es, |es|).pressed
    ensures es == Grid(last, period) + [e]
    ensures forall i :: 0 <= i < |es| - 1 ==> es[i].Snapshot? && es[i].keys == {}
  {
    hide UdpAccepts;
    var front := Grid(last, period);
    es := front + [e];
    GridIsOrdered(last, period);
    forall a: int, b: int | 0 <= a && a + period <= b <= t
      ensures SnapshotWithin(es, |es|, a, b)
    {
      GridCovers(last, period, a);
      var i :| 0 <= i < |front| && front[i].Snapshot? && a < front[i].now <= a + period;
      assert es[i] == front[i];
    }
    assert es[|es| - 1] == e;
    assert WithinSkew(es, skew) by {
      assert InLockOrder(front);
    }
  }

  /**
   A client holds `u` from its last press at `c` to `released`, with snapshots `period` apart
   and any losses, delays and reorderings.  In every run from every state the key is released
   `late` after the client let go exactly when there is a deadline and by then the deadline of
   the press and the release itself are both a period and the skew ago.
   */
  lemma HealingTimeIff(cfg: Config, u: Byte, c: U64, released: U64, late: nat, period: nat, skew: nat)
    requires IsTextKey(u)
    requires 0 < c <= released && 0 < period && released + late < TWO_TO_64
    ensures
      (forall s: State, es: seq<Event> | HealingRun(es, u, c, released, released + late, period, skew) ::
         u !in After(cfg, s, es, |es|).pressed) <==>
      cfg.deadlineMs > 0 && released + late >= Max(c + cfg.deadlineMs * 1000000, released) + period + skew
  {
    hide After;
    var t, expiry := released + late, c + cfg.DeadlineNs();
    if cfg.deadlineMs <= 0 {
      var es := LatePress(cfg, Initial(), u, c, released, UdpEdge(t, c, u, true), t, t, period, skew);
    } else if t >= Max(expiry, released) + period + skew {
      forall s: State, es: seq<Event> | HealingRun(es, u, c, released, t, period, skew)
        ensures u !in After(cfg, s, es, |es|).pressed
      {
        HealingBound(cfg, s, es, |es|, u, Max(c, released - cfg.DeadlineNs()), t, period, skew);
      }
    } else if released <= expiry {
      var at: U64 := Min(expiry, t);
      UdpAcceptsIff(cfg, at, c);
      var e := UdpEdge(at, c, u, true);
      var es := LatePress(cfg, Initial(), u, c, released, e, Min(expiry + skew, t), t, period, skew);
    } else {
      var e := Snapshot(released, {u}, 0);
      var es := LatePress(cfg, Initial(), u, c, released, e, Min(released + skew, t), t, period, skew);
    }
  }

  /**
   The promise that a missed release heals within one snapshot interval: kept exactly for the
   keys that are held for at least one deadline, and for none without a deadline.
   */
  lemma HealsWithinIntervalIff(cfg: Config, u: Byte, c: U64, released: U64, period: nat)
    requires IsTextKey(u)
    requires 0 < c <= released && 0 < period && released + period < TWO_TO_64
    ensures
      (forall s: State, es: seq<Event> | HealingRun(es, u, c, released, released + period, period, 0) ::
         u !in After(cfg, s, es, |es|).pressed) <==>
      cfg.deadlineMs > 0 && released >= c + cfg.deadlineMs * 1000000
  {
    hide HealingRun, After;
    HealingTimeIff(cfg, u, c, released, period, period, 0);
  }

  /** Without the deadline filter no time after the last press is late enough for a release. */
  lemma WithoutDeadlineNoBound(cfg: Config, s: State, u: Byte, c: U64, t: U64, period: nat)
    returns (es: seq<Event>)
    requires cfg.deadlineMs <= 0
    requires IsTextKey(u)
    requires 0 < c <= t && 0 < period
    ensures InLockOrder(es) && LastPressedAt(cfg, es, u, c) && SnapshotsEvery(es, |es|, 0, t, period)
    ensures forall i :: 0 <= i < |es| && es[i].Snapshot? ==> es[i].keys == {}
    ensures es != [] && es[|es| - 1].now == t && u in After(cfg, s, es, |es|).pressed
  {
    es := LatePress(cfg, s, u, c, c + Max(cfg.DeadlineNs(), 0), UdpEdge(t, c, u, true), t, t, period, 0);
  }

  // Heal times

  lemma StepKeepsMarkersPast(cfg: Config, s: State, e: Event, u: Byte)
    requires cfg.deadlineMs > 0 && e.now >= cfg.DeadlineNs()
    requires s.keymeta[u].upMarker.Some? ==> s.keymeta[u].upMarker.value <= e.now
    ensures
      var m := Step(cfg, s, e).keymeta[u].upMarker;
      m.Some? ==> m.value <= e.now
  {
    if e.UdpMarker? {
      UdpAcceptsIff(cfg, e.now, e.stamp);
    }
  }

  lemma {:induction false} MarkersArePast(cfg: Config, es: seq<Event>, n: nat, u: Byte, t: U64)
    requires cfg.deadlineMs > 0 && n <= |es| && InLockOrder(es)
    requires forall k :: 0 <= k < n ==> cfg.DeadlineNs() <= es[k].now <= t
    ensures
      var m := After(cfg, Initial(), es, n).keymeta[u].upMarker;
      m.Some? ==> m.value <= t
  {
    hide Step;
    if n > 0 {
      MarkersArePast(cfg, es, n - 1, u, es[n - 1].now);
      StepKeepsMarkersPast(cfg, After(cfg, Initial(), es, n - 1), es[n - 1], u);
    } else {
      FreshMarker(u);
    }
  }

  lemma FreshMarker(u: Byte)
    ensures Initial().keymeta[u].upMarker == None
  {
  }

  /** With lock-order time every heal time is the plain difference: the subtraction never wraps. */
  lemma HealTimesDoNotWrap(cfg: Config, es: seq<Event>, n: nat, u: Byte)
    requires cfg.deadlineMs > 0 && n < |es| && InLockOrder(es) && es[n].Snapshot?
    requires forall k :: 0 <= k <= n ==> es[k].now >= cfg.DeadlineNs()
    requires Heals(After(cfg, Initial(), es, n), es[n].keys, u)
    ensures
      var m := After(cfg, Initial(), es, n).keymeta[u].upMarker.value;
      m <= es[n].now && Wrap64(es[n].now - m) == es[n].now - m
  {
    hide Step;
    MarkersArePast(cfg, es, n, u, es[n].now);
    Wrap64Difference(es[n].now, After(cfg, Initial(), es, n).keymeta[u].upMarker.value);
  }

  /**
   The heal time of a run is the plain difference exactly when the marker that is healed, which
   is the last one accepted, has a stamp no later than the clock of the snapshot.
   */
  lemma HealTimeIsPlainIff(cfg: Config, es: seq<Event>, n: nat, u: Byte) returns (i: nat)
    requires n < |es| && es[n].Snapshot? && Heals(After(cfg, Initial(), es, n), es[n].keys, u)
    ensures i < n && MarkerOf(cfg, es[i], u).Some?
    ensures After(cfg, Initial(), es, n).keymeta[u].upMarker == MarkerOf(cfg, es[i], u)
    ensures forall j :: i < j < n ==> MarkerOf(cfg, es[j], u) == None && EdgeOf(cfg, es[j], u) != Some(false)
    ensures
      var plain := es[n].now - After(cfg, Initial(), es, n).keymeta[u].upMarker.value;
      Wrap64(plain) == plain <==> MarkerOf(cfg, es[i], u).value <= es[n].now
  {
    hide Step, Wrap64, Initial, MarkerOf, EdgeOf;
    var m := After(cfg, Initial(), es, n).keymeta[u].upMarker;
    var w := MarkerWrites(cfg, Initial(), es, n, u);
    MarkerIsLastWrite(cfg, Initial(), es, n, u, m);
    FreshMarker(u);
    i :| LastWriteIs(w, i, m);
    assert w[i] == MarkerWrite(cfg, After(cfg, Initial(), es, i), es[i], u);
    forall j | i < j < n
      ensures MarkerOf(cfg, es[j], u) == None && EdgeOf(cfg, es[j], u) != Some(false)
    {
      assert w[j] == MarkerWrite(cfg, After(cfg, Initial(), es, j), es[j], u);
    }
    Wrap64Difference(es[n].now, m.value);
  }

  // A key goes down, its marker comes, and a snapshot whose clock is behind the stamp heals it.
  function HealedBehind(down: U64, arrival: U64, stamp: U64, heal: U64): seq<Event> {
    [Snapshot(down, {4}, 0), UdpMarker(arrival, stamp, 4), Snapshot(heal, {}, 0)]
  }

  lemma HealTimeWraps(cfg: Config, down: U64, arrival: U64, stamp: U64, heal: U64)
    requires UdpAccepts(cfg, arrival, stamp) && stamp > heal
    ensures
      var es := HealedBehind(down, arrival, stamp, heal);
      var s := After(cfg, Initial(), es, 2);
      Heals(s, es[2].keys, 4) && Wrap64(heal - s.keymeta[4].upMarker.value) == heal - stamp + TWO_TO_64
  {
    hide UdpAccepts, Wrap64;
    var es := HealedBehind(down, arrival, stamp, heal);
    var s := Step(cfg, Initial(), es[0]);
    assert After(cfg, Initial(), es, 0) == Initial();
    assert After(cfg, Initial(), es, 1) == s && s.pressed == {4};
    assert After(cfg, Initial(), es, 2) == Step(cfg, s, es[1]);
    Wrap64Difference(heal, stamp);
  }

  /** Each of the three conditions is needed: there are such runs that lack only that one. */
  lemma HealTimesCanWrap()
    ensures
      var (off, es) := (Config(200, 0, 300), HealedBehind(1, 2, 10, 3));
      InLockOrder(es) && Heals(After(off, Initial(), es, 2), {}, 4) &&
      Wrap64(3 - After(off, Initial(), es, 2).keymeta[4].upMarker.value) == TWO_TO_64 - 7
    ensures
      var cfg, s := Config(200, 100, 300), 1_000_000_000;
      var es := HealedBehind(s, s + 2, s + 2, s + 1);
      (forall i :: 0 <= i < 3 ==> es[i].now >= cfg.DeadlineNs()) && Heals(After(cfg, Initial(), es, 2), {}, 4) &&
      Wrap64(s + 1 - After(cfg, Initial(), es, 2).keymeta[4].upMarker.value) == TWO_TO_64 - 1
    ensures
      var (cfg, es) := (Config(200, 100, 300), HealedBehind(1, 1, TWO_TO_64 - 1, 2));
      InLockOrder(es) && Heals(After(cfg, Initial(), es, 2), {}, 4) &&
      Wrap64(2 - After(cfg, Initial(), es, 2).keymeta[4].upMarker.value) == 3
  {
    hide Step, UdpAccepts, Wrap64, Heals, Initial;
    var off, cfg := Config(200, 0, 300), Config(200, 100, 300);
    UdpAcceptsIff(off, 2, 10);
    HealTimeWraps(off, 1, 2, 10, 3);
    UdpAcceptsIff(cfg, 1_000_000_002, 1_000_000_002);
    HealTimeWraps(cfg, 1_000_000_000, 1_000_000_002, 1_000_000_002, 1_000_000_001);
    UdpAcceptsIff(cfg, 1, TWO_TO_64 - 1);
    HealTimeWraps(cfg, 1, 1, TWO_TO_64 - 1, 2);
  }
}

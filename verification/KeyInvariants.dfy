/** What every handler keeps, and what single events do to the clock arithmetic. */
module KeyInvariants {
  import opened Words
  import opened KeyState

  /** The table and the set tell the same story. */
  ghost predicate Agrees(s: State) {
    forall u: Byte :: s.keymeta[u].pressed <==> u in s.pressed
  }

  lemma StepKeepsAgreement(cfg: Config, s: State, e: Event)
    requires Agrees(s)
    ensures Agrees(Step(cfg, s, e))
  {
    forall u: Byte
      ensures Step(cfg, s, e).keymeta[u].pressed <==> u in Step(cfg, s, e).pressed
    {
      assert s.keymeta[u].pressed <==> u in s.pressed;
    }
  }

  lemma {:induction false} RunsKeepAgreement(cfg: Config, es: seq<Event>, n: nat)
    requires n <= |es|
    ensures Agrees(After(cfg, Initial(), es, n))
  {
    if n > 0 {
      RunsKeepAgreement(cfg, es, n - 1);
      StepKeepsAgreement(cfg, After(cfg, Initial(), es, n - 1), es[n - 1]);
    }
  }

  lemma {:induction false} RunsStayInKeyboardRange(cfg: Config, es: seq<Event>, n: nat)
    requires n <= |es|
    requires forall i :: 0 <= i < n ==> !es[i].QuicEdge?
    ensures forall u <- After(cfg, Initial(), es, n).pressed :: 0x04 <= u <= 0xA5
  {
    if n > 0 {
      RunsStayInKeyboardRange(cfg, es, n - 1);
    }
  }

  // What comes later does not show in the state after the first events.
  lemma {:induction false} AfterPrefix(cfg: Config, s: State, es: seq<Event>, es': seq<Event>, n: nat)
    requires n <= |es| && es <= es'
    ensures After(cfg, s, es, n) == After(cfg, s, es', n)
  {
    if n > 0 {
      AfterPrefix(cfg, s, es, es', n - 1);
    }
  }

  // A handler that does not go on to send leaves what reports show alone.
  lemma SilentHandlersKeepView(cfg: Config, s: State, e: Event)
    requires !Sends(cfg, s, e)
    ensures View(Step(cfg, s, e)) == View(s)
  {
    if e.Tick? {
      forall u | u in s.pressed
        ensures !IsExpired(cfg, s.keymeta[u], e.now)
      {}
      assert Step(cfg, s, e).pressed == s.pressed;
    }
  }

  // Deadline arithmetic

  lemma MsComparison(ns: int, ms: int)
    ensures NsToMs(ns) > ms as real <==> ns > ms * 1000000
  {
    assert NsToMs(ns) * 1000000.0 == ns as real;
    assert (ms * 1000000) as real == ms as real * 1000000.0;
  }

  /** Exactly the stamps that the UDP deadline lets through, wrap-around included. */
  lemma UdpAcceptsIff(cfg: Config, now: U64, stamp: U64)
    ensures UdpAccepts(cfg, now, stamp) <==>
      || cfg.deadlineMs <= 0
      || stamp == 0
      || (stamp <= now && now - stamp <= cfg.deadlineMs * 1000000)
      || stamp - now >= TWO_TO_64 - cfg.deadlineMs * 1000000
  {
    var t := EffectiveStamp(now, stamp);
    Wrap64Difference(now, t);
    MsComparison(Wrap64(now - t), cfg.deadlineMs);
  }

  /** Once the clock has passed one deadline, a stamp from the future is dropped. */
  lemma UdpDropsTheFuture(cfg: Config, now: U64, stamp: U64)
    requires cfg.deadlineMs > 0 && now >= cfg.deadlineMs * 1000000 && stamp != 0
    ensures UdpAccepts(cfg, now, stamp) <==> stamp <= now && now - stamp <= cfg.deadlineMs * 1000000
  {
    UdpAcceptsIff(cfg, now, stamp);
  }

  /** The QUIC edge path compares whole milliseconds, and takes the future as fresh. */
  lemma QuicAcceptsIff(cfg: Config, now: U64, tMs: U64)
    ensures QuicAccepts(cfg, now, tMs) <==>
      cfg.deadlineMs <= 0 || now < (tMs + cfg.deadlineMs + 1) * 1000000
  {
  }

  /**
   Exactly when a tick lets a pressed key go.  The second case is a tick that read
   its clock before a snapshot and took the lock after it.
   */
  lemma ExpiredIff(cfg: Config, km: KeyMeta, now: U64)
    requires cfg.watchdogMs > 0
    ensures IsExpired(cfg, km, now) <==>
      && km.lastSnapshot != 0
      && (now - km.lastSnapshot > cfg.watchdogMs * 1000000 ||
          0 < km.lastSnapshot - now < TWO_TO_64 - cfg.watchdogMs * 1000000)
  {
    Wrap64Difference(now, km.lastSnapshot);
  }

  /** Exactly when a tick finds a key stuck: not reported yet, and too long since its last edge. */
  lemma IsStuckIff(cfg: Config, km: KeyMeta, now: U64)
    ensures IsStuck(cfg, km, now) <==>
      && cfg.stuckMs > 0 && km.lastEdge != 0 && !km.stuckReported
      && (now - km.lastEdge > cfg.stuckMs * 1000000 ||
          0 < km.lastEdge - now < TWO_TO_64 - cfg.stuckMs * 1000000)
  {
    Wrap64Difference(now, km.lastEdge);
  }

  /** A tick that is overtaken by a snapshot releases a key that was just confirmed. */
  lemma OvertakenTickReleasesFreshKey()
    ensures
      var cfg := Config(200, 100, 300);
      var es := [Snapshot(1_000_000_001, {4}, 0), Tick(1_000_000_000)];
      After(cfg, Initial(), es, 1).pressed == {4} && After(cfg, Initial(), es, 2).pressed == {}
  {
    var cfg := Config(200, 100, 300);
    var es := [Snapshot(1_000_000_001, {4}, 0), Tick(1_000_000_000)];
    var s := Step(cfg, Initial(), es[0]);
    assert After(cfg, Initial(), es, 0) == Initial();
    assert After(cfg, Initial(), es, 1) == s;
    assert s.pressed == {4} && s.keymeta[4].lastSnapshot == 1_000_000_001;
    ExpiredIff(cfg, s.keymeta[4], 1_000_000_000);
    assert After(cfg, Initial(), es, 2).pressed == {};
  }

  // A selection from at most six keys is all of them.
  lemma {:induction false} SelectionIsWhole(v: seq<Byte>, pressed: set<Byte>)
    requires IsSelection(v, pressed) && |pressed| <= 6
    ensures forall u: Byte :: u in pressed <==> u in v
  {
    var shown := set i | 0 <= i < |v| :: v[i];
    DistinctCount(v);
    assert shown <= pressed;
    if u: Byte :| u in pressed && u !in shown {
      StrictSubset(shown, pressed, u);
    }
  }

  lemma {:induction false} DistinctCount(v: seq<Byte>)
    requires forall i, j :: 0 <= i < j < |v| ==> v[i] != v[j]
    ensures |set i | 0 <= i < |v| :: v[i]| == |v|
  {
    if v != [] {
      var n := |v| - 1;
      DistinctCount(v[..n]);
      assert (set i | 0 <= i < |v| :: v[i]) == (set i | 0 <= i < n :: v[..n][i]) + {v[n]};
    }
  }

  lemma {:induction false} SubsetSize(a: set<Byte>, b: set<Byte>)
    requires a <= b
    ensures |a| <= |b|
    decreases |a|
  {
    if a != {} {
      var x :| x in a;
      SubsetSize(a - {x}, b - {x});
    }
  }

  lemma StrictSubset(a: set<Byte>, b: set<Byte>, u: Byte)
    requires a <= b && u in b && u !in a
    ensures |a| < |b|
  {
    SubsetSize(a, b - {u});
  }
}

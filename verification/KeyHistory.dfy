/**
 Whole runs read key by key: the daemon's set machine is 256 registers that do not
 see each other, and each register holds what was written to it last.
 */
module KeyHistory {
  import opened Words
  import opened KeyState
  import opened KeyInvariants

  // Last-writer-wins registers

  /** The value of a register after a list of writes, `None` being no write. */
  function Latest<T>(init: T, writes: seq<Option<T>>): T {
    if writes == [] then init
    else match writes[|writes| - 1]
      case Some(x) => x
      case None => Latest(init, writes[..|writes| - 1])
  }

  ghost predicate LastWriteIs<T>(writes: seq<Option<T>>, i: int, x: T) {
    0 <= i < |writes| && writes[i] == Some(x) && forall j :: i < j < |writes| ==> writes[j] == None
  }

  ghost predicate NeverWritten<T>(writes: seq<Option<T>>) {
    forall j :: 0 <= j < |writes| ==> writes[j] == None
  }

  lemma {:induction false} LatestIff<T>(init: T, writes: seq<Option<T>>, x: T)
    ensures Latest(init, writes) == x <==>
      (exists i :: LastWriteIs(writes, i, x)) || (NeverWritten(writes) && init == x)
  {
    if writes == [] {
      assert NeverWritten(writes);
    } else {
      var n := |writes| - 1;
      var w := writes[..n];
      LatestIff(init, w, x);
      if writes[n].Some? {
        assert LastWriteIs(writes, n, writes[n].value);
      } else {
        assert NeverWritten(writes) <==> NeverWritten(w);
        forall i
          ensures LastWriteIs(writes, i, x) <==> LastWriteIs(w, i, x)
        {
          if LastWriteIs(w, i, x) {
            assert forall j :: i < j < n ==> w[j] == writes[j];
          }
          if LastWriteIs(writes, i, x) {
            assert i != n;
            assert forall j :: i < j < n ==> w[j] == writes[j];
          }
        }
      }
    }
  }

  lemma LatestPush<T>(init: T, writes: seq<Option<T>>, w: Option<T>)
    ensures Latest(init, writes + [w]) == if w.Some? then w.value else Latest(init, writes)
  {
    assert (writes + [w])[..|writes|] == writes;
  }

  // The reference machine: one register, blind to every other key

  function RegisterEdge(km: KeyMeta, down: bool, now: U64): KeyMeta {
    KeyMeta(down, now, km.lastSnapshot, if down then km.upMarker else None, false)
  }

  /** One event seen by the register of key `u` alone. */
  function RegisterStep(cfg: Config, u: Byte, km: KeyMeta, e: Event): KeyMeta {
    match e
    case UdpEdge(now, stamp, key, down) =>
      if UdpAccepts(cfg, now, stamp) && key == u && u != 0 then RegisterEdge(km, down, now) else km
    case UdpMarker(now, stamp, key) =>
      if UdpAccepts(cfg, now, stamp) && key == u && u != 0 then
        km.(upMarker := Some(EffectiveStamp(now, stamp)))
      else km
    case QuicEdge(now, tMs, usage, cmd, _) =>
      if QuicAccepts(cfg, now, tMs) && usage == u then RegisterEdge(km, cmd == 1, now) else km
    case Snapshot(now, keys, _) =>
      if u in keys then km.(pressed := true, lastSnapshot := now)
      else if km.pressed then km.(pressed := false, upMarker := None)
      else km
    case Tick(now) =>
      if km.pressed then TickKey(cfg, km, now) else km
  }

  function RegisterAfter(cfg: Config, u: Byte, km: KeyMeta, es: seq<Event>, n: nat): KeyMeta
    requires n <= |es|
  {
    if n == 0 then km else RegisterStep(cfg, u, RegisterAfter(cfg, u, km, es, n - 1), es[n - 1])
  }

  lemma StepIsRegisterStep(cfg: Config, s: State, e: Event, u: Byte)
    requires Agrees(s)
    ensures Step(cfg, s, e).keymeta[u] == RegisterStep(cfg, u, s.keymeta[u], e)
  {
    assert s.keymeta[u].pressed <==> u in s.pressed;
  }

  /** After any run the set and the table are exactly what 256 separate registers hold. */
  lemma {:induction false} MachineIsRegisters(cfg: Config, s: State, es: seq<Event>, n: nat, u: Byte)
    requires Agrees(s) && n <= |es|
    ensures Agrees(After(cfg, s, es, n))
    ensures After(cfg, s, es, n).keymeta[u] == RegisterAfter(cfg, u, s.keymeta[u], es, n)
    ensures u in After(cfg, s, es, n).pressed <==> RegisterAfter(cfg, u, s.keymeta[u], es, n).pressed
  {
    if n > 0 {
      MachineIsRegisters(cfg, s, es, n - 1, u);
      StepIsRegisterStep(cfg, After(cfg, s, es, n - 1), es[n - 1], u);
      StepKeepsAgreement(cfg, After(cfg, s, es, n - 1), es[n - 1]);
    }
  }

  // Who writes what

  /** An edge of `u` that the daemon acts on, with the direction it carries. */
  function EdgeOf(cfg: Config, e: Event, u: Byte): Option<bool> {
    match e
    case UdpEdge(now, stamp, key, down) =>
      if UdpAccepts(cfg, now, stamp) && key == u && u != 0 then Some(down) else None
    case QuicEdge(now, tMs, usage, cmd, _) =>
      if QuicAccepts(cfg, now, tMs) && usage == u then Some(cmd == 1) else None
    case _ => None
  }

  /** The stamp of a key-up marker of `u` that the daemon acts on. */
  function MarkerOf(cfg: Config, e: Event, u: Byte): Option<U64> {
    match e
    case UdpMarker(now, stamp, key) =>
      if UdpAccepts(cfg, now, stamp) && key == u && u != 0 then Some(EffectiveStamp(now, stamp)) else None
    case _ => None
  }

  predicate WatchdogReleases(cfg: Config, s: State, e: Event, u: Byte) {
    e.Tick? && u in s.pressed && IsExpired(cfg, s.keymeta[u], e.now)
  }

  predicate SnapshotReleases(s: State, e: Event, u: Byte) {
    e.Snapshot? && u in s.pressed && u !in e.keys
  }

  function PressWrite(cfg: Config, s: State, e: Event, u: Byte): Option<bool> {
    if e.Snapshot? then Some(u in e.keys)
    else if WatchdogReleases(cfg, s, e, u) then Some(false)
    else EdgeOf(cfg, e, u)
  }

  function MarkerWrite(cfg: Config, s: State, e: Event, u: Byte): Option<Option<U64>> {
    if MarkerOf(cfg, e, u).Some? then Some(MarkerOf(cfg, e, u))
    else if EdgeOf(cfg, e, u) == Some(false) || WatchdogReleases(cfg, s, e, u) || SnapshotReleases(s, e, u)
    then Some(None)
    else None
  }

  function PressWrites(cfg: Config, s: State, es: seq<Event>, n: nat, u: Byte): seq<Option<bool>>
    requires n <= |es|
  {
    seq(n, i requires 0 <= i < n => PressWrite(cfg, After(cfg, s, es, i), es[i], u))
  }

  function MarkerWrites(cfg: Config, s: State, es: seq<Event>, n: nat, u: Byte): seq<Option<Option<U64>>>
    requires n <= |es|
  {
    seq(n, i requires 0 <= i < n => MarkerWrite(cfg, After(cfg, s, es, i), es[i], u))
  }

  // One event writes each register as said above, and nothing else does.
  lemma StepWrites(cfg: Config, s: State, e: Event, u: Byte)
    ensures u in Step(cfg, s, e).pressed <==>
      PressWrite(cfg, s, e, u) == Some(true) || (PressWrite(cfg, s, e, u) == None && u in s.pressed)
    ensures Step(cfg, s, e).keymeta[u].upMarker ==
      match MarkerWrite(cfg, s, e, u) { case Some(m) => m case None => s.keymeta[u].upMarker }
  {
  }

  // The lists of writes grow by the write of the latest event.
  lemma WritesGrow(cfg: Config, s: State, es: seq<Event>, n: nat, u: Byte)
    requires 0 < n <= |es|
    ensures PressWrites(cfg, s, es, n, u) ==
      PressWrites(cfg, s, es, n - 1, u) + [PressWrite(cfg, After(cfg, s, es, n - 1), es[n - 1], u)]
    ensures MarkerWrites(cfg, s, es, n, u) ==
      MarkerWrites(cfg, s, es, n - 1, u) + [MarkerWrite(cfg, After(cfg, s, es, n - 1), es[n - 1], u)]
  {
    hide Step, PressWrite, MarkerWrite;
  }

  lemma {:induction false} PressedHoldsLatest(cfg: Config, s: State, es: seq<Event>, n: nat, u: Byte)
    requires n <= |es|
    ensures u in After(cfg, s, es, n).pressed <==> Latest(u in s.pressed, PressWrites(cfg, s, es, n, u))
  {
    hide Step, PressWrite;
    if n > 0 {
      PressedHoldsLatest(cfg, s, es, n - 1, u);
      var before := After(cfg, s, es, n - 1);
      StepWrites(cfg, before, es[n - 1], u);
      WritesGrow(cfg, s, es, n, u);
      LatestPush(u in s.pressed, PressWrites(cfg, s, es, n - 1, u), PressWrite(cfg, before, es[n - 1], u));
    }
  }

  lemma {:induction false} MarkerHoldsLatest(cfg: Config, s: State, es: seq<Event>, n: nat, u: Byte)
    requires n <= |es|
    ensures After(cfg, s, es, n).keymeta[u].upMarker ==
      Latest(s.keymeta[u].upMarker, MarkerWrites(cfg, s, es, n, u))
  {
    hide Step, MarkerWrite;
    if n > 0 {
      MarkerHoldsLatest(cfg, s, es, n - 1, u);
      var before := After(cfg, s, es, n - 1);
      StepWrites(cfg, before, es[n - 1], u);
      WritesGrow(cfg, s, es, n, u);
      LatestPush(s.keymeta[u].upMarker, MarkerWrites(cfg, s, es, n - 1, u), MarkerWrite(cfg, before, es[n - 1], u));
    }
  }

  /** A key is pressed exactly when the last event that wrote it wrote "pressed". */
  lemma PressedIsLastWrite(cfg: Config, s: State, es: seq<Event>, n: nat, u: Byte)
    requires n <= |es|
    ensures u in After(cfg, s, es, n).pressed <==>
      var w := PressWrites(cfg, s, es, n, u);
      (exists i :: LastWriteIs(w, i, true)) || (NeverWritten(w) && u in s.pressed)
  {
    PressedHoldsLatest(cfg, s, es, n, u);
    LatestIff(u in s.pressed, PressWrites(cfg, s, es, n, u), true);
  }

  /** A marker is the stamp of the last accepted `mup` that nothing has cleared since. */
  lemma MarkerIsLastWrite(cfg: Config, s: State, es: seq<Event>, n: nat, u: Byte, m: Option<U64>)
    requires n <= |es|
    ensures After(cfg, s, es, n).keymeta[u].upMarker == m <==>
      var w := MarkerWrites(cfg, s, es, n, u);
      (exists i :: LastWriteIs(w, i, m)) || (NeverWritten(w) && s.keymeta[u].upMarker == m)
  {
    MarkerHoldsLatest(cfg, s, es, n, u);
    LatestIff(s.keymeta[u].upMarker, MarkerWrites(cfg, s, es, n, u), m);
  }

  // When a snapshot last held the key

  function ConfirmWrite(e: Event, u: Byte): Option<U64> {
    if e.Snapshot? && u in e.keys then Some(e.now) else None
  }

  function ConfirmWrites(es: seq<Event>, n: nat, u: Byte): seq<Option<U64>>
    requires n <= |es|
  {
    seq(n, i requires 0 <= i < n => ConfirmWrite(es[i], u))
  }

  lemma StepWritesConfirmation(cfg: Config, s: State, e: Event, u: Byte)
    ensures Step(cfg, s, e).keymeta[u].lastSnapshot ==
      match ConfirmWrite(e, u) { case Some(t) => t case None => s.keymeta[u].lastSnapshot }
  {
  }

  lemma {:induction false} ConfirmationHoldsLatest(cfg: Config, s: State, es: seq<Event>, n: nat, u: Byte)
    requires n <= |es|
    ensures After(cfg, s, es, n).keymeta[u].lastSnapshot ==
      Latest(s.keymeta[u].lastSnapshot, ConfirmWrites(es, n, u))
  {
    hide Step, ConfirmWrite;
    if n > 0 {
      ConfirmationHoldsLatest(cfg, s, es, n - 1, u);
      StepWritesConfirmation(cfg, After(cfg, s, es, n - 1), es[n - 1], u);
      assert ConfirmWrites(es, n, u) == ConfirmWrites(es, n - 1, u) + [ConfirmWrite(es[n - 1], u)];
      LatestPush(s.keymeta[u].lastSnapshot, ConfirmWrites(es, n - 1, u), ConfirmWrite(es[n - 1], u));
    }
  }

  /** The confirmation time is the clock of the last snapshot that held the key. */
  lemma ConfirmationIsLastWrite(cfg: Config, s: State, es: seq<Event>, n: nat, u: Byte, t: U64)
    requires n <= |es|
    ensures After(cfg, s, es, n).keymeta[u].lastSnapshot == t <==>
      var w := ConfirmWrites(es, n, u);
      (exists i :: LastWriteIs(w, i, t)) || (NeverWritten(w) && s.keymeta[u].lastSnapshot == t)
  {
    hide Step;
    ConfirmationHoldsLatest(cfg, s, es, n, u);
    LatestIff(s.keymeta[u].lastSnapshot, ConfirmWrites(es, n, u), t);
  }

  // When an edge of the key last came

  function EdgeWrite(cfg: Config, e: Event, u: Byte): Option<U64> {
    if EdgeOf(cfg, e, u).Some? then Some(e.now) else None
  }

  function EdgeWrites(cfg: Config, es: seq<Event>, n: nat, u: Byte): seq<Option<U64>>
    requires n <= |es|
  {
    seq(n, i requires 0 <= i < n => EdgeWrite(cfg, es[i], u))
  }

  lemma StepWritesEdge(cfg: Config, s: State, e: Event, u: Byte)
    ensures Step(cfg, s, e).keymeta[u].lastEdge ==
      match EdgeWrite(cfg, e, u) { case Some(t) => t case None => s.keymeta[u].lastEdge }
  {
  }

  lemma {:induction false} EdgeHoldsLatest(cfg: Config, s: State, es: seq<Event>, n: nat, u: Byte)
    requires n <= |es|
    ensures After(cfg, s, es, n).keymeta[u].lastEdge ==
      Latest(s.keymeta[u].lastEdge, EdgeWrites(cfg, es, n, u))
  {
    hide Step, EdgeWrite;
    if n > 0 {
      EdgeHoldsLatest(cfg, s, es, n - 1, u);
      StepWritesEdge(cfg, After(cfg, s, es, n - 1), es[n - 1], u);
      assert EdgeWrites(cfg, es, n, u) == EdgeWrites(cfg, es, n - 1, u) + [EdgeWrite(cfg, es[n - 1], u)];
      LatestPush(s.keymeta[u].lastEdge, EdgeWrites(cfg, es, n - 1, u), EdgeWrite(cfg, es[n - 1], u));
    }
  }

  /** The edge time is the clock at the last accepted edge of the key. */
  lemma EdgeIsLastWrite(cfg: Config, s: State, es: seq<Event>, n: nat, u: Byte, t: U64)
    requires n <= |es|
    ensures After(cfg, s, es, n).keymeta[u].lastEdge == t <==>
      var w := EdgeWrites(cfg, es, n, u);
      (exists i :: LastWriteIs(w, i, t)) || (NeverWritten(w) && s.keymeta[u].lastEdge == t)
  {
    hide Step;
    EdgeHoldsLatest(cfg, s, es, n, u);
    LatestIff(s.keymeta[u].lastEdge, EdgeWrites(cfg, es, n, u), t);
  }

  // Counting

  predicate StuckReported(cfg: Config, s: State, e: Event, u: Byte) {
    e.Tick? && u in s.pressed && IsStuck(cfg, s.keymeta[u], e.now)
  }

  predicate HealReported(s: State, e: Event, u: Byte) {
    e.Snapshot? && Heals(s, e.keys, u)
  }

  function One(b: bool): nat { if b then 1 else 0 }

  datatype Tally = Tally(edges: nat, markers: nat, heals: nat, stucks: nat)

  /** How often each thing happened to key `u` in the first `n` events. */
  function TallyOf(cfg: Config, s: State, es: seq<Event>, n: nat, u: Byte): Tally
    requires n <= |es|
  {
    if n == 0 then Tally(0, 0, 0, 0)
    else TallyEvent(cfg, TallyOf(cfg, s, es, n - 1, u), After(cfg, s, es, n - 1), es[n - 1], u)
  }

  // The books of a key: no more reports than what earns them.
  predicate Balanced(t: Tally, km: KeyMeta) {
    && t.heals + One(km.upMarker.Some?) <= t.markers
    && t.stucks + One(km.lastEdge != 0 && !km.stuckReported) <= t.edges
  }

  // The entries that one event makes.
  function TallyEvent(cfg: Config, t: Tally, s: State, e: Event, u: Byte): Tally {
    Tally(t.edges + One(EdgeOf(cfg, e, u).Some?), t.markers + One(MarkerOf(cfg, e, u).Some?),
          t.heals + One(HealReported(s, e, u)), t.stucks + One(StuckReported(cfg, s, e, u)))
  }

  lemma StepKeepsBalance(cfg: Config, t: Tally, s: State, e: Event, u: Byte)
    requires Balanced(t, s.keymeta[u])
    ensures Balanced(TallyEvent(cfg, t, s, e, u), Step(cfg, s, e).keymeta[u])
  {
  }

  /** Every heal report has its own accepted marker, every stuck report its own accepted edge. */
  lemma {:induction false} ReportsAreEarned(cfg: Config, es: seq<Event>, n: nat, u: Byte)
    requires n <= |es|
    ensures Balanced(TallyOf(cfg, Initial(), es, n, u), After(cfg, Initial(), es, n).keymeta[u])
  {
    hide Step, TallyEvent;
    if n > 0 {
      ReportsAreEarned(cfg, es, n - 1, u);
      var t, before := TallyOf(cfg, Initial(), es, n - 1, u), After(cfg, Initial(), es, n - 1);
      StepKeepsBalance(cfg, t, before, es[n - 1], u);
    }
  }

  lemma StepKeepsStuckFlag(cfg: Config, s: State, e: Event, u: Byte)
    requires s.keymeta[u].stuckReported && EdgeOf(cfg, e, u) == None
    ensures Step(cfg, s, e).keymeta[u].stuckReported
  {
  }

  // A reported key stays reported until its next edge.
  lemma {:induction false} StuckFlagStays(cfg: Config, s: State, es: seq<Event>, i: nat, j: nat, u: Byte)
    requires i <= j <= |es|
    requires After(cfg, s, es, i).keymeta[u].stuckReported
    requires forall k :: i <= k < j ==> EdgeOf(cfg, es[k], u) == None
    ensures After(cfg, s, es, j).keymeta[u].stuckReported
  {
    hide Step, EdgeOf;
    if i < j {
      StuckFlagStays(cfg, s, es, i, j - 1, u);
      StepKeepsStuckFlag(cfg, After(cfg, s, es, j - 1), es[j - 1], u);
    }
  }

  lemma AfterOneMore(cfg: Config, s: State, es: seq<Event>, n: nat)
    requires n < |es|
    ensures After(cfg, s, es, n + 1) == Step(cfg, After(cfg, s, es, n), es[n])
  {
  }

  lemma ReportSetsStuckFlag(cfg: Config, s: State, e: Event, u: Byte)
    requires StuckReported(cfg, s, e, u)
    ensures !s.keymeta[u].stuckReported
    ensures Step(cfg, s, e).keymeta[u].stuckReported
  {
  }

  /** Between two stuck reports of a key there is an accepted edge of that key. */
  lemma StuckReportsAreSeparated(cfg: Config, s: State, es: seq<Event>, i: nat, j: nat, u: Byte)
    requires i < j < |es|
    requires StuckReported(cfg, After(cfg, s, es, i), es[i], u)
    requires StuckReported(cfg, After(cfg, s, es, j), es[j], u)
    ensures exists k :: i < k < j && EdgeOf(cfg, es[k], u).Some?
  {
    hide *;
    var before, later := After(cfg, s, es, i), After(cfg, s, es, j);
    ReportSetsStuckFlag(cfg, before, es[i], u);
    ReportSetsStuckFlag(cfg, later, es[j], u);
    AfterOneMore(cfg, s, es, i);
    if forall k :: i < k < j ==> EdgeOf(cfg, es[k], u) == None {
      StuckFlagStays(cfg, s, es, i + 1, j, u);
    }
  }
}

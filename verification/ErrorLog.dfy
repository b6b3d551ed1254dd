/** What the daemon's error stream says about a run, counted line by line. */
module ErrorLog {
  import opened Words
  import opened KeyState
  import opened KeyInvariants
  import opened KeyHistory
  import opened KeyTiming
  import opened StuckKeys
  import opened Daemon

  datatype Kind = Healed | StuckFor | LetGo

  predicate IsAbout(l: Line, kind: Kind, u: Byte) {
    match kind
    case Healed => l.Heal? && l.key == u
    case StuckFor => l.Stuck? && l.key == u
    case LetGo => l.Watchdog? && l.key == u
  }

  function CountOf(lines: seq<Line>, kind: Kind, u: Byte): nat {
    if lines == [] then 0
    else CountOf(lines[..|lines| - 1], kind, u) + One(IsAbout(lines[|lines| - 1], kind, u))
  }

  lemma {:induction false} CountAppend(a: seq<Line>, b: seq<Line>, kind: Kind, u: Byte)
    ensures CountOf(a + b, kind, u) == CountOf(a, kind, u) + CountOf(b, kind, u)
  {
    if b == [] {
      assert a + b == a;
    } else {
      var n := |b| - 1;
      CountAppend(a, b[..n], kind, u);
      assert (a + b)[..|a + b| - 1] == a + b[..n];
    }
  }

  /** What one handler prints under the lock, by the contract of its method. */
  ghost predicate Prints(cfg: Config, s: State, e: Event, lines: seq<Line>) {
    match e
    case Snapshot(now, keys, _) => PrintsEach(lines, s.pressed - keys, HealAccount(s.keymeta, now))
    case Tick(now) => PrintsEach(lines, s.pressed, TickAccount(cfg, s.keymeta, now))
    case _ => lines == []
  }

  // One key's lines

  lemma CountOne(l: Line, kind: Kind, u: Byte)
    ensures CountOf([l], kind, u) == One(IsAbout(l, kind, u))
  {
    assert [l][..0] == [];
    assert CountOf([], kind, u) == 0;
  }

  lemma HealLineCounts(km: KeyMeta, v: Byte, now: U64, kind: Kind, u: Byte)
    ensures CountOf(HealLine(km, v, now), kind, u) == One(v == u && kind.Healed? && km.upMarker.Some?)
  {
    hide CountOf;
    CountNothing(kind, u);
    if km.upMarker.Some? {
      CountOne(HealLine(km, v, now)[0], kind, u);
    }
  }

  lemma TickLinesCount(cfg: Config, km: KeyMeta, v: Byte, now: U64, kind: Kind, u: Byte)
    ensures CountOf(TickLines(cfg, km, v, now), kind, u) == 
      One(v == u && kind.StuckFor? && IsStuck(cfg, km, now)) +
      One(v == u && kind.LetGo? && IsExpired(cfg, km, now))
  {
    hide CountOf, IsStuck, IsExpired;
    var stuck := Stuck(v, NsToMs(Wrap64(now - km.lastEdge)));
    var expired := Line.Watchdog(v, NsToMs(Wrap64(now - km.lastSnapshot)));
    CountNothing(kind, u);
    CountOne(stuck, kind, u);
    CountOne(expired, kind, u);
    var first := if IsStuck(cfg, km, now) then [stuck] else [];
    var second := if IsExpired(cfg, km, now) then [expired] else [];
    CountAppend(first, second, kind, u);
  }

  lemma CountAboutKey(a: Account, v: Byte, kind: Kind, u: Byte)
    ensures v != u ==> CountOf(a.About(v), kind, u) == 0
  {
    hide CountOf;
    match a
    case HealAccount(table, now) => HealLineCounts(table[v], v, now, kind, u);
    case TickAccount(cfg, table, now) => TickLinesCount(cfg, table[v], v, now, kind, u);
  }

  lemma {:induction false} ElementsBounded(order: seq<Byte>, among: set<Byte>)
    requires forall u: Byte :: u in among ==> u in order
    ensures |among| <= |order|
    decreases |order|
  {
    if order == [] {
      if among != {} {
        var x := Element(among);
        assert false;
      }
    } else {
      var n := |order| - 1;
      ElementsBounded(order[..n], among - {order[n]});
    }
  }

  // In a list that names each key once, each key's lines are counted once.
  lemma {:induction false} CountInOrder(a: Account, order: seq<Byte>, among: set<Byte>, kind: Kind, u: Byte)
    requires |order| == |among| && forall v: Byte :: v in order <==> v in among
    ensures CountOf(LinesInOrder(a, order), kind, u) == if u in among then CountOf(a.About(u), kind, u) else 0
    decreases |order|
  {
    hide CountOf;
    if order == [] {
      assert among == {};
      CountNothing(kind, u);
    } else {
      var n := |order| - 1;
      var front, x := order[..n], order[n];
      assert order == front + [x];
      if x in front {
        ElementsBounded(front, among);
      }
      CountInOrder(a, front, among - {x}, kind, u);
      CountAppend(LinesInOrder(a, front), a.About(x), kind, u);
      CountAboutKey(a, x, kind, u);
    }
  }

  lemma CountNothing(kind: Kind, u: Byte)
    ensures CountOf([], kind, u) == 0
  {
  }

  lemma CountPrinted(lines: seq<Line>, among: set<Byte>, a: Account, kind: Kind, u: Byte)
    requires PrintsEach(lines, among, a)
    ensures CountOf(lines, kind, u) == if u in among then CountOf(a.About(u), kind, u) else 0
  {
    var order: seq<Byte> :|
      |order| == |among| && (forall u: Byte :: u in order <==> u in among) && lines == LinesInOrder(a, order);
    CountInOrder(a, order, among, kind, u);
  }

  /**
   A handler prints one heal, stuck or watchdog line about a key if it is due, and none if it is
   not: a heal line when a snapshot lets go of a key with a marker, a watchdog line when a tick
   lets go of a key.
   */
  lemma PrintedWhenDue(cfg: Config, s: State, e: Event, lines: seq<Line>, u: Byte)
    requires Prints(cfg, s, e, lines)
    ensures CountOf(lines, Healed, u) == One(HealReported(s, e, u))
    ensures CountOf(lines, StuckFor, u) == One(StuckReported(cfg, s, e, u))
    ensures
      var released := u in s.pressed && u !in Step(cfg, s, e).pressed;
      && CountOf(lines, Healed, u) == One(e.Snapshot? && released && s.keymeta[u].upMarker.Some?)
      && CountOf(lines, LetGo, u) == One(e.Tick? && released)
  {
    hide PrintsEach;
    match e
    case Snapshot(now, keys, _) =>
      CountPrinted(lines, s.pressed - keys, HealAccount(s.keymeta, now), Healed, u);
      CountPrinted(lines, s.pressed - keys, HealAccount(s.keymeta, now), StuckFor, u);
      HealLineCounts(s.keymeta[u], u, now, Healed, u);
      HealLineCounts(s.keymeta[u], u, now, StuckFor, u);
      CountPrinted(lines, s.pressed - keys, HealAccount(s.keymeta, now), LetGo, u);
      HealLineCounts(s.keymeta[u], u, now, LetGo, u);
    case Tick(now) =>
      CountPrinted(lines, s.pressed, TickAccount(cfg, s.keymeta, now), Healed, u);
      CountPrinted(lines, s.pressed, TickAccount(cfg, s.keymeta, now), StuckFor, u);
      TickLinesCount(cfg, s.keymeta[u], u, now, Healed, u);
      TickLinesCount(cfg, s.keymeta[u], u, now, StuckFor, u);
      CountPrinted(lines, s.pressed, TickAccount(cfg, s.keymeta, now), LetGo, u);
      TickLinesCount(cfg, s.keymeta[u], u, now, LetGo, u);
    case _ =>
  }

  // Whole runs

  /** The pieces of the log that the first `n` events print, one for each. */
  ghost predicate IsLogOf(cfg: Config, s: State, es: seq<Event>, n: nat, log: seq<seq<Line>>)
    requires n <= |es|
  {
    |log| == n && forall i :: 0 <= i < n ==> Prints(cfg, After(cfg, s, es, i), es[i], log[i])
  }

  lemma {:induction false} LogIsTallied(cfg: Config, s: State, es: seq<Event>, n: nat, log: seq<seq<Line>>, u: Byte)
    requires n <= |es| && IsLogOf(cfg, s, es, n, log)
    ensures CountOf(Flatten(log), Healed, u) == TallyOf(cfg, s, es, n, u).heals
    ensures CountOf(Flatten(log), StuckFor, u) == TallyOf(cfg, s, es, n, u).stucks
  {
    hide Step, Prints, HealReported, StuckReported, EdgeOf, MarkerOf, CountOf;
    if n == 0 {
      CountNothing(Healed, u);
      CountNothing(StuckFor, u);
    } else {
      var front := log[..n - 1];
      LogIsTallied(cfg, s, es, n - 1, front, u);
      PrintedWhenDue(cfg, After(cfg, s, es, n - 1), es[n - 1], log[n - 1], u);
      assert log == front + [log[n - 1]];
      FlattenAppend(front, [log[n - 1]]);
      FlattenOne(log[n - 1]);
      CountAppend(Flatten(front), log[n - 1], Healed, u);
      CountAppend(Flatten(front), log[n - 1], StuckFor, u);
    }
  }

  /**
   The log of any run has, for each key, no more heal lines than markers were accepted (one less
   while a marker waits), and no more stuck lines than edges.
   */
  lemma LogIsEarned(cfg: Config, es: seq<Event>, n: nat, log: seq<seq<Line>>, u: Byte)
    requires n <= |es| && IsLogOf(cfg, Initial(), es, n, log)
    ensures
      var t, km := TallyOf(cfg, Initial(), es, n, u), After(cfg, Initial(), es, n).keymeta[u];
      && CountOf(Flatten(log), Healed, u) + One(km.upMarker.Some?) <= t.markers
      && CountOf(Flatten(log), StuckFor, u) + One(km.lastEdge != 0 && !km.stuckReported) <= t.edges
  {
    hide Step, IsLogOf, TallyOf, CountOf;
    LogIsTallied(cfg, Initial(), es, n, log, u);
    ReportsAreEarned(cfg, es, n, u);
  }

  // What the lines say

  lemma {:induction false} LineOfSomeKey(a: Account, order: seq<Byte>, l: Line) returns (v: Byte)
    requires l in LinesInOrder(a, order)
    ensures v in order && l in a.About(v)
  {
    var front := order[..|order| - 1];
    if l in LinesInOrder(a, front) {
      v := LineOfSomeKey(a, front, l);
    } else {
      v := order[|order| - 1];
    }
  }

  lemma PrintedAboutKey(lines: seq<Line>, among: set<Byte>, a: Account, l: Line)
    requires PrintsEach(lines, among, a) && l in lines
    ensures l.key in among && l in a.About(l.key)
  {
    var order: seq<Byte> :|
      |order| == |among| && (forall u: Byte :: u in order <==> u in among) && lines == LinesInOrder(a, order);
    hide LinesInOrder, HealLine, TickLines;
    var v := LineOfSomeKey(a, order, l);
    AboutOwnKey(a, v, l);
  }

  lemma AboutOwnKey(a: Account, v: Byte, l: Line)
    requires l in a.About(v)
    ensures l.key == v
  {
    hide NsToMs, Wrap64, IsStuck, IsExpired;
  }

  // A printed age: the difference of two clock values in milliseconds, a turn of the clock more if negative.
  lemma AgeOf(now: U64, since: U64)
    ensures NsToMs(Wrap64(now - since)) * 1000000.0 ==
      (if since <= now then now - since else now - since + TWO_TO_64) as real
  {
    Wrap64Difference(now, since);
  }

  lemma LineSince(cfg: Config, s: State, e: Event, lines: seq<Line>, l: Line)
    requires Prints(cfg, s, e, lines) && l in lines
    ensures
      var km := s.keymeta[l.key];
      match l
      case Heal(_, a) => e.Snapshot? && Heals(s, e.keys, l.key) && a == NsToMs(Wrap64(e.now - km.upMarker.value))
      case Stuck(_, a) => StuckReported(cfg, s, e, l.key) && a == NsToMs(Wrap64(e.now - km.lastEdge))
      case Watchdog(_, a) => WatchdogReleases(cfg, s, e, l.key) && a == NsToMs(Wrap64(e.now - km.lastSnapshot))
  {
    hide PrintsEach, NsToMs, IsStuck, IsExpired;
    match e
    case Snapshot(now, keys, _) => PrintedAboutKey(lines, s.pressed - keys, HealAccount(s.keymeta, now), l);
    case Tick(now) => PrintedAboutKey(lines, s.pressed, TickAccount(cfg, s.keymeta, now), l);
    case _ =>
  }

  /**
   The heal time in the log of any run: from the stamp of the last accepted marker of the key to
   the clock of the snapshot, and a turn of the clock more if the stamp is the later of the two.
   */
  lemma HealLineSays(cfg: Config, es: seq<Event>, n: nat, lines: seq<Line>, u: Byte, a: real) returns (i: nat)
    requires n < |es| && Prints(cfg, After(cfg, Initial(), es, n), es[n], lines) && Heal(u, a) in lines
    ensures es[n].Snapshot? && i < n && MarkerOf(cfg, es[i], u).Some?
    ensures forall j :: i < j < n ==> MarkerOf(cfg, es[j], u) == None && EdgeOf(cfg, es[j], u) != Some(false)
    ensures
      var since := MarkerOf(cfg, es[i], u).value;
      a * 1000000.0 == (if since <= es[n].now then es[n].now - since else es[n].now - since + TWO_TO_64) as real
  {
    hide Prints, Step, NsToMs, MarkerOf, EdgeOf, Initial;
    LineSince(cfg, After(cfg, Initial(), es, n), es[n], lines, Heal(u, a));
    i := HealTimeIsPlainIff(cfg, es, n, u);
    AgeOf(es[n].now, MarkerOf(cfg, es[i], u).value);
  }

  /** The age in a stuck line: from the clock at the last accepted edge of the key to the tick's. */
  lemma StuckLineSays(cfg: Config, es: seq<Event>, n: nat, lines: seq<Line>, u: Byte, a: real) returns (i: nat)
    requires n < |es| && Prints(cfg, After(cfg, Initial(), es, n), es[n], lines) && Stuck(u, a) in lines
    ensures LastEdgeAt(cfg, es, n, u, i) && FindsStuck(cfg, es, i, n, u)
    ensures a * 1000000.0 ==
      (if es[i].now <= es[n].now then es[n].now - es[i].now else es[n].now - es[i].now + TWO_TO_64) as real
  {
    hide Prints, Step, NsToMs, Initial, FindsStuck, EdgeOf;
    LineSince(cfg, After(cfg, Initial(), es, n), es[n], lines, Stuck(u, a));
    StuckReportedIff(cfg, es, n, u);
    i :| LastEdgeAt(cfg, es, n, u, i) && FindsStuck(cfg, es, i, n, u);
    LastEdgeTime(cfg, es, n, u, i);
    AgeOf(es[n].now, es[i].now);
  }

  /** The age in a watchdog line: from the clock of the last snapshot that held the key to the tick's. */
  lemma WatchdogLineSays(cfg: Config, es: seq<Event>, n: nat, lines: seq<Line>, u: Byte, a: real) returns (k: nat)
    requires n < |es| && Prints(cfg, After(cfg, Initial(), es, n), es[n], lines) && Line.Watchdog(u, a) in lines
    ensures LastConfirmedBy(es, n, u, k) && TickReleases(cfg, es, n, k)
    ensures a * 1000000.0 ==
      (if es[k].now <= es[n].now then es[n].now - es[k].now else es[n].now - es[k].now + TWO_TO_64) as real
  {
    hide Prints, Step, NsToMs, Initial, IsExpired;
    LineSince(cfg, After(cfg, Initial(), es, n), es[n], lines, Line.Watchdog(u, a));
    ExpiredInRunIff(cfg, es, n, u, n);
    k :| LastConfirmedBy(es, n, u, k) && TickReleases(cfg, es, n, k);
    LastConfirmedWrites(es, n, u, k, es[k].now);
    ConfirmationIsLastWrite(cfg, Initial(), es, n, u, es[k].now);
    AgeOf(es[n].now, es[k].now);
  }
}

/**
 The way of a key set from the client to the emulated keyboard: bitmap, record, QUIC
 stream, daemon, report, socket, key array.  The stream and the socket may be cut anywhere.
 */
module Pipeline {
  import opened Words
  import opened KeyState
  import opened SnapshotCodec
  import opened Framing
  import opened QuicStreams
  import opened QemuKeyboard
  import opened Daemon
  import opened KeyInvariants
  import opened KeyTiming
  import opened Interleaving

  // From keys to the key array

  lemma {:induction false} NonZeroAppend(a: seq<Byte>, b: seq<Byte>)
    ensures NonZero(a + b) == NonZero(a) + NonZero(b)
  {
    if b == [] {
      assert a + b == a;
    } else {
      var n := |b| - 1;
      NonZeroAppend(a, b[..n]);
      assert (a + b)[..|a + b| - 1] == a + b[..n];
    }
  }

  lemma {:induction false} NonZeroOfZeros(n: nat)
    ensures NonZero(Zeros(n)) == []
  {
    if n > 0 {
      assert Zeros(n)[..n - 1] == Zeros(n - 1);
      NonZeroOfZeros(n - 1);
    }
  }

  lemma {:induction false} NonZeroKeepsAll(v: seq<Byte>)
    requires 0 !in v
    ensures NonZero(v) == v
  {
    if v != [] {
      NonZeroKeepsAll(v[..|v| - 1]);
    }
  }

  /** The report of any key list shows QEMU its first six entries, zeros removed, and its modifiers. */
  lemma ReportShowsFirstSix(v: seq<Byte>, mods: Byte, size: nat)
    ensures
      var codes := NonZero(v[..Min(6, |v|)]);
      KbdOf(size, ReportOf(v, mods)) == Kbd(mods, Padded(codes, size), Min(|codes|, size))
  {
    var front := v[..Min(6, |v|)];
    var rep := ReportOf(v, mods);
    assert rep[2..8] == front + Zeros(6 - |front|);
    NonZeroAppend(front, Zeros(6 - |front|));
    NonZeroOfZeros(6 - |front|);
  }

  /** The keyboard holds six of these keys, or all of them, in its first entries and nothing else. */
  ghost predicate ShowsKeys(k: Kbd, pressed: set<Byte>) {
    && k.keys <= |k.key|
    && IsSelection(k.key[..k.keys], pressed)
    && forall i :: k.keys <= i < |k.key| ==> k.key[i] == 0
  }

  /**
   The keyboard shows what the daemon selected, unless usage zero was selected: its slot in
   the report reads as no key.
   */
  lemma SelectionReachesKeyboardIff(v: seq<Byte>, pressed: set<Byte>, mods: Byte, size: nat)
    requires IsSelection(v, pressed) && size >= 6
    ensures
      var k := KbdOf(size, ReportOf(v, mods));
      k.modifiers == mods && |k.key| == size && (ShowsKeys(k, pressed) <==> 0 !in v)
  {
    ReportShowsFirstSix(v, mods, size);
    assert v[..|v|] == v;
    if 0 in v {
      NonZeroDrops(v);
    } else {
      NonZeroKeepsAll(v);
      assert Padded(v, size)[..|v|] == v;
    }
  }

  lemma {:induction false} NonZeroShortens(v: seq<Byte>)
    ensures |NonZero(v)| <= |v|
  {
    if v != [] {
      NonZeroShortens(v[..|v| - 1]);
    }
  }

  lemma {:induction false} NonZeroDrops(v: seq<Byte>)
    requires 0 in v
    ensures |NonZero(v)| < |v|
  {
    NonZeroShortens(v[..|v| - 1]);
    if v[|v| - 1] != 0 {
      NonZeroDrops(v[..|v| - 1]);
    }
  }

  // The daemon's turn

  /** The reports that the daemon sends when it handles one event after the other. */
  ghost predicate Reports(cfg: Config, s: State, es: seq<Event>, reports: seq<Report>) {
    && |reports| == |es|
    && forall i :: 0 <= i < |es| ==> IsReportOf(reports[i], After(cfg, s, es, i + 1))
  }

  ghost predicate IsReportOf(r: Report, s: State) {
    exists v :: IsSelection(v, s.pressed) && r == ReportOf(v, s.modifiers)
  }

  // One stream

  lemma {:induction false} OneStreamsBytes(size: nat, rs: seq<Receipt>, stream: StreamId)
    requires forall i :: 0 <= i < |rs| ==> rs[i].stream == stream
    ensures forall m <- AfterReceipts(size, rs).messages :: m.stream == stream
  {
    if rs != [] {
      OneStreamsBytes(size, rs[..|rs| - 1], stream);
    }
  }

  lemma {:induction false} OneStreamsMessages(messages: seq<Message>, stream: StreamId)
    requires forall m <- messages :: m.stream == stream
    ensures |MessagesOn(messages, stream)| == |messages|
    ensures forall i :: 0 <= i < |messages| ==> MessagesOn(messages, stream)[i] == messages[i].data
  {
    if messages != [] {
      OneStreamsMessages(messages[..|messages| - 1], stream);
    }
  }

  /** Whatever the pieces, the callback is given the client's records, one by one. */
  lemma RecordsArrive(size: nat, rs: seq<Receipt>, stream: StreamId, records: seq<seq<Byte>>)
    requires size > 0 && forall i :: 0 <= i < |rs| ==> rs[i].stream == stream
    requires forall i :: 0 <= i < |records| ==> |records[i]| == size
    requires BytesOn(rs, stream) == Flatten(records)
    ensures
      var messages := AfterReceipts(size, rs).messages;
      |messages| == |records| && forall i :: 0 <= i < |records| ==> messages[i].data == records[i]
  {
    EachStreamIsFramed(size, rs, stream);
    BlocksOfRecords(size, records);
    OneStreamsBytes(size, rs, stream);
    OneStreamsMessages(AfterReceipts(size, rs).messages, stream);
  }

  lemma LastSnapshotRules(cfg: Config, s: State, es: seq<Event>)
    requires es != [] && es[|es| - 1].Snapshot?
    ensures After(cfg, s, es, |es|).pressed == es[|es| - 1].keys
    ensures After(cfg, s, es, |es|).modifiers == es[|es| - 1].mods
  {
  }

  lemma LastReportRules(size: nat, k: Kbd, reports: seq<Report>, pieces: seq<seq<Byte>>)
    requires reports != [] && Flatten(pieces) == Flatten(reports)
    ensures AfterReads(size, Backend([], k), pieces) == Backend([], KbdOf(size, reports[|reports| - 1]))
  {
    PiecesDoNotMatter(size, Backend([], k), pieces);
    BlocksOfRecords(8, reports);
    assert [] + Flatten(pieces) == Flatten(reports);
  }

  /**
   A session: the client encodes key sets, at least one; its records cross one QUIC stream in
   any pieces; the daemon handles them one after the other from any state; and its reports
   cross the socket in any pieces.
   */
  ghost predicate IsSession(
    cfg: Config, snapshots: seq<ClientSnapshot>, rs: seq<Receipt>, s: State, es: seq<Event>,
    reports: seq<Report>, pieces: seq<seq<Byte>>)
  {
    && snapshots != []
    && (exists records: seq<seq<Byte>> :: Encodes(records, snapshots) && ArrivesAs(rs, Flatten(records)))
    && Handles(es, AfterReceipts(52, rs).messages)
    && Reports(cfg, s, es, reports)
    && Flatten(pieces) == Flatten(reports)
  }

  ghost predicate Encodes(records: seq<seq<Byte>>, snapshots: seq<ClientSnapshot>) {
    |records| == |snapshots| && forall i :: 0 <= i < |records| ==> EncodesSnapshot(records[i], snapshots[i])
  }

  // All on one stream, these bytes in this order.
  ghost predicate ArrivesAs(rs: seq<Receipt>, bytes: seq<Byte>) {
    exists stream: StreamId :: AllOn(rs, stream) && BytesOn(rs, stream) == bytes
  }

  ghost predicate AllOn(rs: seq<Receipt>, stream: StreamId) {
    forall i :: 0 <= i < |rs| ==> rs[i].stream == stream
  }

  // One snapshot event for each message, whatever the clock shows.
  ghost predicate Handles(es: seq<Event>, messages: seq<Message>) {
    && |es| == |messages|
    && forall i :: 0 <= i < |es| ==>
         && es[i].Snapshot? && |messages[i].data| >= 52
         && es[i].keys == DecodeKeys(messages[i].data) && es[i].mods == DecodeMods(messages[i].data)
  }

  lemma RecordsDecode(records: seq<seq<Byte>>, snapshots: seq<ClientSnapshot>)
    requires Encodes(records, snapshots)
    ensures forall i :: 0 <= i < |records| ==>
      && |records[i]| == 52
      && DecodeKeys(records[i]) == OnKeyboard(snapshots[i].keys)
      && DecodeMods(records[i]) == snapshots[i].mods % 256
  {
    hide EncodesSnapshot, OnKeyboard, DecodeKeys, DecodeMods;
    forall i | 0 <= i < |records|
      ensures |records[i]| == 52
      ensures DecodeKeys(records[i]) == OnKeyboard(snapshots[i].keys)
      ensures DecodeMods(records[i]) == snapshots[i].mods % 256
    {
      SnapshotRoundTrip(records[i], snapshots[i]);
    }
  }

  /**
   End to end.  After a session the daemon has pressed exactly the keyboard keys of the last
   set, and a keyboard that began in any state, with room for six keys, shows them: all of them
   if they are at most six, six different ones otherwise.
   */
  lemma KeySetsReachTheGuest(
    cfg: Config, snapshots: seq<ClientSnapshot>, rs: seq<Receipt>, s: State, es: seq<Event>,
    reports: seq<Report>, pieces: seq<seq<Byte>>, size: nat, k: Kbd)
    requires IsSession(cfg, snapshots, rs, s, es, reports, pieces) && size >= 6
    ensures
      var last := snapshots[|snapshots| - 1];
      var pressed := OnKeyboard(last.keys);
      var guest := AfterReads(size, Backend([], k), pieces);
      && After(cfg, s, es, |es|).pressed == pressed
      && guest.buffered == [] && guest.kbd.modifiers == last.mods % 256
      && ShowsKeys(guest.kbd, pressed)
      && (|pressed| <= 6 ==> forall u: Byte :: u in pressed <==> u in guest.kbd.key[..guest.kbd.keys])
      && (|pressed| > 6 ==> guest.kbd.keys == 6)
  {
    hide Step, KbdOf, ReportOf, AfterReads, EncodesSnapshot, OnKeyboard, DecodeKeys, DecodeMods;
    var records: seq<seq<Byte>> :| Encodes(records, snapshots) && ArrivesAs(rs, Flatten(records));
    var stream: StreamId :| AllOn(rs, stream) && BytesOn(rs, stream) == Flatten(records);
    RecordsDecode(records, snapshots);
    RecordsArrive(52, rs, stream, records);
    var n := |snapshots| - 1;
    LastSnapshotRules(cfg, s, es);
    LastReportRules(size, k, reports, pieces);
    var final := After(cfg, s, es, |es|);
    assert IsReportOf(reports[n], After(cfg, s, es, n + 1));
    var v :| IsSelection(v, final.pressed) && reports[n] == ReportOf(v, final.modifiers);
    SelectionReachesKeyboardIff(v, final.pressed, final.modifiers, size);
    var guest := AfterReads(size, Backend([], k), pieces).kbd;
    if |final.pressed| <= 6 {
      SelectionIsWhole(guest.key[..guest.keys], final.pressed);
    }
  }

  // Sessions exist for every list of key sets and every state

  lemma {:induction false} BitmapExists(keys: set<int>) returns (b: Bitmap)
    ensures forall u: Byte :: BitmapHas(b, u) <==> u in keys
    decreases |keys|
  {
    if keys == {} {
      b := seq(32, i => 0);
      forall u: Byte
        ensures !BitmapHas(b, u)
      {
        ZeroHasNoBits(u % 8);
      }
    } else {
      var k := Element(keys);
      var front := BitmapExists(keys - {k});
      b := BitmapWith(front, k);
      forall u: Byte
        ensures BitmapHas(b, u) <==> u in keys
      {
        BitmapWithHas(front, k, u);
      }
    }
  }

  lemma {:induction false} RecordsExist(snapshots: seq<ClientSnapshot>) returns (records: seq<seq<Byte>>)
    ensures Encodes(records, snapshots)
  {
    hide BuildSnapshot, BitmapHas;
    records := [];
    if snapshots != [] {
      var n := |snapshots| - 1;
      var c := snapshots[n];
      var front := RecordsExist(snapshots[..n]);
      var b := BitmapExists(c.keys);
      var r := BuildSnapshot(b, c.mods, c.version, c.seqNo, c.tMs);
      assert EncodesSnapshot(r, c);
      records := front + [r];
    }
  }

  lemma {:induction false} SelectionExists(pressed: set<Byte>) returns (v: seq<Byte>)
    ensures IsSelection(v, pressed)
    decreases |pressed|
  {
    if pressed == {} {
      v := [];
    } else {
      var u := Element(pressed);
      v := SelectionExists(pressed - {u});
      if |v| < 6 {
        v := v + [u];
      }
    }
  }

  lemma {:induction false} ReportsExist(cfg: Config, s: State, es: seq<Event>, n: nat) returns (reports: seq<Report>)
    requires n <= |es|
    ensures |reports| == n && forall i :: 0 <= i < n ==> IsReportOf(reports[i], After(cfg, s, es, i + 1))
  {
    hide Step, ReportOf, IsSelection;
    reports := [];
    if n > 0 {
      var front := ReportsExist(cfg, s, es, n - 1);
      var now := After(cfg, s, es, n);
      var v := SelectionExists(now.pressed);
      assert IsReportOf(ReportOf(v, now.modifiers), now);
      reports := front + [ReportOf(v, now.modifiers)];
    }
  }

  /** Nothing above is empty talk: any key sets can be sent to any daemon. */
  lemma SessionsExist(cfg: Config, snapshots: seq<ClientSnapshot>, s: State)
    returns (rs: seq<Receipt>, es: seq<Event>, reports: seq<Report>, pieces: seq<seq<Byte>>)
    requires snapshots != []
    ensures IsSession(cfg, snapshots, rs, s, es, reports, pieces)
  {
    hide Step, ReportOf, EncodesSnapshot, DecodeKeys, DecodeMods, IsReportOf;
    var records := RecordsExist(snapshots);
    RecordsDecode(records, snapshots);
    rs := [Receipt(0, records)];
    assert rs[..0] == [];
    assert BytesOn(rs, 0) == Flatten(records);
    assert AllOn(rs, 0);
    RecordsArrive(52, rs, 0, records);
    var messages := AfterReceipts(52, rs).messages;
    es := seq(|messages|, i requires 0 <= i < |messages| =>
      Snapshot(1, DecodeKeys(messages[i].data), DecodeMods(messages[i].data)));
    reports := ReportsExist(cfg, s, es, |es|);
    pieces := reports;
  }

  // All threads together

  /** The bytes on the socket: the reports in the order in which they were sent. */
  function SentReports(y: System): seq<Report>
    requires forall i :: 0 <= i < |y.sent| ==> y.sent[i] < |y.readings|
  {
    seq(|y.sent|, i requires 0 <= i < |y.sent| =>
      ReportOf(y.readings[y.sent[i]].keys, y.readings[y.sent[i]].mods))
  }

  /**
   From the threads to the guest: once every handler has finished, and if the report read last
   was sent last, the keyboard has the daemon's modifiers, and has its keys exactly when usage
   zero is not among those shown.
   */
  lemma GuestFollowsThreads(cfg: Config, y: System, size: nat, k: Kbd, pieces: seq<seq<Byte>>)
    requires Reachable(cfg, y) && Quiescent(y) && y.history != []
    requires forall i :: 0 <= i < |y.sent| ==> y.sent[i] < |y.readings|
    requires y.sent != [] && y.sent[|y.sent| - 1] == |y.readings| - 1
    requires size >= 6 && Flatten(pieces) == Flatten(SentReports(y))
    ensures
      var guest := AfterReads(size, Backend([], k), pieces).kbd;
      && guest.modifiers == y.Shared().modifiers
      && (ShowsKeys(guest, y.Shared().pressed) <==> 0 !in y.readings[|y.readings| - 1].keys)
  {
    hide Reachable, KbdOf, ReportOf, AfterReads, Quiescent;
    LastReadingIsCurrent(cfg, y);
    var r := y.readings[|y.readings| - 1];
    LastReportRules(size, k, SentReports(y), pieces);
    SelectionReachesKeyboardIff(r.keys, y.Shared().pressed, r.mods, size);
  }

  /** Such executions exist: here one handler runs alone. */
  lemma OrderlyExecutionExists(cfg: Config) returns (y: System, pieces: seq<seq<Byte>>)
    ensures Reachable(cfg, y) && Quiescent(y) && y.history != []
    ensures y.sent == [0] && |y.readings| == 1 && y.Shared().pressed == {4}
    ensures Flatten(pieces) == Flatten(SentReports(y))
  {
    var e := KeyState.Snapshot(1, {4}, 0);
    var s := Step(cfg, Initial(), e);
    y := OneHandlerAlone(cfg, e, s, [4]);
    pieces := SentReports(y);
  }

  /**
   Usage zero is lost on the way: here a QUIC edge presses it, the only handler has finished,
   and no keyboard shows it, whatever it showed before.
   */
  lemma UsageZeroIsNotShown(cfg: Config) returns (y: System, pieces: seq<seq<Byte>>)
    ensures Reachable(cfg, y) && Quiescent(y) && y.history != [] && y.sent == [0] && |y.readings| == 1
    ensures y.Shared().pressed == {0} && Flatten(pieces) == Flatten(SentReports(y))
    ensures forall size: nat, k: Kbd | size >= 6 ::
      !ShowsKeys(AfterReads(size, Backend([], k), pieces).kbd, y.Shared().pressed)
  {
    hide Reachable, AfterReads, ShowsKeys, ReportOf;
    var e := QuicEdge(1, 0, 0, 1, 0);
    var s := Step(cfg, Initial(), e);
    assert s.pressed == {0};
    y := OneHandlerAlone(cfg, e, s, [0]);
    pieces := SentReports(y);
    forall size: nat, k: Kbd | size >= 6
      ensures !ShowsKeys(AfterReads(size, Backend([], k), pieces).kbd, y.Shared().pressed)
    {
      GuestFollowsThreads(cfg, y, size, k, pieces);
    }
  }

  // Healing, seen by the guest

  lemma {:induction false} NonZeroKeepsOut(v: seq<Byte>, u: Byte)
    requires u !in v
    ensures u !in NonZero(v)
  {
    if v != [] {
      NonZeroKeepsOut(v[..|v| - 1], u);
    }
  }

  // A key that is not in the report that was sent last is nowhere in the key array.
  lemma UnsentKeyIsNotShown(y: System, size: nat, k: Kbd, pieces: seq<seq<Byte>>, u: Byte)
    requires forall i :: 0 <= i < |y.sent| ==> y.sent[i] < |y.readings|
    requires y.sent != [] && u != 0 && u !in y.readings[y.sent[|y.sent| - 1]].keys
    requires Flatten(pieces) == Flatten(SentReports(y))
    ensures u !in AfterReads(size, Backend([], k), pieces).kbd.key
  {
    hide KbdOf, ReportOf, AfterReads, NonZero;
    var r := y.readings[y.sent[|y.sent| - 1]];
    LastReportRules(size, k, SentReports(y), pieces);
    ReportShowsFirstSix(r.keys, r.mods, size);
    NonZeroKeepsOut(r.keys[..Min(6, |r.keys|)], u);
  }

  /**
   A report that was read behind the healing bound does not show the key, however late it is
   sent, and however the threads interleave.
   */
  lemma HealedReportsOmit(
    cfg: Config, y: System, es: seq<Event>, k: nat, u: Byte, c: nat, t: nat, period: nat, skew: nat)
    requires Reachable(cfg, y) && IsHistoryOf(cfg, y, es) && k < |y.readings|
    requires cfg.deadlineMs > 0 && WithinSkew(es, skew) && LastPressedAt(cfg, es, u, c)
    requires t >= c + cfg.DeadlineNs() + skew + period
    requires y.readings[k].at <= |es|
    requires SnapshotsEvery(es, y.readings[k].at, c + cfg.DeadlineNs() + skew, t, period)
    ensures u !in y.readings[k].keys
  {
    hide After, Reachable, LastPressedAt, SnapshotsEvery, WithinSkew;
    ReadingIsHonest(cfg, y, k);
    HealingBound(cfg, Initial(), es, y.readings[k].at, u, c, t, period, skew);
  }

  /**
   The healing bound, for the guest: behind it, with every handler finished and the report
   that was read last also sent last, a key whose release was lost is not in the key array,
   however the threads interleaved and the socket was cut.
   */
  lemma GuestIsHealed(
    cfg: Config, y: System, es: seq<Event>, size: nat, k: Kbd, pieces: seq<seq<Byte>>,
    u: Byte, c: nat, t: nat, period: nat, skew: nat)
    requires Reachable(cfg, y) && IsHistoryOf(cfg, y, es) && Quiescent(y)
    requires forall i :: 0 <= i < |y.sent| ==> y.sent[i] < |y.readings|
    requires y.sent != [] && y.sent[|y.sent| - 1] == |y.readings| - 1
    requires Flatten(pieces) == Flatten(SentReports(y))
    requires u != 0 && cfg.deadlineMs > 0 && WithinSkew(es, skew) && LastPressedAt(cfg, es, u, c)
    requires t >= c + cfg.DeadlineNs() + skew + period
    requires SnapshotsEvery(es, |es|, c + cfg.DeadlineNs() + skew, t, period)
    ensures u !in AfterReads(size, Backend([], k), pieces).kbd.key
  {
    hide After, Reachable, LastPressedAt, SnapshotsEvery, WithinSkew, AfterReads, SentReports;
    LastReadingIsCurrent(cfg, y);
    HealingBound(cfg, Initial(), es, |es|, u, c, t, period, skew);
    UnsentKeyIsNotShown(y, size, k, pieces, u);
  }
}

/**
 The reliable baseline: the client packs each edge of its script into a record, the records
 cross one QUIC stream, and the daemon applies them.
 */
module EdgeRecords {
  import opened Words
  import opened KeyState
  import opened KeyInvariants
  import opened SnapshotCodec
  import opened Daemon
  import opened QuicStreams
  import Datagrams
  import KeyTiming
  import Pipeline
  import TextEdges
  import Workload

  // One record

  /** The record's bytes, each number with its highest byte first. */
  lemma RecordLayout(e: EdgeRecord)
    ensures
      var r := PackEdge(e);
      && r[0] as int * 0x100_0000 + r[1] as int * 0x1_0000 + r[2] as int * 0x100 + r[3] == e.seqNo
      && FromBigEndian(r[4..12]) == e.tMs && r[11] == e.tMs % 256
      && r[12] as int * 256 + r[13] == e.usage && r[14] == e.cmd && r[15] == e.mods
  {
    var r := PackEdge(e);
    EdgeRoundTrip(e);
    FourBytes(r[..4]);
    TwoBytes(r[12..14]);
    assert r[4..12] == ToBigEndian(e.tMs, 8);
    assert r[11] == r[4..12][7];
  }

  lemma TwoBytes(b: seq<Byte>)
    requires |b| == 2
    ensures FromBigEndian(b) == b[0] as int * 256 + b[1]
  {
    assert b[..1] == [b[0]];
    assert [b[0]][..0] == [];
    assert FromBigEndian([]) == 0;
    assert FromBigEndian([b[0]]) == b[0];
  }

  lemma FourBytes(b: seq<Byte>)
    requires |b| == 4
    ensures FromBigEndian(b) == b[0] as int * 0x100_0000 + b[1] as int * 0x1_0000 + b[2] as int * 0x100 + b[3]
  {
    assert b[..3][..2] == b[..2];
    TwoBytes(b[..2]);
    assert FromBigEndian(b[..3]) == FromBigEndian(b[..2]) * 256 + b[2];
  }

  /**
   The effect of any record, from its bytes: refused if its usage is above 255 or it is too old;
   otherwise it sets the modifiers, puts its usage into the key set exactly when its command is
   one, and leaves every other key alone.
   */
  lemma RecordEffect(cfg: Config, s: State, now: U64, e: EdgeRecord)
    ensures
      var event := RecordEvent(now, UnpackEdge(PackEdge(e)));
      var s' := Step(cfg, s, event);
      if e.usage < 256 && (cfg.deadlineMs <= 0 || now < (e.tMs + cfg.deadlineMs + 1) * 1000000) then
        && Sends(cfg, s, event)
        && s'.modifiers == e.mods
        && (e.usage in s'.pressed <==> e.cmd == 1)
        && (forall v: Byte :: v != e.usage ==>
              s'.keymeta[v] == s.keymeta[v] && (v in s'.pressed <==> v in s.pressed))
        && var km := s.keymeta[e.usage];
        s'.keymeta[e.usage] ==
          KeyMeta(e.cmd == 1, now, km.lastSnapshot, if e.cmd == 1 then km.upMarker else None, false)
      else
        s' == s && !Sends(cfg, s, event)
  {
    hide PackEdge, UnpackEdge, QuicAccepts;
    EdgeRoundTrip(e);
    QuicAcceptsIff(cfg, now, e.tMs);
  }

  // The client

  /** usage_for_key of this client, on ASCII keys: it has no space. */
  function UsageForKey(key: string): Byte {
    if key == "ENTER" then 0x28
    else if |key| == 1 then
      var c := TextEdges.Lower(key[0]);
      if 'a' <= c <= 'z' then 0x04 + (c as int - 'a' as int) else 0
    else 0
  }

  /** One step of the script: what to send, when, and whether the impairment drops it. */
  datatype Typed = Typed(cmd: string, key: string, tMs: U64, lost: bool)

  predicate IsSent(t: Typed) {
    !t.lost && UsageForKey(t.key) != 0
  }

  /** The edges the client packs in the first `n` steps; `seq` counts every step. */
  function EdgesOf(script: seq<Typed>, n: nat): seq<EdgeRecord>
    requires n <= |script| <= 0x1_0000_0000
  {
    if n == 0 then []
    else
      var t := script[n - 1];
      EdgesOf(script, n - 1) +
      if IsSent(t) then [EdgeRecord(n - 1, t.tMs, UsageForKey(t.key), if t.cmd == "down" then 1 else 0, 0)] else []
  }

  /** The loop of `main`, with the writes to the stream as its result. */
  method WriteRecords(script: seq<Typed>) returns (records: seq<seq<Byte>>)
    requires |script| <= 0x1_0000_0000
    ensures records == Packed(EdgesOf(script, |script|))
  {
    records := [];
    var seqNo := 0;
    for i := 0 to |script|
      invariant seqNo == i && records == Packed(EdgesOf(script, i))
    {
      var t := script[i];
      var usage := UsageForKey(t.key);
      ghost var front := EdgesOf(script, i);
      if t.lost || usage == 0 {
        seqNo := seqNo + 1;
        continue;
      }
      var e := EdgeRecord(seqNo, t.tMs, usage, if t.cmd == "down" then 1 else 0, 0);
      records := records + [PackEdge(e)];
      assert Packed(front + [e]) == Packed(front) + [PackEdge(e)];
      seqNo := seqNo + 1;
    }
  }

  function Packed(edges: seq<EdgeRecord>): seq<seq<Byte>> {
    seq(|edges|, i requires 0 <= i < |edges| => PackEdge(edges[i]))
  }

  /** The keys that the client means to be down after the first `n` steps, losses aside. */
  function Held(script: seq<Typed>, n: nat): set<Byte>
    requires n <= |script|
  {
    if n == 0 then {}
    else
      var front, t := Held(script, n - 1), script[n - 1];
      if !IsSent(t) then front
      else if t.cmd == "down" then front + {UsageForKey(t.key)}
      else front - {UsageForKey(t.key)}
  }

  // The same fold, over the edges.
  function DownAfter(edges: seq<EdgeRecord>): set<Byte>
    requires forall e <- edges :: e.usage < 256
  {
    if edges == [] then {}
    else
      var front, e := DownAfter(edges[..|edges| - 1]), edges[|edges| - 1];
      if e.cmd == 1 then front + {e.usage} else front - {e.usage}
  }

  lemma {:induction false} EdgesTellScript(script: seq<Typed>, n: nat)
    requires n <= |script| <= 0x1_0000_0000
    ensures forall e <- EdgesOf(script, n) :: e.usage < 256 && e.mods == 0
    ensures DownAfter(EdgesOf(script, n)) == Held(script, n)
  {
    hide UsageForKey;
    if n > 0 {
      EdgesTellScript(script, n - 1);
      var front, edges := EdgesOf(script, n - 1), EdgesOf(script, n);
      if IsSent(script[n - 1]) {
        var e := edges[|edges| - 1];
        assert edges == front + [e] && edges[..|edges| - 1] == front;
        assert DownAfter(edges) == if e.cmd == 1 then DownAfter(front) + {e.usage} else DownAfter(front) - {e.usage};
      } else {
        assert edges == front;
      }
    }
  }

  /** Each edge carries the number, the time and the direction of its step, and a usage from the tables. */
  lemma {:induction false} EdgesCarrySteps(script: seq<Typed>, n: nat, i: nat)
    requires n <= |script| <= 0x1_0000_0000 && i < |EdgesOf(script, n)|
    ensures
      var e := EdgesOf(script, n)[i];
      && e.seqNo < n && !script[e.seqNo].lost
      && e.tMs == script[e.seqNo].tMs
      && e.cmd == (if script[e.seqNo].cmd == "down" then 1 else 0)
      && Datagrams.Names(script[e.seqNo].key, e.usage)
      && (i > 0 ==> EdgesOf(script, n)[i - 1].seqNo < e.seqNo)
  {
    hide UsageForKey;
    var front := EdgesOf(script, n - 1);
    UsagesOfTable(script[n - 1].key);
    if i < |front| {
      EdgesCarrySteps(script, n - 1, i);
    } else if i > 0 {
      EdgesCarrySteps(script, n - 1, i - 1);
    }
  }

  /** This client names a key exactly if the HID tables do, for letters and ENTER. */
  lemma UsagesOfTable(key: string)
    ensures UsageForKey(key) != 0 <==> exists usage: Byte :: Datagrams.Names(key, usage)
    ensures forall usage: Byte :: Datagrams.Names(key, usage) ==> UsageForKey(key) == usage
    ensures UsageForKey(key) != 0 ==> Datagrams.Names(key, UsageForKey(key))
  {
    if UsageForKey(key) != 0 {
      assert Datagrams.Names(key, UsageForKey(key));
    }
  }

  // The way to the daemon

  /**
   The daemon handles the messages in order, each within the deadline; the watchdog may tick at
   any time, and nothing else happens.
   */
  ghost predicate HandlesEdges(cfg: Config, messages: seq<Message>, es: seq<Event>) {
    forall i :: 0 <= i < |es| ==> es[i].Tick? || IsEdgeOf(cfg, es[i], messages, Workload.MessagesIn(es, i))
  }

  ghost predicate IsEdgeOf(cfg: Config, e: Event, messages: seq<Message>, m: nat) {
    && m < |messages| && |messages[m].data| >= 16
    && var edge := UnpackEdge(messages[m].data);
    && e == RecordEvent(e.now, edge)
    && (cfg.deadlineMs <= 0 || e.now < (edge.tMs + cfg.deadlineMs + 1) * 1000000)
  }

  lemma EdgeIsNoSnapshot(cfg: Config, e: Event, messages: seq<Message>, m: nat)
    requires IsEdgeOf(cfg, e, messages, m)
    ensures !e.Snapshot? && m < |messages|
  {
  }

  lemma EdgeMovesKey(cfg: Config, s: State, e: Event, messages: seq<Message>, edges: seq<EdgeRecord>, m: nat)
    requires IsEdgeOf(cfg, e, messages, m) && |messages| == |edges|
    requires messages[m].data == PackEdge(edges[m]) && forall e <- edges :: e.usage < 256
    requires s.pressed == DownAfter(edges[..m])
    ensures Step(cfg, s, e).pressed == DownAfter(edges[..m + 1]) && Step(cfg, s, e).modifiers == edges[m].mods
  {
    hide PackEdge, UnpackEdge, Step, Sends;
    var edge := edges[m];
    EdgeRoundTrip(edge);
    RecordEffect(cfg, s, e.now, edge);
    assert edges[..m + 1][..m] == edges[..m];
    forall v: Byte
      ensures v in Step(cfg, s, e).pressed <==> v in DownAfter(edges[..m + 1])
    {}
  }

  lemma {:induction false} DaemonFollowsEdges(
    cfg: Config, edges: seq<EdgeRecord>, messages: seq<Message>, es: seq<Event>, n: nat)
    requires HandlesEdges(cfg, messages, es) && n <= |es| && |messages| == |edges|
    requires forall i :: 0 <= i < |edges| ==> messages[i].data == PackEdge(edges[i])
    requires forall e <- edges :: e.usage < 256 && e.mods == 0
    ensures Workload.MessagesIn(es, n) <= |edges|
    ensures After(cfg, Initial(), es, n).pressed == DownAfter(edges[..Workload.MessagesIn(es, n)])
    ensures After(cfg, Initial(), es, n).modifiers == 0
  {
    hide Step, IsEdgeOf, PackEdge, DownAfter;
    if n == 0 {
      NothingDown(edges[..0]);
    } else {
      DaemonFollowsEdges(cfg, edges, messages, es, n - 1);
      var before, m := After(cfg, Initial(), es, n - 1), Workload.MessagesIn(es, n - 1);
      if es[n - 1].Tick? {
        forall i | 0 <= i <= n - 1
          ensures !es[i].Snapshot?
        {
          if !es[i].Tick? {
            EdgeIsNoSnapshot(cfg, es[i], messages, Workload.MessagesIn(es, i));
          }
        }
        KeyTiming.QuietTick(cfg, es, n - 1);
        TickKeepsModifiers(cfg, before, es[n - 1]);
      } else {
        EdgeIsNoSnapshot(cfg, es[n - 1], messages, m);
        EdgeMovesKey(cfg, before, es[n - 1], messages, edges, m);
      }
    }
  }

  lemma NothingDown(edges: seq<EdgeRecord>)
    requires edges == []
    ensures Initial().pressed == DownAfter(edges) && Initial().modifiers == 0
  {
  }

  lemma TickKeepsModifiers(cfg: Config, s: State, e: Event)
    requires e.Tick?
    ensures Step(cfg, s, e).modifiers == s.modifiers
  {
  }

  lemma {:induction false} EdgesInFront(script: seq<Typed>, n: nat, m: nat)
    requires n <= m <= |script| <= 0x1_0000_0000
    ensures EdgesOf(script, n) <= EdgesOf(script, m)
    decreases m
  {
    if n < m {
      EdgesInFront(script, n, m - 1);
    }
  }

  /**
   End to end: the client's records cross one stream in any pieces, and the daemon, from its
   start, handles them within the deadline, with ticks anywhere between them.  Whenever it has
   handled what the first `k` steps of the script sent, it has pressed the keys that the client
   holds after them, and no modifier.
   */
  lemma ScriptReachesDaemon(
    cfg: Config, script: seq<Typed>, rs: seq<Receipt>, stream: StreamId, es: seq<Event>, n: nat, k: nat)
    requires k <= |script| <= 0x1_0000_0000 && n <= |es|
    requires forall i :: 0 <= i < |rs| ==> rs[i].stream == stream
    requires BytesOn(rs, stream) == Flatten(Packed(EdgesOf(script, |script|)))
    requires HandlesEdges(cfg, AfterReceipts(16, rs).messages, es)
    requires Workload.MessagesIn(es, n) == |EdgesOf(script, k)|
    ensures After(cfg, Initial(), es, n).pressed == Held(script, k)
    ensures After(cfg, Initial(), es, n).modifiers == 0
  {
    hide Step, HandlesEdges, PackEdge, UsageForKey, AfterReceipts, BytesOn, DownAfter, EdgesOf;
    var edges, messages := EdgesOf(script, |script|), AfterReceipts(16, rs).messages;
    EdgesTellScript(script, |script|);
    EdgesTellScript(script, k);
    EdgesInFront(script, k, |script|);
    PackedSizes(edges);
    Pipeline.RecordsArrive(16, rs, stream, Packed(edges));
    DaemonFollowsEdges(cfg, edges, messages, es, n);
    assert edges[..|EdgesOf(script, k)|] == EdgesOf(script, k);
  }

  lemma PackedSizes(edges: seq<EdgeRecord>)
    ensures forall i :: 0 <= i < |Packed(edges)| ==> |Packed(edges)[i]| == 16
  {
    hide PackEdge;
  }

  lemma {:induction false} NoTicks(es: seq<Event>, n: nat)
    requires n <= |es| && forall i :: 0 <= i < |es| ==> !es[i].Tick?
    ensures Workload.MessagesIn(es, n) == n
  {
    if n > 0 {
      NoTicks(es, n - 1);
    }
  }

  /** Any records can be handled so. */
  lemma HandlingExists(cfg: Config, messages: seq<Message>) returns (es: seq<Event>)
    requires forall m <- messages :: |m.data| >= 16
    ensures HandlesEdges(cfg, messages, es) && Workload.MessagesIn(es, |es|) == |messages|
  {
    hide UnpackEdge;
    es := seq(|messages|, i requires 0 <= i < |messages| => RecordEvent(0, UnpackEdge(messages[i].data)));
    forall i | 0 <= i < |es|
      ensures IsEdgeOf(cfg, es[i], messages, Workload.MessagesIn(es, i))
    {
      NoTicks(es, i);
      assert messages[i] in messages;
    }
    NoTicks(es, |es|);
  }

  // The script

  /** script_from_text, without the repetitions: down and up for each character. */
  predicate TypesText(script: seq<Typed>, text: string) {
    && |script| == 2 * |text|
    && forall i :: 0 <= i < |text| ==>
         && script[2 * i].cmd == "down" && script[2 * i + 1].cmd == "up"
         && script[2 * i].key == script[2 * i + 1].key == (if text[i] == '\n' then "ENTER" else [text[i]])
  }

  /** Without losses the client, and so the daemon, holds nothing between two characters. */
  lemma {:induction false} TextEndsReleased(script: seq<Typed>, text: string, n: nat)
    requires TypesText(script, text) && n <= |text|
    requires forall i :: 0 <= i < |script| ==> !script[i].lost
    ensures Held(script, 2 * n) == {}
  {
    hide UsageForKey;
    if n > 0 {
      TextEndsReleased(script, text, n - 1);
      var i := n - 1;
      assert script[2 * i].cmd == "down" && script[2 * i + 1].cmd == "up";
      assert Held(script, 2 * i + 1) ==
        if IsSent(script[2 * i]) then {UsageForKey(script[2 * i].key)} else {};
      assert Held(script, 2 * i + 2) == {};
    }
  }
}

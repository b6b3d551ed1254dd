/** When a key is reported stuck, over whole runs. */
module StuckKeys {
  import opened Words
  import opened KeyState
  import opened KeyInvariants
  import opened KeyHistory

  /** The last accepted edge of `u` among the first `n` events. */
  ghost predicate LastEdgeAt(cfg: Config, es: seq<Event>, n: nat, u: Byte, i: int)
    requires n <= |es|
  {
    0 <= i < n && EdgeOf(cfg, es[i], u).Some? && forall j :: i < j < n ==> EdgeOf(cfg, es[j], u) == None
  }

  /** The clock of event `j` is past the limit since event `i`, or was read before it. */
  predicate Overdue(cfg: Config, es: seq<Event>, i: nat, j: nat)
    requires i < |es| && j < |es|
  {
    && cfg.stuckMs > 0 && es[i].now != 0
    && (es[j].now - es[i].now > cfg.stuckMs * 1000000 ||
        0 < es[i].now - es[j].now < TWO_TO_64 - cfg.stuckMs * 1000000)
  }

  /** Event `j` is a tick that finds `u` down and overdue since its edge `i`. */
  ghost predicate FindsStuck(cfg: Config, es: seq<Event>, i: nat, j: nat, u: Byte)
    requires i < |es| && j < |es|
  {
    es[j].Tick? && u in After(cfg, Initial(), es, j).pressed && Overdue(cfg, es, i, j)
  }

  lemma LastEdgeTime(cfg: Config, es: seq<Event>, n: nat, u: Byte, i: nat)
    requires n <= |es| && LastEdgeAt(cfg, es, n, u, i)
    ensures After(cfg, Initial(), es, n).keymeta[u].lastEdge == es[i].now
  {
    hide EdgeOf, Step, Initial;
    assert LastWriteIs(EdgeWrites(cfg, es, n, u), i, es[i].now);
    EdgeIsLastWrite(cfg, Initial(), es, n, u, es[i].now);
  }

  lemma NoEdgeTime(cfg: Config, es: seq<Event>, n: nat, u: Byte)
    requires n <= |es|
    ensures After(cfg, Initial(), es, n).keymeta[u].lastEdge != 0 ==> exists i :: LastEdgeAt(cfg, es, n, u, i)
  {
    hide EdgeOf, Step;
    var t := After(cfg, Initial(), es, n).keymeta[u].lastEdge;
    EdgeIsLastWrite(cfg, Initial(), es, n, u, t);
    if t != 0 {
      var i :| LastWriteIs(EdgeWrites(cfg, es, n, u), i, t);
      var w := EdgeWrites(cfg, es, n, u);
      assert forall j :: 0 <= j < n ==> w[j] == EdgeWrite(cfg, es[j], u);
      assert LastEdgeAt(cfg, es, n, u, i);
    }
  }

  lemma StepWritesStuckFlag(cfg: Config, s: State, e: Event, u: Byte)
    ensures Step(cfg, s, e).keymeta[u].stuckReported <==>
      if EdgeOf(cfg, e, u).Some? then false else s.keymeta[u].stuckReported || StuckReported(cfg, s, e, u)
  {
  }

  /** A key counts as reported exactly when a tick since its last edge has found it stuck. */
  lemma {:induction false} FlagIff(cfg: Config, es: seq<Event>, n: nat, u: Byte, i: nat)
    requires n <= |es| && LastEdgeAt(cfg, es, n, u, i)
    ensures After(cfg, Initial(), es, n).keymeta[u].stuckReported <==>
      exists j :: i < j < n && FindsStuck(cfg, es, i, j, u)
  {
    hide Step, EdgeOf, Initial, IsStuck, Overdue;
    var s := After(cfg, Initial(), es, n - 1);
    StepWritesStuckFlag(cfg, s, es[n - 1], u);
    if n > i + 1 {
      assert LastEdgeAt(cfg, es, n - 1, u, i);
      FlagIff(cfg, es, n - 1, u, i);
      ReportedIff(cfg, es, n - 1, u, i);
      if FindsStuck(cfg, es, i, n - 1, u) {
        assert s.keymeta[u].stuckReported || StuckReported(cfg, s, es[n - 1], u);
      }
    }
  }

  lemma ReportedIff(cfg: Config, es: seq<Event>, n: nat, u: Byte, i: nat)
    requires n < |es| && LastEdgeAt(cfg, es, n, u, i)
    ensures
      var s := After(cfg, Initial(), es, n);
      StuckReported(cfg, s, es[n], u) <==> FindsStuck(cfg, es, i, n, u) && !s.keymeta[u].stuckReported
  {
    hide Step, EdgeOf, Initial, IsStuck;
    LastEdgeTime(cfg, es, n, u, i);
    IsStuckIff(cfg, After(cfg, Initial(), es, n).keymeta[u], es[n].now);
  }

  /**
   A tick reports a key stuck exactly when the key is down, its last accepted edge is longer ago
   than the limit (or was stamped behind the tick's clock), and no tick since then found it so.
   */
  lemma StuckReportedIff(cfg: Config, es: seq<Event>, n: nat, u: Byte)
    requires n < |es|
    ensures StuckReported(cfg, After(cfg, Initial(), es, n), es[n], u) <==>
      exists i: nat :: LastEdgeAt(cfg, es, n, u, i) && FindsStuck(cfg, es, i, n, u) &&
        forall j :: i < j < n ==> !FindsStuck(cfg, es, i, j, u)
  {
    hide Step, EdgeOf, Initial, LastEdgeAt, FindsStuck, IsStuck;
    var s := After(cfg, Initial(), es, n);
    forall i: nat | LastEdgeAt(cfg, es, n, u, i)
      ensures i < n
      ensures StuckReported(cfg, s, es[n], u) <==>
        FindsStuck(cfg, es, i, n, u) && forall j :: i < j < n ==> !FindsStuck(cfg, es, i, j, u)
    {
      EdgeIsBefore(cfg, es, n, u, i);
      ReportedIff(cfg, es, n, u, i);
      FlagIff(cfg, es, n, u, i);
    }
    if StuckReported(cfg, s, es[n], u) {
      IsStuckIff(cfg, s.keymeta[u], es[n].now);
      NoEdgeTime(cfg, es, n, u);
      var i :| LastEdgeAt(cfg, es, n, u, i);
      EdgeIsBefore(cfg, es, n, u, i);
    }
  }

  lemma EdgeIsBefore(cfg: Config, es: seq<Event>, n: nat, u: Byte, i: int)
    requires n <= |es| && LastEdgeAt(cfg, es, n, u, i)
    ensures 0 <= i < n
  {
  }
}

/**
 What the text datagrams of the client do to the daemon, told on their text: the event that a
 datagram spells, its effect, and the healing bound for runs whose edges arrive as text.
 */
module Datagrams {
  import opened Words
  import opened KeyState
  import opened KeyInvariants
  import opened Daemon
  import opened TextEdges
  import opened KeyTiming

  /** The keys that the client can type and the usages that the HID tables give them. */
  predicate Names(key: string, usage: int) {
    || (key == "ENTER" && usage == 0x28)
    || (|key| == 1 && 'a' <= key[0] <= 'z' && usage == 4 + (key[0] as int - 'a' as int))
    || (|key| == 1 && 'A' <= key[0] <= 'Z' && usage == 4 + (key[0] as int - 'A' as int))
  }

  lemma BothSidesName(key: string, usage: int)
    requires Names(key, usage)
    ensures IsWord(key) && UsageOf(key) == usage && ClientUsage(key) == usage
  {
  }

  /** A stamped message of the client is the edge or the marker that it spells. */
  lemma MessageSpells(now: U64, key: string, usage: int, t: U64)
    requires Names(key, usage)
    ensures DatagramEvent(now, BuildEdgeMsg("down", key, t)) == Some(UdpEdge(now, t, usage, true))
    ensures DatagramEvent(now, BuildEdgeMsg("up", key, t)) == Some(UdpEdge(now, t, usage, false))
    ensures DatagramEvent(now, BuildEdgeMsg("mup", key, t)) == Some(UdpMarker(now, t, usage))
  {
    hide Tokens, ParseTokens, BuildEdgeMsg;
    BothSidesName(key, usage);
    EdgeMsgRoundTrip("down", key, t);
    EdgeMsgRoundTrip("up", key, t);
    EdgeMsgRoundTrip("mup", key, t);
  }

  /** How a message looks. */
  lemma MessageText()
    ensures BuildEdgeMsg("down", "a", 1203) == "t=1203 down a"
  {
    assert Decimal(12) == "12";
    assert Decimal(120) == "120";
    assert Decimal(1203) == "1203";
  }

  /** Spaces, tabs and line ends separate words, and no other characters do. */
  lemma BlanksSeparate(w: string, c: char, rest: string)
    requires w != "" && forall x <- w :: x != ' ' && x != '\t' && x != '\n' && x != '\r'
    requires c == ' ' || c == '\t' || c == '\n' || c == '\r'
    ensures Tokens(w + [c] + rest) == [w] + Tokens(rest)
  {
    hide Tokens;
    assert w + [c] + rest == w + ([c] + rest);
    TokensOfWordAndRest(w, [c] + rest);
    TokensAfterBlank(c, rest);
  }

  /** Any other command does nothing. */
  lemma OtherCommandsAreIgnored(now: U64, cmd: string, key: string, t: U64)
    requires IsWord(cmd) && IsWord(key) && cmd != "down" && cmd != "up" && cmd != "mup"
    ensures DatagramEvent(now, BuildEdgeMsg(cmd, key, t)) == None
  {
    hide Tokens, ParseTokens, BuildEdgeMsg;
    EdgeMsgRoundTrip(cmd, key, t);
  }

  /** Without a stamp the message is read as if it carried the stamp zero. */
  lemma UnstampedMessage(now: U64, cmd: string, key: string)
    requires IsWord(cmd) && IsWord(key) && !("t=" <= cmd)
    ensures DatagramEvent(now, cmd + " " + key) == DatagramEvent(now, BuildEdgeMsg(cmd, key, 0))
  {
    hide Tokens, BuildEdgeMsg;
    assert cmd + " " + key == cmd + (" " + key);
    TokensOfWordAndRest(cmd, " " + key);
    TokensAfterBlank(' ', key);
    TokensOfWord(key);
    assert ParseTokens([cmd] + [key]) == Some(Text(0, cmd, key));
    EdgeMsgRoundTrip(cmd, key, 0);
  }

  /**
   A stamp is its number if that fits in 64 bits, and zero otherwise; a minus sign negates it
   modulo 2^64, a plus sign says nothing, and what is not a digit ends it.
   */
  lemma StampIsNumber(digits: string, rest: string)
    requires digits != "" && forall c <- digits :: IsDigit(c)
    requires rest == "" || !IsDigit(rest[0])
    ensures
      var n := DecimalValue(digits);
      && StampOf("t=" + digits + rest) == (if n < TWO_TO_64 then n else 0)
      && StampOf("t=+" + digits + rest) == (if n < TWO_TO_64 then n else 0)
      && StampOf("t=-" + digits + rest) == (if 0 < n < TWO_TO_64 then TWO_TO_64 - n else 0)
  {
    hide Stoull, DecimalValue;
    assert ("t=" + digits + rest)[2..] == digits + rest;
    assert ("t=+" + digits + rest)[2..] == "+" + (digits + rest);
    assert ("t=-" + digits + rest)[2..] == "-" + (digits + rest);
    PlainNumber(digits, rest);
    SignedNumber('+', digits, rest);
    SignedNumber('-', digits, rest);
  }

  lemma {:induction false} DigitsEnd(digits: string, rest: string)
    requires forall c <- digits :: IsDigit(c)
    requires rest == "" || !IsDigit(rest[0])
    ensures LeadingDigits(digits + rest) == digits
  {
    if digits == "" {
      assert digits + rest == rest;
    } else {
      DigitsEnd(digits[1..], rest);
      assert (digits + rest)[1..] == digits[1..] + rest;
      assert IsDigit(digits[0]);
    }
  }

  lemma PlainNumber(digits: string, rest: string)
    requires digits != "" && forall c <- digits :: IsDigit(c)
    requires rest == "" || !IsDigit(rest[0])
    ensures
      var n := DecimalValue(digits);
      Stoull(digits + rest) == if n < TWO_TO_64 then Some(n) else None
  {
    hide DecimalValue, LeadingDigits;
    DigitsEnd(digits, rest);
    assert IsDigit(digits[0]);
  }

  lemma Signed(sign: char, s: string)
    requires sign == '+' || sign == '-'
    ensures
      var digits := LeadingDigits(s);
      Stoull([sign] + s) ==
        if digits == "" || DecimalValue(digits) >= TWO_TO_64 then None
        else if sign == '-' then Some(Wrap64(0 - DecimalValue(digits)))
        else Some(DecimalValue(digits))
  {
    hide DecimalValue, LeadingDigits, Wrap64;
    assert ([sign] + s)[1..] == s;
  }

  lemma SignedNumber(sign: char, digits: string, rest: string)
    requires sign == '+' || sign == '-'
    requires digits != "" && forall c <- digits :: IsDigit(c)
    requires rest == "" || !IsDigit(rest[0])
    ensures
      var n := DecimalValue(digits);
      Stoull([sign] + (digits + rest)) ==
        if n >= TWO_TO_64 then None else if sign == '-' && n > 0 then Some(TWO_TO_64 - n) else Some(n)
  {
    hide Stoull, DecimalValue, LeadingDigits, Wrap64;
    DigitsEnd(digits, rest);
    Signed(sign, digits + rest);
    var n := DecimalValue(digits);
    if n < TWO_TO_64 {
      Wrap64Difference(0, n);
    }
  }

  /** White space before the number is skipped, and a stamp that has no number counts as zero. */
  lemma StampSkipsSpace(c: char, s: string)
    requires c == ' ' || c == '\t' || c == '\n' || c as int == 11 || c as int == 12 || c == '\r'
    ensures StampOf("t=" + [c] + s) == StampOf("t=" + s) && StampOf("t=") == 0
  {
    assert ("t=" + [c] + s)[2..] == [c] + s;
    assert ([c] + s)[1..] == s;
    assert ("t=" + s)[2..] == s;
    assert "t="[2..] == "";
  }

  /** The daemon looks at no more than the first character of a key that is not ENTER. */
  lemma DaemonUsageIs(key: string)
    requires key != "" && key != "ENTER"
    ensures UsageOf(key) ==
      if 'a' <= key[0] <= 'z' then 4 + (key[0] as int - 'a' as int)
      else if 'A' <= key[0] <= 'Z' then 4 + (key[0] as int - 'A' as int)
      else if key[0] == '\n' then 0x28
      else 0
  {
  }

  // Effects

  /**
   The effect of a message, once the clock has passed one deadline.  It is dropped, unless there
   is no deadline, its stamp is zero, or it is neither from the future nor older than the
   deadline; otherwise it presses its key, releases it, or leaves its stamp as the marker, and
   touches nothing else.
   */
  lemma MessageEffect(cfg: Config, s: State, now: U64, cmd: string, key: string, usage: int, t: U64)
    requires Names(key, usage) && cmd in ["down", "up", "mup"] && now >= cfg.deadlineMs * 1000000
    ensures
      var e := DatagramEvent(now, BuildEdgeMsg(cmd, key, t));
      && e.Some?
      && var s' := Step(cfg, s, e.value);
      var km, km' := s.keymeta[usage], s'.keymeta[usage];
      if cfg.deadlineMs <= 0 || t == 0 || (t <= now && now - t <= cfg.deadlineMs * 1000000) then
        && s'.modifiers == s.modifiers
        && (forall v: Byte :: v != usage ==>
              s'.keymeta[v] == s.keymeta[v] && (v in s'.pressed <==> v in s.pressed))
        && (Sends(cfg, s, e.value) <==> cmd != "mup")
        && (cmd == "down" ==> usage in s'.pressed && km' == KeyMeta(true, now, km.lastSnapshot, km.upMarker, false))
        && (cmd == "up" ==> usage !in s'.pressed && km' == KeyMeta(false, now, km.lastSnapshot, None, false))
        && (cmd == "mup" ==>
              && s'.pressed == s.pressed
              && km' == KeyMeta(km.pressed, km.lastEdge, km.lastSnapshot, Some(if t == 0 then now else t),
                                km.stuckReported))
      else
        s' == s && !Sends(cfg, s, e.value)
  {
    hide BuildEdgeMsg, DatagramEvent, UdpAccepts;
    MessageSpells(now, key, usage, t);
    UdpAcceptsIff(cfg, now, t);
    var e := DatagramEvent(now, BuildEdgeMsg(cmd, key, t)).value;
    assert Step(cfg, s, e) == if !UdpAccepts(cfg, now, t) then s else
      if cmd == "mup" then Marked(s, usage, EffectiveStamp(now, t)) else ApplyEdge(s, usage, cmd == "down", now);
  }

  function Marked(s: State, u: Byte, stamp: U64): State {
    s.(keymeta := s.keymeta[u := s.keymeta[u].(upMarker := Some(stamp))])
  }

  // Healing

  datatype ClientMsg = ClientMsg(cmd: string, key: string, stamp: U64)

  /** The text edges of the run are those of these messages, one for each event. */
  ghost predicate ComeAsText(es: seq<Event>, msgs: seq<ClientMsg>) {
    && |msgs| == |es|
    && forall i :: 0 <= i < |es| && (es[i].UdpEdge? || es[i].UdpMarker?) ==>
         && IsWord(msgs[i].cmd) && IsWord(msgs[i].key) && (msgs[i].key == "ENTER" || |msgs[i].key| == 1)
         && DatagramEvent(es[i].now, BuildEdgeMsg(msgs[i].cmd, msgs[i].key, msgs[i].stamp)) == Some(es[i])
  }

  /** What such an event says is what its message says. */
  lemma EventSaysMessage(e: Event, m: ClientMsg)
    requires IsWord(m.cmd) && IsWord(m.key) && (m.key == "ENTER" || |m.key| == 1)
    requires DatagramEvent(e.now, BuildEdgeMsg(m.cmd, m.key, m.stamp)) == Some(e)
    ensures e.UdpEdge? && e.down && e.key != 0 ==> m.cmd == "down" && Names(m.key, e.key) && e.stamp == m.stamp
  {
    hide Tokens, ParseTokens, BuildEdgeMsg;
    EdgeMsgRoundTrip(m.cmd, m.key, m.stamp);
    assert m.key[0] in m.key;
  }

  /**
   The healing bound on the text: if the client's last "down" of a key was stamped `c` and it
   held the key until `released`, then a deadline, a snapshot period and the skew later the key
   is released, whatever datagrams were lost, delayed or reordered.
   */
  lemma HealingBoundOfText(
    cfg: Config, s: State, es: seq<Event>, msgs: seq<ClientMsg>, n: nat, u: Byte, c: nat, released: nat, t: nat,
    period: nat, skew: nat)
    requires cfg.deadlineMs > 0 && n <= |es| && WithinSkew(es, skew) && u != 0 && ComeAsText(es, msgs)
    requires forall i :: 0 <= i < |msgs| && msgs[i].cmd == "down" && Names(msgs[i].key, u) ==> 0 < msgs[i].stamp <= c
    requires forall i :: 0 <= i < |es| && es[i].QuicEdge? && es[i].usage == u ==> es[i].cmd != 1
    requires forall i :: 0 <= i < |es| && es[i].Snapshot? && es[i].now > released ==> u !in es[i].keys
    requires SnapshotsEvery(es, n, Max(c + cfg.deadlineMs * 1000000, released) + skew, t, period)
    requires t >= Max(c + cfg.deadlineMs * 1000000, released) + skew + period
    ensures u !in After(cfg, s, es, n).pressed
  {
    hide After, DatagramEvent, BuildEdgeMsg, IsWord, SnapshotsEvery, WithinSkew;
    var c' := Max(c, released - cfg.DeadlineNs());
    forall i | 0 <= i < |es| && es[i].UdpEdge? && es[i].key == u && es[i].down
      ensures 0 < es[i].stamp <= c'
    {
      EventSaysMessage(es[i], msgs[i]);
    }
    HealingBound(cfg, s, es, n, u, c', t, period, skew);
  }
}

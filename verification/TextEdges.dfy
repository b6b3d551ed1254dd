/**
 Text edges: "t=<ns> down a" and the like.  The daemon's tokenizer and parser, the client's
 message builder, and the usages that both give to a key.
 Characters are bytes; those outside ASCII are left to themselves by both sides.
 */
module TextEdges {
  import opened Words
  import opened KeyState
  import opened Daemon

  // Tokens

  predicate IsBlank(c: char) {
    c == ' ' || c == '\n' || c == '\r' || c == '\t'
  }

  /** A maximal run of non-blank characters. */
  ghost predicate IsRun(s: string, i: int, j: int) {
    && 0 <= i < j <= |s|
    && (forall k :: i <= k < j ==> !IsBlank(s[k]))
    && (i > 0 ==> IsBlank(s[i - 1]))
    && (j < |s| ==> IsBlank(s[j]))
  }

  function SkipBlanks(s: string, i: nat): (r: nat)
    requires i <= |s|
    ensures i <= r <= |s|
    ensures forall k :: i <= k < r ==> IsBlank(s[k])
    ensures r < |s| ==> !IsBlank(s[r])
    decreases |s| - i
  {
    if i < |s| && IsBlank(s[i]) then SkipBlanks(s, i + 1) else i
  }

  function SkipWord(s: string, i: nat): (r: nat)
    requires i <= |s|
    ensures i <= r <= |s|
    ensures forall k :: i <= k < r ==> !IsBlank(s[k])
    ensures r < |s| ==> IsBlank(s[r])
    decreases |s| - i
  {
    if i < |s| && !IsBlank(s[i]) then SkipWord(s, i + 1) else i
  }

  /** Where the tokens from position `from` on begin and end. */
  function Spans(s: string, from: nat): (spans: seq<(nat, nat)>)
    requires from <= |s|
    ensures forall k :: 0 <= k < |spans| ==> from <= spans[k].0 < spans[k].1 <= |s|
    decreases |s| - from
  {
    var i := SkipBlanks(s, from);
    if i == |s| then []
    else
      var j := SkipWord(s, i);
      [(i, j)] + Spans(s, j)
  }

  function Slices(s: string, spans: seq<(nat, nat)>): seq<string>
    requires forall k :: 0 <= k < |spans| ==> spans[k].0 < spans[k].1 <= |s|
  {
    seq(|spans|, k requires 0 <= k < |spans| => s[spans[k].0..spans[k].1])
  }

  function TokensFrom(s: string, from: nat): seq<string>
    requires from <= |s|
  {
    Slices(s, Spans(s, from))
  }

  function Tokens(s: string): seq<string> {
    TokensFrom(s, 0)
  }

  // Token by token.
  lemma TokensStep(s: string, from: nat)
    requires from <= |s|
    ensures
      var i := SkipBlanks(s, from);
      TokensFrom(s, from) ==
        if i == |s| then [] else [s[i..SkipWord(s, i)]] + TokensFrom(s, SkipWord(s, i))
  {
    var i := SkipBlanks(s, from);
    if i < |s| {
      var j := SkipWord(s, i);
      assert Spans(s, from) == [(i, j)] + Spans(s, j);
    }
  }

  /** The spans are exactly the maximal runs. */
  lemma {:induction false} SpansAreRuns(s: string, from: nat, i: nat, j: nat)
    requires from <= |s| && (from == 0 || from == |s| || IsBlank(s[from]))
    ensures (i, j) in Spans(s, from) <==> from <= i && IsRun(s, i, j)
    decreases |s| - from
  {
    var a := SkipBlanks(s, from);
    if a < |s| {
      var b := SkipWord(s, a);
      SpansAreRuns(s, b, i, j);
      assert IsRun(s, a, b);
      assert (i, j) in Spans(s, from) <==> (i, j) == (a, b) || (i, j) in Spans(s, b);
      if from <= i && IsRun(s, i, j) {
        assert !IsBlank(s[i]);
        assert a <= i;
        if i == a {
          assert j == b;
        } else {
          assert b <= i;
        }
      }
    } else {
      assert from <= i < |s| ==> IsBlank(s[i]);
    }
  }

  /** They come in order, with a blank between any two. */
  lemma {:induction false} SpansAreOrdered(s: string, from: nat, p: nat, q: nat)
    requires from <= |s| && p < q < |Spans(s, from)|
    ensures Spans(s, from)[p].1 < Spans(s, from)[q].0
    decreases |s| - from
  {
    var a := SkipBlanks(s, from);
    var b := SkipWord(s, a);
    var rest := Spans(s, b);
    if p > 0 {
      SpansAreOrdered(s, b, p - 1, q - 1);
    } else {
      assert rest[q - 1] in rest;
      assert b < |s| && IsBlank(s[b]);
      if rest[q - 1].0 == b {
        SpansAreRuns(s, b, rest[q - 1].0, rest[q - 1].1);
        assert false;
      }
    }
  }

  /** The daemon's tokenizer. */
  method Tokenize(s: string) returns (tok: seq<string>)
    ensures tok == Tokens(s)
  {
    hide TokensFrom;
    tok := [];
    var i := 0;
    while i < |s|
      invariant 0 <= i <= |s| && tok + TokensFrom(s, i) == TokensFrom(s, 0)
    {
      ghost var from := i;
      TokensStep(s, from);
      while i < |s| && IsBlank(s[i])
        invariant from <= i <= |s| && SkipBlanks(s, from) == SkipBlanks(s, i)
      {
        i := i + 1;
      }
      if i >= |s| {
        break;
      }
      var j := i;
      while j < |s| && !IsBlank(s[j])
        invariant i <= j <= |s| && SkipWord(s, i) == SkipWord(s, j)
      {
        j := j + 1;
      }
      tok := tok + [s[i..j]];
      i := j;
    }
    if i == |s| {
      TokensStep(s, |s|);
    }
  }

  // Numbers

  predicate IsDigit(c: char) { '0' <= c <= '9' }

  function DigitValue(c: char): nat
    requires IsDigit(c)
  {
    c as int - '0' as int
  }

  /** The decimal number that a string of digits writes. */
  function DecimalValue(s: string): nat
    requires forall c <- s :: IsDigit(c)
  {
    if s == "" then 0 else 10 * DecimalValue(s[..|s| - 1]) + DigitValue(s[|s| - 1])
  }

  function Digit(d: nat): (c: char)
    requires d < 10
    ensures IsDigit(c) && DigitValue(c) == d
  {
    '0' + d as char
  }

  /** How the client prints a stamp. */
  function Decimal(n: nat): (s: string)
    ensures s != "" && forall c <- s :: IsDigit(c)
  {
    if n < 10 then [Digit(n)] else Decimal(n / 10) + [Digit(n % 10)]
  }

  lemma {:induction false} DecimalRoundTrip(n: nat)
    ensures DecimalValue(Decimal(n)) == n
  {
    if n >= 10 {
      DecimalRoundTrip(n / 10);
      assert Decimal(n)[..|Decimal(n)| - 1] == Decimal(n / 10);
    } else {
      assert Decimal(n)[..0] == "";
    }
  }

  predicate IsCSpace(c: char) {
    c == ' ' || '\t' <= c <= '\r'
  }

  function LeadingDigits(s: string): (r: string)
    ensures forall c <- r :: IsDigit(c)
  {
    if s != "" && IsDigit(s[0]) then [s[0]] + LeadingDigits(s[1..]) else ""
  }

  /**
   std::stoull in base ten: white space, a sign, digits, and whatever follows; nothing for
   no digits or a number that needs more than 64 bits; a minus sign negates modulo 2^64.
   */
  function Stoull(s: string): Option<U64> {
    if s == "" then None
    else if IsCSpace(s[0]) then Stoull(s[1..])
    else
      var signed := s[0] == '+' || s[0] == '-';
      var digits := LeadingDigits(if signed then s[1..] else s);
      if digits == "" || DecimalValue(digits) >= TWO_TO_64 then None
      else if s[0] == '-' then Some(Wrap64(0 - DecimalValue(digits)))
      else Some(DecimalValue(digits))
  }

  lemma {:induction false} AllLeadingDigits(s: string)
    requires forall c <- s :: IsDigit(c)
    ensures LeadingDigits(s) == s
  {
    if s != "" {
      AllLeadingDigits(s[1..]);
    }
  }

  /** Every stamp that fits in 64 bits reads back as itself. */
  lemma StampRoundTrip(t: U64)
    ensures Stoull(Decimal(t)) == Some(t)
  {
    AllLeadingDigits(Decimal(t));
    DecimalRoundTrip(t);
    assert IsDigit(Decimal(t)[0]);
  }

  // Messages

  datatype Text = Text(stamp: U64, cmd: string, key: string)

  function ParseTokens(tok: seq<string>): Option<Text> {
    if tok == [] then None
    else
      var stamped := "t=" <= tok[0];
      var stamp := if stamped then StampOf(tok[0]) else 0;
      var idx := if stamped then 1 else 0;
      if idx >= |tok| then None
      else Some(Text(stamp, tok[idx], if idx + 1 < |tok| then tok[idx + 1] else ""))
  }

  function StampOf(tok: string): U64
    requires "t=" <= tok
  {
    match Stoull(tok[2..])
    case Some(t) => t
    case None => 0
  }

  function Lower(c: char): char {
    if 'A' <= c <= 'Z' then c + ('a' - 'A') else c
  }

  /** The daemon's usage for a key name: ENTER, or the first letter. */
  function UsageOf(key: string): TextUsage {
    if key == "ENTER" then 0x28
    else if key == "" then 0
    else
      var c := Lower(key[0]);
      if 'a' <= c <= 'z' then 0x04 + (c as int - 'a' as int)
      else if c == '\n' then 0x28
      else 0
  }

  function CommandOf(cmd: string): Option<Command> {
    if cmd == "down" then Some(Down)
    else if cmd == "up" then Some(Up)
    else if cmd == "mup" then Some(Mup)
    else None
  }

  /** What a datagram does to the key state, if it is one of the three commands. */
  function DatagramEvent(now: U64, s: string): Option<Event> {
    match ParseTokens(Tokens(s))
    case None => None
    case Some(Text(stamp, cmd, key)) =>
      match CommandOf(cmd)
      case None => None
      case Some(c) => Some(TextEvent(now, stamp, c, UsageOf(key)))
  }

  /** The daemon's UDP loop, for one datagram. */
  method HandleDatagram(d: KeyDaemon, s: string, now: U64) returns (sends: bool)
    requires d.Valid()
    modifies d`pressed, d.keymeta
    ensures d.Valid()
    ensures match DatagramEvent(now, s)
      case Some(e) => d.Now() == Step(d.cfg, old(d.Now()), e) && sends == Sends(d.cfg, old(d.Now()), e)
      case None => d.Now() == old(d.Now()) && !sends
  {
    var tok := Tokenize(s);
    var text := ParseTokens(tok);
    if text == None {
      return false;
    }
    var cmd := CommandOf(text.value.cmd);
    if cmd == None {
      return false;
    }
    sends := d.UdpMessage(now, text.value.stamp, cmd.value, UsageOf(text.value.key));
  }

  // The client

  /** build_edge_msg. */
  function BuildEdgeMsg(cmd: string, key: string, t: U64): string {
    "t=" + Decimal(t) + " " + cmd + " " + key
  }

  /** usage_for_key, on ASCII keys. */
  function ClientUsage(key: string): Byte {
    if key == "ENTER" then 0x28
    else if |key| == 1 then
      var c := Lower(key[0]);
      if 'a' <= c <= 'z' then 0x04 + (c as int - 'a' as int)
      else if c == ' ' then 0x2C
      else 0
    else 0
  }

  predicate IsWord(s: string) {
    s != "" && forall c <- s :: !IsBlank(c)
  }

  // A word after one blank, at the end or before another blank, is one token.
  lemma FirstWord(w: string, rest: string)
    requires IsWord(w) && (rest == "" || IsBlank(rest[0]))
    ensures SkipBlanks(w + rest, 0) == 0 && SkipWord(w + rest, 0) == |w|
  {
    var s := w + rest;
    forall k | 0 <= k < |w|
      ensures !IsBlank(s[k])
    {
      assert s[k] in w;
    }
    assert rest != "" ==> IsBlank(s[|w|]);
    assert !IsBlank(s[0]);
    var r := SkipWord(s, 0);
    assert r <= |w|;
  }

  lemma {:induction false} ShiftedSkips(a: string, s: string, i: nat)
    requires i <= |s|
    ensures SkipBlanks(a + s, |a| + i) == |a| + SkipBlanks(s, i)
    ensures SkipWord(a + s, |a| + i) == |a| + SkipWord(s, i)
    decreases |s| - i
  {
    if i < |s| {
      ShiftedSkips(a, s, i + 1);
      assert (a + s)[|a| + i] == s[i];
    }
  }

  lemma {:induction false} ShiftedTokens(a: string, s: string, from: nat)
    requires from <= |s|
    ensures TokensFrom(a + s, |a| + from) == TokensFrom(s, from)
    decreases |s| - from
  {
    hide TokensFrom;
    ShiftedSkips(a, s, from);
    TokensStep(s, from);
    TokensStep(a + s, |a| + from);
    var i := SkipBlanks(s, from);
    if i < |s| {
      ShiftedSkips(a, s, i);
      var j := SkipWord(s, i);
      ShiftedTokens(a, s, j);
      assert (a + s)[|a| + i..|a| + j] == s[i..j];
    }
  }

  lemma TokensOfWordAndRest(w: string, rest: string)
    requires IsWord(w) && (rest == "" || IsBlank(rest[0]))
    ensures Tokens(w + rest) == [w] + Tokens(rest)
  {
    hide TokensFrom;
    FirstWord(w, rest);
    TokensStep(w + rest, 0);
    ShiftedTokens(w, rest, 0);
    assert (w + rest)[0..|w|] == w;
  }

  lemma TokensAfterBlank(c: char, s: string)
    requires IsBlank(c)
    ensures Tokens([c] + s) == Tokens(s)
  {
    hide TokensFrom;
    ShiftedTokens([c], s, 0);
    assert SkipBlanks([c] + s, 0) == SkipBlanks([c] + s, 1);
    TokensStep([c] + s, 0);
    TokensStep([c] + s, 1);
  }

  lemma EdgeMsgTokens(cmd: string, key: string, t: U64)
    requires IsWord(cmd)
    ensures Tokens(BuildEdgeMsg(cmd, key, t)) == ["t=" + Decimal(t), cmd] + Tokens(key)
  {
    var w := "t=" + Decimal(t);
    assert BuildEdgeMsg(cmd, key, t) == w + (" " + (cmd + (" " + key)));
    TokensOfWordAndRest(w, " " + (cmd + (" " + key)));
    TokensAfterBlank(' ', cmd + (" " + key));
    TokensOfWordAndRest(cmd, " " + key);
    TokensAfterBlank(' ', key);
  }

  lemma TokensOfWord(w: string)
    requires IsWord(w)
    ensures Tokens(w) == [w]
  {
    TokensOfWordAndRest(w, "");
    assert w + "" == w;
    TokensStep("", 0);
  }

  /** The daemon reads back what the client wrote, for every stamp, command word and key word. */
  lemma EdgeMsgRoundTrip(cmd: string, key: string, t: U64)
    requires IsWord(cmd) && IsWord(key)
    ensures ParseTokens(Tokens(BuildEdgeMsg(cmd, key, t))) == Some(Text(t, cmd, key))
  {
    EdgeMsgTokens(cmd, key, t);
    TokensOfWord(key);
    StampedTokens(cmd, [key], t);
  }

  lemma StampedTokens(cmd: string, rest: seq<string>, t: U64)
    ensures ParseTokens(["t=" + Decimal(t), cmd] + rest) == Some(Text(t, cmd, if rest == [] then "" else rest[0]))
  {
    StampRoundTrip(t);
    var tok := ["t=" + Decimal(t), cmd] + rest;
    assert tok[0][2..] == Decimal(t);
    assert tok[0][..2] == "t=";
  }

  lemma BlankKeyIsLost(cmd: string, c: char, t: U64)
    requires IsWord(cmd) && IsBlank(c)
    ensures ParseTokens(Tokens(BuildEdgeMsg(cmd, [c], t))) == Some(Text(t, cmd, ""))
  {
    EdgeMsgTokens(cmd, [c], t);
    assert SkipBlanks([c], 0) == SkipBlanks([c], 1) == 1;
    assert Tokens([c]) == [];
    StampedTokens(cmd, [], t);
  }

  // The usage that the daemon finds in a message of the client.
  function SentUsage(cmd: string, key: string, t: U64): TextUsage {
    match ParseTokens(Tokens(BuildEdgeMsg(cmd, key, t)))
    case Some(text) => UsageOf(text.key)
    case None => 0
  }

  /** For every key of one ASCII character, both sides name the same usage unless it is the space. */
  lemma UsagesAgreeIff(cmd: string, c: char, t: U64)
    requires IsWord(cmd) && c as int < 128
    ensures SentUsage(cmd, [c], t) == ClientUsage([c]) <==> c != ' '
  {
    if IsBlank(c) {
      BlankKeyIsLost(cmd, c, t);
    } else {
      EdgeMsgRoundTrip(cmd, [c], t);
    }
  }

  lemma EnterAgrees(cmd: string, t: U64)
    requires IsWord(cmd)
    ensures SentUsage(cmd, "ENTER", t) == ClientUsage("ENTER") == 0x28
  {
    EdgeMsgRoundTrip(cmd, "ENTER", t);
  }
}

/**
 The client's delayed outboxes: payloads wait in a heap until their time has come.  The
 coroutines `enqueue`, `run` and `close` take turns in any order; what the impairment draws
 (a drop, a delay) and what the clock shows are arbitrary, but that the clock never goes back
 and that a sleep is not shorter than asked.
 */
module Outbox {
  import opened Words

  type Payload = seq<Byte>

  /** An entry of the heap, ordered by time and then by payload. */
  datatype Entry = Entry(sendAt: real, payload: Payload)

  datatype Sent = Sent(at: real, entry: Entry)

  /**
   Where `run` stands: waiting for entries, holding the one it popped, asleep since some
   instant for some time, past the wait, or returned.
   */
  datatype Runner =
    | Waiting
    | Popped(entry: Entry)
    | Asleep(entry: Entry, since: real, duration: real)
    | Awake(entry: Entry, since: real)
    | Returned

  /** `accepted` lists what was enqueued and not dropped; the rest are the fields of the outbox. */
  datatype Box = Box(
    accepted: seq<Entry>, queue: multiset<Entry>, closed: bool, runner: Runner, sent: seq<Sent>)

  const EMPTY := Box([], multiset{}, false, Waiting, [])

  datatype Turn =
    | Enqueue(drop: bool, now: real, delay: real, payload: Payload)
    | Pop(entry: Entry)
    | ReadClock(now: real)
    | Wake(now: real)
    | Send(now: real)
    | Return
    | Close

  /** Byte strings in the order that ties are broken in. */
  predicate LexLeq(a: Payload, b: Payload) {
    a == [] || (b != [] && (a[0] < b[0] || (a[0] == b[0] && LexLeq(a[1..], b[1..]))))
  }

  predicate EntryLeq(a: Entry, b: Entry) {
    a.sendAt < b.sendAt || (a.sendAt == b.sendAt && LexLeq(a.payload, b.payload))
  }

  ghost predicate CanTake(b: Box, a: Turn) {
    match a
    case Enqueue(_, _, delay, _) => delay >= 0.0
    case Pop(e) => b.runner == Waiting && e in b.queue && forall o <- b.queue :: EntryLeq(e, o)
    case ReadClock(_) => b.runner.Popped?
    case Wake(now) => b.runner.Asleep? && now >= b.runner.since + b.runner.duration
    case Send(now) => b.runner.Awake? && now >= b.runner.since
    case Return => b.runner == Waiting && b.closed && b.queue == multiset{}
    case Close => true
  }

  function Take(b: Box, a: Turn): Box {
    match a
    case Enqueue(drop, now, delay, payload) =>
      if drop then b
      else
        var e := Entry(now + delay, payload);
        b.(accepted := b.accepted + [e], queue := b.queue + multiset{e})
    case Pop(e) => b.(queue := b.queue - multiset{e}, runner := Popped(e))
    case ReadClock(now) =>
      if b.runner.Popped? then
        var e := b.runner.entry;
        b.(runner := if e.sendAt > now then Asleep(e, now, e.sendAt - now) else Awake(e, now))
      else b
    case Wake(now) => if b.runner.Asleep? then b.(runner := Awake(b.runner.entry, now)) else b
    case Send(now) =>
      if b.runner.Awake? then b.(sent := b.sent + [Sent(now, b.runner.entry)], runner := Waiting) else b
    case Return => b.(runner := Returned)
    case Close => b.(closed := true)
  }

  ghost predicate IsOutboxRun(turns: seq<Turn>, n: nat)
    requires n <= |turns|
  {
    forall i :: 0 <= i < n ==> CanTake(BoxAfter(turns, i), turns[i])
  }

  function BoxAfter(turns: seq<Turn>, n: nat): Box
    requires n <= |turns|
  {
    if n == 0 then EMPTY else Take(BoxAfter(turns, n - 1), turns[n - 1])
  }

  function Entries(sent: seq<Sent>): seq<Entry> {
    seq(|sent|, i requires 0 <= i < |sent| => sent[i].entry)
  }

  function Held(r: Runner): multiset<Entry> {
    if r.Waiting? || r.Returned? then multiset{} else multiset{r.entry}
  }

  ghost predicate Conserved(b: Box) {
    multiset(Entries(b.sent)) + Held(b.runner) + b.queue == multiset(b.accepted)
  }

  ghost predicate OnTime(b: Box) {
    forall i :: 0 <= i < |b.sent| ==> b.sent[i].at >= b.sent[i].entry.sendAt
  }

  // What the wait is good for: behind it, the time of the entry has come.
  ghost predicate WaitsLongEnough(r: Runner) {
    match r
    case Asleep(e, since, duration) => since + duration >= e.sendAt
    case Awake(e, since) => since >= e.sendAt
    case _ => true
  }

  lemma EnqueueConserves(b: Box, b': Box, e: Entry)
    requires Conserved(b) && b' == b.(accepted := b.accepted + [e], queue := b.queue + multiset{e})
    ensures Conserved(b')
  {
    assert multiset(b'.accepted) == multiset(b.accepted) + multiset{e};
  }

  lemma PopConserves(b: Box, b': Box, e: Entry)
    requires Conserved(b) && b.runner == Waiting && e in b.queue
    requires b' == b.(queue := b.queue - multiset{e}, runner := Popped(e))
    ensures Conserved(b')
  {
    assert b.queue == b'.queue + multiset{e};
  }

  lemma SendConserves(b: Box, b': Box, now: real)
    requires Conserved(b) && b.runner.Awake?
    requires b' == b.(sent := b.sent + [Sent(now, b.runner.entry)], runner := Waiting)
    ensures Conserved(b')
  {
    var e := b.runner.entry;
    assert Entries(b'.sent) == Entries(b.sent) + [e];
    assert multiset(Entries(b'.sent)) == multiset(Entries(b.sent)) + multiset{e};
  }

  lemma StepConserves(b: Box, a: Turn)
    requires CanTake(b, a) && Conserved(b)
    ensures Conserved(Take(b, a))
  {
    hide EntryLeq, Conserved, Held;
    var b' := Take(b, a);
    match a
    case Enqueue(drop, now, delay, payload) =>
      if !drop {
        EnqueueConserves(b, b', Entry(now + delay, payload));
      }
    case Pop(e) => PopConserves(b, b', e);
    case Send(now) => SendConserves(b, b', now);
    case _ =>
      BooksUntouched(b, a);
      SameBooks(b, b');
  }

  lemma BooksUntouched(b: Box, a: Turn)
    requires CanTake(b, a) && !a.Enqueue? && !a.Pop? && !a.Send?
    ensures
      var b' := Take(b, a);
      && Held(b'.runner) == Held(b.runner)
      && b'.accepted == b.accepted && b'.queue == b.queue && b'.sent == b.sent
  {
    hide EntryLeq;
  }

  lemma SameBooks(b: Box, b': Box)
    requires Conserved(b) && Held(b'.runner) == Held(b.runner)
    requires b'.accepted == b.accepted && b'.queue == b.queue && b'.sent == b.sent
    ensures Conserved(b')
  {
  }

  lemma StepOnTime(b: Box, a: Turn)
    requires CanTake(b, a) && OnTime(b) && WaitsLongEnough(b.runner)
    ensures OnTime(Take(b, a)) && WaitsLongEnough(Take(b, a).runner)
  {
    hide EntryLeq;
  }

  /**
   At every step of every run, what was sent, what is held and what is queued are together
   exactly what was accepted, and nothing was sent before its time.
   */
  lemma {:induction false} NothingLostNothingEarly(turns: seq<Turn>, n: nat)
    requires n <= |turns| && IsOutboxRun(turns, n)
    ensures Conserved(BoxAfter(turns, n)) && OnTime(BoxAfter(turns, n))
    ensures WaitsLongEnough(BoxAfter(turns, n).runner)
  {
    hide Conserved, OnTime, CanTake, Take, WaitsLongEnough;
    if n > 0 {
      NothingLostNothingEarly(turns, n - 1);
      StepConserves(BoxAfter(turns, n - 1), turns[n - 1]);
      StepOnTime(BoxAfter(turns, n - 1), turns[n - 1]);
    } else {
      EmptyBooks();
    }
  }

  lemma EmptyBooks()
    ensures Conserved(EMPTY) && OnTime(EMPTY) && WaitsLongEnough(EMPTY.runner)
  {
  }

  /** `run` returns only when the outbox is closed and every accepted payload was sent exactly once. */
  lemma ReturnsWhenAllSent(turns: seq<Turn>, n: nat)
    requires n < |turns| && IsOutboxRun(turns, n + 1) && turns[n] == Return
    ensures
      var b := BoxAfter(turns, n);
      b.closed && multiset(Entries(b.sent)) == multiset(b.accepted)
  {
    assert IsOutboxRun(turns, n);
    NothingLostNothingEarly(turns, n);
    var b := BoxAfter(turns, n);
    assert CanTake(b, Return);
    assert Held(b.runner) == multiset{};
  }

  // Told by the turns alone

  /** This turn hands in the entry: not dropped, due after its delay, with its payload. */
  predicate HandsIn(t: Turn, e: Entry) {
    t.Enqueue? && !t.drop && t.now + t.delay == e.sendAt && t.payload == e.payload
  }

  /** How many of the first `n` turns do. */
  function TimesHandedIn(turns: seq<Turn>, n: nat, e: Entry): nat
    requires n <= |turns|
  {
    if n == 0 then 0 else TimesHandedIn(turns, n - 1, e) + if HandsIn(turns[n - 1], e) then 1 else 0
  }

  function TimesSent(sent: seq<Sent>, e: Entry): nat {
    if sent == [] then 0
    else TimesSent(sent[..|sent| - 1], e) + if sent[|sent| - 1].entry == e then 1 else 0
  }

  lemma {:induction false} TimesSentIsCount(sent: seq<Sent>, e: Entry)
    ensures TimesSent(sent, e) == multiset(Entries(sent))[e]
  {
    if sent != [] {
      var n := |sent| - 1;
      TimesSentIsCount(sent[..n], e);
      assert Entries(sent) == Entries(sent[..n]) + [sent[n].entry];
    }
  }

  lemma {:induction false} AcceptedIsHandedIn(turns: seq<Turn>, n: nat, e: Entry)
    requires n <= |turns|
    ensures multiset(BoxAfter(turns, n).accepted)[e] == TimesHandedIn(turns, n, e)
  {
    if n > 0 {
      AcceptedIsHandedIn(turns, n - 1, e);
      AcceptsOne(BoxAfter(turns, n - 1), turns[n - 1], e);
    }
  }

  lemma AcceptsOne(b: Box, t: Turn, e: Entry)
    ensures multiset(Take(b, t).accepted)[e] == multiset(b.accepted)[e] + if HandsIn(t, e) then 1 else 0
  {
    if t.Enqueue? && !t.drop {
      var x := Entry(t.now + t.delay, t.payload);
      assert multiset(b.accepted + [x]) == multiset(b.accepted) + multiset{x};
      assert e == x <==> e.sendAt == x.sendAt && e.payload == x.payload;
    }
  }

  /**
   At every step, an entry is sent, held and queued together as often as turns have handed it
   in, and never sent before its time.
   */
  lemma HandedInIsKept(turns: seq<Turn>, n: nat, e: Entry)
    requires n <= |turns| && IsOutboxRun(turns, n)
    ensures
      var b := BoxAfter(turns, n);
      && TimesSent(b.sent, e) + Held(b.runner)[e] + b.queue[e] == TimesHandedIn(turns, n, e)
      && forall i :: 0 <= i < |b.sent| ==> b.sent[i].at >= b.sent[i].entry.sendAt
  {
    hide CanTake, Take, EntryLeq;
    var b := BoxAfter(turns, n);
    NothingLostNothingEarly(turns, n);
    AcceptedIsHandedIn(turns, n, e);
    TimesSentIsCount(b.sent, e);
    assert (multiset(Entries(b.sent)) + Held(b.runner) + b.queue)[e] == multiset(b.accepted)[e];
  }

  lemma {:induction false} ClosedIff(turns: seq<Turn>, n: nat)
    requires n <= |turns|
    ensures BoxAfter(turns, n).closed <==> exists i :: 0 <= i < n && turns[i] == Close
  {
    hide Take;
    if n > 0 {
      ClosedIff(turns, n - 1);
      OnlyCloseCloses(BoxAfter(turns, n - 1), turns[n - 1]);
    }
  }

  lemma OnlyCloseCloses(b: Box, t: Turn)
    ensures Take(b, t).closed <==> b.closed || t == Close
  {
  }

  /** When `run` returns, `close` was called, and what was handed in has been sent just as often. */
  lemma ReturnedIsSent(turns: seq<Turn>, n: nat, e: Entry)
    requires n < |turns| && IsOutboxRun(turns, n + 1) && turns[n] == Return
    ensures TimesSent(BoxAfter(turns, n).sent, e) == TimesHandedIn(turns, n, e)
    ensures exists i :: 0 <= i < n && turns[i] == Close
  {
    hide TimesSent, TimesHandedIn, Take;
    assert IsOutboxRun(turns, n);
    HandedInIsKept(turns, n, e);
    ClosedIff(turns, n);
    assert CanTake(BoxAfter(turns, n), Return);
  }

  // The order of sending

  lemma {:induction false} LexLeqTransitive(a: Payload, b: Payload, c: Payload)
    requires LexLeq(a, b) && LexLeq(b, c)
    ensures LexLeq(a, c)
  {
    if a != [] && a[0] == b[0] == c[0] {
      LexLeqTransitive(a[1..], b[1..], c[1..]);
    }
  }

  /** The order of byte strings: a prefix, or less at the first byte that differs. */
  lemma {:induction false} LexLeqIff(a: Payload, b: Payload)
    ensures LexLeq(a, b) <==>
      a <= b || exists k :: 0 <= k < |a| && k < |b| && a[..k] == b[..k] && a[k] < b[k]
  {
    forall k | 0 < k < |a| && k < |b| && a[..k] == b[..k]
      ensures a[0] == b[0]
    {
      assert a[..k][0] == b[..k][0];
    }
    if a != [] && b != [] && a[0] == b[0] {
      LexLeqIff(a[1..], b[1..]);
      assert a == [a[0]] + a[1..] && b == [b[0]] + b[1..];
      if k :| 0 <= k < |a[1..]| && k < |b[1..]| && a[1..][..k] == b[1..][..k] && a[1..][k] < b[1..][k] {
        assert a[..k + 1] == [a[0]] + a[1..][..k] && b[..k + 1] == [b[0]] + b[1..][..k];
      }
      if k :| 0 <= k < |a| && k < |b| && a[..k] == b[..k] && a[k] < b[k] {
        assert k > 0;
        assert a[1..][..k - 1] == a[..k][1..] && b[1..][..k - 1] == b[..k][1..];
        assert a[1..][k - 1] < b[1..][k - 1];
      }
    } else if a != [] && b != [] && a[0] < b[0] {
      assert a[..0] == b[..0] && a[0] < b[0];
    }
  }

  lemma EntryLeqTransitive(a: Entry, b: Entry, c: Entry)
    requires EntryLeq(a, b) && EntryLeq(b, c)
    ensures EntryLeq(a, c)
  {
    if a.sendAt == b.sendAt == c.sendAt {
      LexLeqTransitive(a.payload, b.payload, c.payload);
    }
  }

  // What is sent is in order, and nothing that waits or is held belongs before it.
  ghost predicate InOrder(b: Box) {
    && (forall i, j :: 0 <= i < j < |b.sent| ==> EntryLeq(b.sent[i].entry, b.sent[j].entry))
    && (forall i, e :: 0 <= i < |b.sent| && e in b.queue ==> EntryLeq(b.sent[i].entry, e))
    && (forall i, h :: 0 <= i < |b.sent| && h in Held(b.runner) ==> EntryLeq(b.sent[i].entry, h))
    && (forall h, e :: h in Held(b.runner) && e in b.queue ==> EntryLeq(h, e))
  }

  lemma PopKeepsOrder(b: Box, e: Entry)
    requires CanTake(b, Pop(e)) && InOrder(b)
    ensures InOrder(Take(b, Pop(e)))
  {
    hide EntryLeq;
    var b' := Take(b, Pop(e));
    assert forall o :: o in b'.queue ==> o in b.queue;
    assert forall h :: h in Held(b'.runner) ==> h == e;
  }

  lemma SendKeepsOrder(b: Box, now: real)
    requires CanTake(b, Send(now)) && InOrder(b)
    ensures InOrder(Take(b, Send(now)))
  {
    hide EntryLeq;
    var b', e := Take(b, Send(now)), b.runner.entry;
    assert e in Held(b.runner);
    forall i, j | 0 <= i < j < |b'.sent|
      ensures EntryLeq(b'.sent[i].entry, b'.sent[j].entry)
    {
      if j == |b.sent| {
        assert b'.sent[i] == b.sent[i];
      }
    }
  }

  lemma TakeKeepsOrder(b: Box, t: Turn)
    requires CanTake(b, t) && InOrder(b) && (t.Enqueue? ==> t.drop)
    ensures InOrder(Take(b, t))
  {
    hide InOrder, EntryLeq;
    match t
    case Pop(e) => PopKeepsOrder(b, e);
    case Send(now) => SendKeepsOrder(b, now);
    case Enqueue(_, _, _, _) =>
    case _ =>
      BooksUntouched(b, t);
      SameBooksSameOrder(b, Take(b, t));
  }

  lemma SameBooksSameOrder(b: Box, b': Box)
    requires InOrder(b) && Held(b'.runner) == Held(b.runner) && b'.queue == b.queue && b'.sent == b.sent
    ensures InOrder(b')
  {
    hide EntryLeq, Held;
  }

  lemma {:induction false} StaysInOrder(turns: seq<Turn>, m: nat, n: nat)
    requires m <= n <= |turns| && IsOutboxRun(turns, n)
    requires BoxAfter(turns, m).sent == [] && BoxAfter(turns, m).runner == Waiting
    requires forall i :: m <= i < n && turns[i].Enqueue? ==> turns[i].drop
    ensures InOrder(BoxAfter(turns, n))
  {
    hide Take, InOrder, CanTake;
    if n == m {
      NothingSentYet(BoxAfter(turns, m));
    } else {
      StaysInOrder(turns, m, n - 1);
      TakeKeepsOrder(BoxAfter(turns, n - 1), turns[n - 1]);
    }
  }

  lemma NothingSentYet(b: Box)
    requires b.sent == [] && b.runner == Waiting
    ensures InOrder(b)
  {
  }

  /** What waits together is sent by its time, and by its bytes where the times are equal. */
  lemma SentInOrder(turns: seq<Turn>, m: nat, n: nat, i: nat, j: nat)
    requires m <= n <= |turns| && IsOutboxRun(turns, n)
    requires BoxAfter(turns, m).sent == [] && BoxAfter(turns, m).runner == Waiting
    requires forall k :: m <= k < n && turns[k].Enqueue? ==> turns[k].drop
    requires i < j < |BoxAfter(turns, n).sent|
    ensures
      var a, b := BoxAfter(turns, n).sent[i].entry, BoxAfter(turns, n).sent[j].entry;
      a.sendAt < b.sendAt || (a.sendAt == b.sendAt && LexLeq(a.payload, b.payload))
  {
    hide Take, CanTake, LexLeq;
    StaysInOrder(turns, m, n);
  }
}

/**
 Cutting a byte stream into records of one size.  Both the daemon's QUIC listener and
 QEMU's keyboard do it, on streams that arrive in arbitrary pieces.
 */
module Framing {
  import opened Words

  /** The whole records at the front of `b`. */
  function Blocks(n: nat, b: seq<Byte>): (r: seq<seq<Byte>>)
    requires n > 0
    ensures forall i :: 0 <= i < |r| ==> |r[i]| == n
  {
    if |b| < n then [] else [b[..n]] + Blocks(n, b[n..])
  }

  /** What is left after them. */
  function Rest(n: nat, b: seq<Byte>): (r: seq<Byte>)
    requires n > 0
    ensures |r| < n
  {
    if |b| < n then b else Rest(n, b[n..])
  }

  /** The records are exactly the consecutive blocks, and nothing is lost. */
  lemma {:induction false} BlocksAreConsecutive(n: nat, b: seq<Byte>)
    requires n > 0
    ensures Flatten(Blocks(n, b)) + Rest(n, b) == b
  {
    if |b| >= n {
      BlocksAreConsecutive(n, b[n..]);
      var head, tail := b[..n], Blocks(n, b[n..]);
      FlattenAppend([head], tail);
      FlattenOne(head);
      assert b == head + (Flatten(tail) + Rest(n, b));
    }
  }

  /** As many bytes stay behind as the length leaves over. */
  lemma {:induction false} RestLength(n: nat, b: seq<Byte>)
    requires n > 0
    ensures |Rest(n, b)| == |b| % n && |Blocks(n, b)| == |b| / n
  {
    if |b| >= n {
      RestLength(n, b[n..]);
      OneTurnLess(n, |b|);
    } else {
      DivisionIsUnique(n, |b|, 0, |b|);
    }
  }

  lemma OneTurnLess(n: nat, k: nat)
    requires n > 0 && k >= n
    ensures k % n == (k - n) % n && k / n == (k - n) / n + 1
  {
    var q, r := (k - n) / n, (k - n) % n;
    assert n * (q + 1) == n * q + n;
    DivisionIsUnique(n, k, q + 1, r);
  }

  lemma DivisionIsUnique(n: nat, k: int, q: int, r: nat)
    requires r < n && k == n * q + r
    ensures k / n == q && k % n == r
  {
    var q' := k / n;
    if q' > q {
      Scaled(n, q + 1, q');
    } else if q' < q {
      Scaled(n, q' + 1, q);
    }
  }

  lemma Scaled(n: nat, a: int, b: int)
    requires a <= b
    ensures n * a <= n * b
    ensures n * (a - 1) == n * a - n
  {
    assert n * (b - a) >= 0;
  }

  /** Cutting a piece at a time gives the records of the whole. */
  lemma {:induction false} CutPieceByPiece(n: nat, a: seq<Byte>, b: seq<Byte>)
    requires n > 0
    ensures Blocks(n, a + b) == Blocks(n, a) + Blocks(n, Rest(n, a) + b)
    ensures Rest(n, a + b) == Rest(n, Rest(n, a) + b)
  {
    if |a| >= n {
      CutPieceByPiece(n, a[n..], b);
      assert (a + b)[..n] == a[..n] && (a + b)[n..] == a[n..] + b;
    }
  }

  /** Records written one after the other come back as they were. */
  lemma {:induction false} BlocksOfRecords(n: nat, records: seq<seq<Byte>>)
    requires n > 0 && forall i :: 0 <= i < |records| ==> |records[i]| == n
    ensures Blocks(n, Flatten(records)) == records && Rest(n, Flatten(records)) == []
  {
    if records != [] {
      BlocksOfRecords(n, records[1..]);
      var b := Flatten(records);
      assert b[..n] == records[0] && b[n..] == Flatten(records[1..]);
    }
  }
}

/**
 The USB keyboard's socket backend in QEMU: bytes are collected one at a time into a
 16-byte buffer, and every eighth one completes a report that replaces the key array.
 */
module QemuKeyboard {
  import opened Words
  import opened Framing

  /** The part of the keyboard state that a report replaces. */
  datatype Kbd = Kbd(modifiers: Byte, key: seq<Byte>, keys: nat)

  function NonZero(b: seq<Byte>): seq<Byte> {
    if b == [] then []
    else NonZero(b[..|b| - 1]) + if b[|b| - 1] != 0 then [b[|b| - 1]] else []
  }

  function Zeros(n: nat): (z: seq<Byte>)
    ensures |z| == n && forall i :: 0 <= i < n ==> z[i] == 0
  {
    seq(n, i => 0)
  }

  // The first entries of `v` in an array of `size`, zeros after them.
  function Padded(v: seq<Byte>, size: nat): (p: seq<Byte>)
    ensures |p| == size
  {
    if |v| < size then v + Zeros(size - |v|) else v[..size]
  }

  lemma PadOneMore(v: seq<Byte>, c: Byte, size: nat)
    ensures Padded(v + [c], size) == if |v| < size then Padded(v, size)[|v| := c] else Padded(v, size)
  {
  }

  /** What a report makes of the keyboard: its non-zero keys in order, as many as fit. */
  function KbdOf(size: nat, rep: seq<Byte>): Kbd
    requires |rep| >= 8
  {
    var codes := NonZero(rep[2..8]);
    Kbd(rep[0], Padded(codes, size), Min(|codes|, size))
  }

  // The keyboard after a list of reports.
  function KbdAfter(size: nat, k: Kbd, reports: seq<seq<Byte>>): Kbd
    requires forall i :: 0 <= i < |reports| ==> |reports[i]| == 8
  {
    if reports == [] then k else KbdOf(size, reports[|reports| - 1])
  }

  class UsbKeyboard {
    const sockBuf: array<Byte>
    var sockLen: nat
    var modifiers: Byte
    const key: array<Byte>
    var keys: nat
    var queued: nat
    var idlePending: bool
    ghost var applied: seq<seq<Byte>>

    ghost predicate Valid()
      reads this
    {
      sockBuf.Length == 16 && sockBuf != key && sockLen < 8
    }

    ghost function State(): Kbd
      reads this, key
    {
      Kbd(modifiers, key[..], keys)
    }

    constructor (size: nat)
      ensures Valid() && fresh(sockBuf) && fresh(key)
      ensures key.Length == size && sockLen == 0 && applied == []
      ensures State() == Kbd(0, Zeros(size), 0)
    {
      sockBuf := new Byte[16](_ => 0);
      key := new Byte[size](_ => 0);
      sockLen, modifiers, keys, queued, idlePending, applied := 0, 0, 0, 0, false, [];
    }

    /** usb_hid_kbd_apply_report, for a key array of any size. */
    method ApplyReport(rep: seq<Byte>)
      requires |rep| == 8
      modifies this`modifiers, this`keys, this`queued, this`idlePending, this`applied, key
      ensures State() == KbdOf(key.Length, rep)
      ensures applied == old(applied) + [rep] && queued == 0 && !idlePending
    {
      modifiers := rep[0];
      forall i | 0 <= i < key.Length {
        key[i] := 0;
      }
      var cnt, i := 0, 2;
      while i < 8
        invariant modifiers == rep[0] && applied == old(applied)
        invariant 2 <= i <= 8 && cnt == |NonZero(rep[2..i])|
        invariant key[..] == Padded(NonZero(rep[2..i]), key.Length)
      {
        ghost var codes := NonZero(rep[2..i]);
        assert rep[2..i + 1][..i - 2] == rep[2..i];
        assert NonZero(rep[2..i + 1]) == codes + if rep[i] != 0 then [rep[i]] else [];
        PadOneMore(codes, rep[i], key.Length);
        if rep[i] != 0 {
          if cnt < key.Length {
            key[cnt] := rep[i];
          }
          cnt := cnt + 1;
        }
        i := i + 1;
      }
      keys := Min(cnt, key.Length);
      queued := 0;
      idlePending := false;
      applied := applied + [rep];
    }

    /** How much room the buffer has, which is what QEMU asks before it reads. */
    method CanRead() returns (room: nat)
      requires Valid()
      ensures room == 16 - sockLen && room > 8
    {
      room := 16 - sockLen;
    }

    /** The memmove that keeps what lies behind the first report. */
    method ShiftDown()
      requires sockBuf.Length == 16 && 8 <= sockLen <= 16
      modifies sockBuf
      ensures sockBuf[..sockLen - 8] == old(sockBuf[8..sockLen])
    {
      forall i | 0 <= i < sockLen - 8 {
        sockBuf[i] := sockBuf[i + 8];
      }
    }

    /** The body of the read loop: one byte, and the report it may complete. */
    method TakeByte(c: Byte)
      requires Valid()
      modifies this, sockBuf, key
      ensures Valid()
      ensures
        var buffered := old(sockBuf[..sockLen]) + [c];
        if |buffered| == 8 then
          && sockLen == 0 && applied == old(applied) + [buffered] && State() == KbdOf(key.Length, buffered)
        else
          && sockBuf[..sockLen] == buffered && applied == old(applied) && State() == old(State())
    {
      ghost var buffered := sockBuf[..sockLen] + [c];
      sockBuf[sockLen] := c;
      sockLen := sockLen + 1;
      assert sockBuf[..sockLen] == buffered;
      if sockLen >= 8 {
        ApplyReport(sockBuf[..8]);
        ShiftDown();
        sockLen := sockLen - 8;
      }
    }

    /** kbd_chr_read: takes every byte, and applies the reports that they complete. */
    method ChrRead(bytes: seq<Byte>) returns (left: nat)
      requires Valid()
      modifies this, sockBuf, key
      ensures Valid() && left == 0
      ensures
        var all := old(sockBuf[..sockLen]) + bytes;
        && sockBuf[..sockLen] == Rest(8, all)
        && applied == old(applied) + Blocks(8, all)
        && State() == KbdAfter(key.Length, old(State()), Blocks(8, all))
    {
      ghost var before, start := sockBuf[..sockLen], State();
      var pos := 0;
      left := |bytes|;
      assert before + bytes[..0] == before;
      while left > 0 && sockLen < 16
        invariant Valid() && 0 <= pos <= |bytes| && left == |bytes| - pos
        invariant sockBuf[..sockLen] == Rest(8, before + bytes[..pos])
        invariant applied == old(applied) + Blocks(8, before + bytes[..pos])
        invariant State() == KbdAfter(key.Length, start, Blocks(8, before + bytes[..pos]))
        decreases left
      {
        hide KbdOf;
        assert before + bytes[..pos + 1] == before + bytes[..pos] + [bytes[pos]];
        OneMoreByte(before + bytes[..pos], bytes[pos]);
        TakeByte(bytes[pos]);
        pos := pos + 1;
        left := left - 1;
      }
      assert bytes[..|bytes|] == bytes;
    }
  }

  // One more byte either completes a report or waits.
  lemma OneMoreByte(b: seq<Byte>, c: Byte)
    ensures
      var buffered := Rest(8, b) + [c];
      && Blocks(8, b + [c]) == Blocks(8, b) + (if |buffered| == 8 then [buffered] else [])
      && Rest(8, b + [c]) == if |buffered| == 8 then [] else buffered
  {
    CutPieceByPiece(8, b, [c]);
    var buffered := Rest(8, b) + [c];
    if |buffered| == 8 {
      assert buffered[..8] == buffered && buffered[8..] == [];
    }
  }

  // Runs over any pieces

  datatype Backend = Backend(buffered: seq<Byte>, kbd: Kbd)

  /** One read, as the contract of `ChrRead` has it. */
  function ReadStep(size: nat, b: Backend, bytes: seq<Byte>): Backend {
    var all := b.buffered + bytes;
    Backend(Rest(8, all), KbdAfter(size, b.kbd, Blocks(8, all)))
  }

  function AfterReads(size: nat, b: Backend, pieces: seq<seq<Byte>>): Backend {
    if pieces == [] then b
    else ReadStep(size, AfterReads(size, b, pieces[..|pieces| - 1]), pieces[|pieces| - 1])
  }

  /** However the socket cuts its bytes, the keyboard shows the last whole report. */
  lemma {:induction false} PiecesDoNotMatter(size: nat, b: Backend, pieces: seq<seq<Byte>>)
    requires |b.buffered| < 8
    ensures AfterReads(size, b, pieces) == ReadStep(size, b, Flatten(pieces))
  {
    if pieces == [] {
      assert b.buffered + [] == b.buffered;
    } else {
      var front, last := pieces[..|pieces| - 1], pieces[|pieces| - 1];
      PiecesDoNotMatter(size, b, front);
      assert front + [last] == pieces;
      FlattenAppend(front, [last]);
      FlattenOne(last);
      var all := b.buffered + Flatten(front);
      assert b.buffered + Flatten(pieces) == all + last;
      CutPieceByPiece(8, all, last);
    }
  }
}

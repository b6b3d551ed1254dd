/** The daemon's QUIC listener: one buffer per stream, records handed to a callback. */
module QuicStreams {
  import opened Words
  import opened Framing

  type StreamId = nat

  /** A call of the message callback, with the stream whose bytes it carries. */
  datatype Message = Message(stream: StreamId, data: seq<Byte>)

  /** The context that a new stream gets. */
  class StreamCtx {
    const stream: StreamId
    var pending: seq<Byte>

    constructor (stream: StreamId)
      ensures this.stream == stream && pending == []
    {
      this.stream := stream;
      pending := [];
    }
  }

  // What one RECEIVE event hands on, and what it keeps.

  function HandedOn(recordSize: nat, buffered: seq<Byte>): seq<seq<Byte>> {
    if recordSize > 0 then Blocks(recordSize, buffered)
    else if buffered == [] then []
    else [buffered]
  }

  function Kept(recordSize: nat, buffered: seq<Byte>): seq<Byte> {
    if recordSize > 0 then Rest(recordSize, buffered) else []
  }

  function Tagged(stream: StreamId, data: seq<seq<Byte>>): seq<Message> {
    seq(|data|, i requires 0 <= i < |data| => Message(stream, data[i]))
  }

  class MsQuicServer {
    const recordSize: nat
    /** The calls of the message callback, in order. */
    var messages: seq<Message>

    constructor (recordSize: nat)
      ensures this.recordSize == recordSize && messages == []
    {
      this.recordSize := recordSize;
      messages := [];
    }

    /** The RECEIVE branch of the stream callback, for any list of buffers. */
    method Receive(sctx: StreamCtx, buffers: seq<seq<Byte>>) returns (total: nat)
      modifies sctx, this
      ensures total == |Flatten(buffers)|
      ensures
        var buffered := old(sctx.pending) + Flatten(buffers);
        && sctx.pending == Kept(recordSize, buffered)
        && messages == old(messages) + Tagged(sctx.stream, HandedOn(recordSize, buffered))
    {
      total := 0;
      var i := 0;
      while i < |buffers|
        invariant 0 <= i <= |buffers| && total == |Flatten(buffers[..i])|
        invariant sctx.pending == old(sctx.pending) + Flatten(buffers[..i]) && messages == old(messages)
      {
        assert buffers[..i + 1] == buffers[..i] + [buffers[i]];
        FlattenAppend(buffers[..i], [buffers[i]]);
        FlattenOne(buffers[i]);
        total := total + |buffers[i]|;
        if |buffers[i]| != 0 {
          sctx.pending := sctx.pending + buffers[i];
        }
        i := i + 1;
      }
      assert buffers[..|buffers|] == buffers;
      ghost var buffered := sctx.pending;
      ghost var handed: seq<seq<Byte>> := [];
      if recordSize > 0 {
        while |sctx.pending| >= recordSize
          invariant messages == old(messages) + Tagged(sctx.stream, handed)
          invariant Blocks(recordSize, buffered) == handed + Blocks(recordSize, sctx.pending)
          invariant Rest(recordSize, buffered) == Rest(recordSize, sctx.pending)
          decreases |sctx.pending|
        {
          messages := messages + [Message(sctx.stream, sctx.pending[..recordSize])];
          handed := handed + [sctx.pending[..recordSize]];
          sctx.pending := sctx.pending[recordSize..];
        }
        assert handed == Blocks(recordSize, buffered);
      } else if sctx.pending != [] {
        messages := messages + [Message(sctx.stream, sctx.pending)];
        sctx.pending := [];
      }
    }
  }

  // Runs over any number of streams

  datatype Receipt = Receipt(stream: StreamId, buffers: seq<seq<Byte>>)

  datatype Listener = Listener(pending: map<StreamId, seq<Byte>>, messages: seq<Message>)

  function PendingOf(l: Listener, stream: StreamId): seq<Byte> {
    if stream in l.pending then l.pending[stream] else []
  }

  /** One event, as the contract of `Receive` has it. */
  function ReceiveStep(recordSize: nat, l: Listener, r: Receipt): Listener {
    var buffered := PendingOf(l, r.stream) + Flatten(r.buffers);
    Listener(l.pending[r.stream := Kept(recordSize, buffered)],
             l.messages + Tagged(r.stream, HandedOn(recordSize, buffered)))
  }

  function AfterReceipts(recordSize: nat, rs: seq<Receipt>): Listener {
    if rs == [] then Listener(map[], [])
    else ReceiveStep(recordSize, AfterReceipts(recordSize, rs[..|rs| - 1]), rs[|rs| - 1])
  }

  /** The bytes that a stream received. */
  function BytesOn(rs: seq<Receipt>, stream: StreamId): seq<Byte> {
    if rs == [] then []
    else
      var last := rs[|rs| - 1];
      BytesOn(rs[..|rs| - 1], stream) + if last.stream == stream then Flatten(last.buffers) else []
  }

  /** The data that the callback was given for a stream. */
  function MessagesOn(messages: seq<Message>, stream: StreamId): seq<seq<Byte>> {
    if messages == [] then []
    else
      var last := messages[|messages| - 1];
      MessagesOn(messages[..|messages| - 1], stream) + if last.stream == stream then [last.data] else []
  }

  lemma MessagesOnPush(messages: seq<Message>, m: Message, stream: StreamId)
    ensures MessagesOn(messages + [m], stream) ==
      MessagesOn(messages, stream) + if m.stream == stream then [m.data] else []
  {
    assert (messages + [m])[..|messages|] == messages;
  }

  lemma {:induction false} MessagesOnTagged(
    messages: seq<Message>, from: StreamId, data: seq<seq<Byte>>, stream: StreamId)
    ensures MessagesOn(messages + Tagged(from, data), stream) ==
      MessagesOn(messages, stream) + if from == stream then data else []
  {
    hide MessagesOn;
    if data == [] {
      assert messages + Tagged(from, data) == messages;
    } else {
      var front, last := data[..|data| - 1], data[|data| - 1];
      MessagesOnTagged(messages, from, front, stream);
      assert messages + Tagged(from, data) == messages + Tagged(from, front) + [Message(from, last)];
      MessagesOnPush(messages + Tagged(from, front), Message(from, last), stream);
      assert front + [last] == data;
    }
  }

  /**
   Whatever the streams, the order of the events and the cuts between buffers: each stream's
   messages are the consecutive records of that stream's own bytes, and what is kept for it is
   shorter than one record.
   */
  lemma {:induction false} EachStreamIsFramed(recordSize: nat, rs: seq<Receipt>, stream: StreamId)
    requires recordSize > 0
    ensures
      var l, bytes := AfterReceipts(recordSize, rs), BytesOn(rs, stream);
      && MessagesOn(l.messages, stream) == Blocks(recordSize, bytes)
      && PendingOf(l, stream) == Rest(recordSize, bytes)
      && |PendingOf(l, stream)| == |bytes| % recordSize
  {
    RestLength(recordSize, BytesOn(rs, stream));
    if rs != [] {
      var before, r := rs[..|rs| - 1], rs[|rs| - 1];
      EachStreamIsFramed(recordSize, before, stream);
      var l := AfterReceipts(recordSize, before);
      var buffered := PendingOf(l, r.stream) + Flatten(r.buffers);
      MessagesOnTagged(l.messages, r.stream, HandedOn(recordSize, buffered), stream);
      if r.stream == stream {
        CutPieceByPiece(recordSize, BytesOn(before, stream), Flatten(r.buffers));
      } else {
        assert BytesOn(rs, stream) == BytesOn(before, stream);
      }
    }
  }

  /** Without a record size every byte is handed on at once, in order, and nothing is kept. */
  lemma {:induction false} RawStreamsPassThrough(rs: seq<Receipt>, stream: StreamId)
    ensures
      var l := AfterReceipts(0, rs);
      Flatten(MessagesOn(l.messages, stream)) == BytesOn(rs, stream) && PendingOf(l, stream) == []
  {
    if rs != [] {
      var before, r := rs[..|rs| - 1], rs[|rs| - 1];
      RawStreamsPassThrough(before, stream);
      RawStreamsPassThrough(before, r.stream);
      var l := AfterReceipts(0, before);
      var handed := HandedOn(0, Flatten(r.buffers));
      assert PendingOf(l, r.stream) + Flatten(r.buffers) == Flatten(r.buffers);
      MessagesOnTagged(l.messages, r.stream, handed, stream);
      FlattenAppend(MessagesOn(l.messages, stream), handed);
      FlattenOne(Flatten(r.buffers));
      if r.stream != stream {
        assert MessagesOn(l.messages, stream) + [] == MessagesOn(l.messages, stream);
      }
    }
  }
}

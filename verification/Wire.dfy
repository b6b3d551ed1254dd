/**
 The wire format that the generated message code relies on.  The runtime that reads and
 writes it is not part of this repository; this follows the Protocol Buffers Encoding guide,
 "Base 128 Varints" and "Length-Delimited Records".
 */
module Wire {
  import opened Words

  /** Seven bits to a byte, the lowest first, the top bit set on all but the last. */
  function Varint(n: nat): (b: seq<Byte>)
    ensures b != []
  {
    if n < 128 then [n] else [n % 128 + 128] + Varint(n / 128)
  }

  function VarintSize(n: nat): nat {
    if n < 128 then 1 else 1 + VarintSize(n / 128)
  }

  lemma {:induction false} VarintLength(n: nat)
    ensures |Varint(n)| == VarintSize(n)
  {
    if n >= 128 {
      VarintLength(n / 128);
    }
  }

  /** A number and what follows it. */
  datatype Read = Read(value: nat, rest: seq<Byte>)

  /** Reads a varint of at most `limit` bytes; nothing if it is longer or breaks off. */
  function ReadVarint(b: seq<Byte>, limit: nat): (r: Option<Read>)
    ensures r.Some? ==> |r.value.rest| < |b|
  {
    if limit == 0 || b == [] then None
    else if b[0] < 128 then Some(Read(b[0], b[1..]))
    else match ReadVarint(b[1..], limit - 1)
      case Some(r) => Some(Read(b[0] - 128 + 128 * r.value, r.rest))
      case None => None
  }

  function Pow128(k: nat): nat {
    if k == 0 then 1 else 128 * Pow128(k - 1)
  }

  /** A varint reads back exactly when it fits in the limit, whatever follows it. */
  lemma {:induction false} VarintReadsBack(n: nat, limit: nat, rest: seq<Byte>)
    requires limit > 0
    ensures ReadVarint(Varint(n) + rest, limit) == if n < Pow128(limit) then Some(Read(n, rest)) else None
  {
    var b := Varint(n) + rest;
    Pow128Positive(limit - 1);
    assert Pow128(limit) == 128 * Pow128(limit - 1);
    if n < 128 {
      assert b[1..] == rest;
    } else {
      assert b[1..] == Varint(n / 128) + rest;
      assert n / 128 < Pow128(limit - 1) <==> n < 128 * Pow128(limit - 1);
      if limit > 1 {
        VarintReadsBack(n / 128, limit - 1, rest);
      }
    }
  }

  lemma {:induction false} Pow128Positive(k: nat)
    ensures Pow128(k) >= 1
  {
    if k > 0 {
      Pow128Positive(k - 1);
    }
  }

  lemma Limits()
    ensures Pow128(5) == 0x8_0000_0000 && Pow128(10) > TWO_TO_64
  {
    assert Pow128(3) == 0x20_0000;
    assert Pow128(5) == 0x8_0000_0000;
    assert Pow128(7) == 128 * 128 * Pow128(5);
    assert Pow128(10) == 128 * 128 * 128 * Pow128(7);
  }

  // The readers that the generated code calls.

  function Low32(r: Read): Read {
    Read(r.value % 0x1_0000_0000, r.rest)
  }

  function ReadTag(b: seq<Byte>): Option<Read> {
    match ReadVarint(b, 5)
    case Some(r) => Some(Low32(r))
    case None => None
  }

  function ReadVarint32(b: seq<Byte>): Option<Read> {
    match ReadVarint(b, 10)
    case Some(r) => Some(Low32(r))
    case None => None
  }

  function ReadVarint64(b: seq<Byte>): Option<Read> {
    match ReadVarint(b, 10)
    case Some(r) => Some(Read(Wrap64(r.value), r.rest))
    case None => None
  }

  // The longest length that is accepted: INT_MAX less the 16 bytes of slop.
  const MAX_LENGTH := 0x7FFF_FFEF

  /** A length and that many bytes. */
  datatype Delimited = Delimited(data: seq<Byte>, rest: seq<Byte>)

  function ReadDelimited(b: seq<Byte>): (r: Option<Delimited>)
    ensures r.Some? ==> |r.value.rest| < |b| && |r.value.data| < |b|
  {
    match ReadVarint(b, 5)
    case Some(r) =>
      if r.value > MAX_LENGTH || r.value > |r.rest| then None
      else Some(Delimited(r.rest[..r.value], r.rest[r.value..]))
    case None => None
  }

  function WithLength(data: seq<Byte>): seq<Byte> {
    Varint(|data|) + data
  }

  // What the readers make of what the writers wrote.

  lemma TagReadsBack(tag: Byte, rest: seq<Byte>)
    requires tag < 128
    ensures ReadTag([tag] + rest) == Some(Read(tag, rest))
  {
    assert ([tag] + rest)[1..] == rest;
  }

  lemma Varint32ReadsBack(n: U32, rest: seq<Byte>)
    ensures ReadVarint32(Varint(n) + rest) == Some(Read(n, rest))
  {
    hide Varint, ReadVarint;
    Limits();
    VarintReadsBack(n, 10, rest);
  }

  lemma Varint64ReadsBack(n: U64, rest: seq<Byte>)
    ensures ReadVarint64(Varint(n) + rest) == Some(Read(n, rest))
  {
    hide Varint, ReadVarint;
    Limits();
    VarintReadsBack(n, 10, rest);
  }

  lemma DelimitedReadsBack(data: seq<Byte>, rest: seq<Byte>)
    ensures ReadDelimited(WithLength(data) + rest) ==
      if |data| <= MAX_LENGTH then Some(Delimited(data, rest)) else None
  {
    Limits();
    assert WithLength(data) + rest == Varint(|data|) + (data + rest);
    VarintReadsBack(|data|, 5, data + rest);
    assert (data + rest)[..|data|] == data && (data + rest)[|data|..] == rest;
  }

  /** A 32-bit field that carries a longer number keeps its low 32 bits. */
  lemma Varint32Truncates(n: U64, rest: seq<Byte>)
    ensures ReadVarint32(Varint(n) + rest) == Some(Read(n % 0x1_0000_0000, rest))
  {
    hide Varint, ReadVarint;
    Limits();
    VarintReadsBack(n, 10, rest);
  }

  /** A tag may take five bytes, and keeps the low 32 bits of what they carry. */
  lemma TagTakesFiveBytes(n: nat, rest: seq<Byte>)
    ensures ReadTag(Varint(n) + rest) ==
      if n < 0x8_0000_0000 then Some(Read(n % 0x1_0000_0000, rest)) else None
  {
    hide Varint, ReadVarint;
    Limits();
    VarintReadsBack(n, 5, rest);
  }
}

/** The values of the three messages, and what their generated codec makes of them. */
module Messages {
  import opened Words
  import opened Wire

  datatype Header = Header(version: U32, seqNo: U32, tMs: U64)

  datatype Edge = Edge(hdr: Option<Header>, hidUsage: U32, isDown: bool, modifiers: U32)

  datatype Snapshot = Snapshot(hdr: Option<Header>, modifiers: U32, pressedBitmap: seq<Byte>)

  const NO_HEADER := Header(0, 0, 0)
  const NO_EDGE := Edge(None, 0, false, 0)
  const NO_SNAPSHOT := Snapshot(None, 0, [])

  /** A parse ends with a value, with a refusal, or at a field that these messages do not know. */
  datatype Outcome<+T> = Parsed(value: T) | Malformed | UnknownField

  // The cases of the generated switch: the field number and the whole low byte must fit.
  predicate IsTag(tag: nat, field: nat, low: Byte) {
    tag / 8 == field && tag % 256 == low
  }

  // A zero tag or an end-group tag ends a message, and its enclosing parse then refuses it.
  function Unusual<T>(tag: nat): Outcome<T> {
    if tag == 0 || tag % 8 == 4 then Malformed else UnknownField
  }

  // Header

  function ParseHeader(b: seq<Byte>, h: Header): Outcome<Header>
    decreases |b|
  {
    if b == [] then Parsed(h)
    else match ReadTag(b)
      case None => Malformed
      case Some(Read(tag, rest)) =>
        if IsTag(tag, 1, 8) then
          match ReadVarint32(rest)
          case Some(r) => ParseHeader(r.rest, h.(version := r.value))
          case None => Malformed
        else if IsTag(tag, 2, 16) then
          match ReadVarint32(rest)
          case Some(r) => ParseHeader(r.rest, h.(seqNo := r.value))
          case None => Malformed
        else if IsTag(tag, 3, 24) then
          match ReadVarint64(rest)
          case Some(r) => ParseHeader(r.rest, h.(tMs := r.value))
          case None => Malformed
        else Unusual(tag)
  }

  /** A number field, left out when zero. */
  function NumberField(tag: Byte, n: nat): seq<Byte> {
    if n != 0 then [tag] + Varint(n) else []
  }

  function HeaderBytes(h: Header): seq<Byte> {
    NumberField(8, h.version) + NumberField(16, h.seqNo) + NumberField(24, h.tMs)
  }

  // Zero counts as absent, so it overrides nothing.
  function Override(present: nat, arriving: nat): nat {
    if arriving != 0 then arriving else present
  }

  function MergeHeader(to: Header, from: Header): Header {
    Header(Override(to.version, from.version), Override(to.seqNo, from.seqNo), Override(to.tMs, from.tMs))
  }

  lemma HeaderNumber(tag: Byte, n: nat, rest: seq<Byte>, h: Header)
    requires tag == 8 || tag == 16 || tag == 24
    requires n < (if tag == 24 then TWO_TO_64 else 0x1_0000_0000)
    ensures ParseHeader(NumberField(tag, n) + rest, h) == ParseHeader(rest,
      if n == 0 then h else if tag == 8 then h.(version := n) else if tag == 16 then h.(seqNo := n) else h.(tMs := n))
  {
    if n == 0 {
      assert [] + rest == rest;
    } else {
      var b := NumberField(tag, n) + rest;
      assert b == [tag] + (Varint(n) + rest);
      TagReadsBack(tag, Varint(n) + rest);
      if tag == 24 {
        Varint64ReadsBack(n, rest);
      } else {
        Varint32ReadsBack(n, rest);
      }
    }
  }

  /** Parsing a printed header merges it into what was there, and goes on behind it. */
  lemma HeaderParsesAsMerge(x: Header, rest: seq<Byte>, h: Header)
    ensures ParseHeader(HeaderBytes(x) + rest, h) == ParseHeader(rest, MergeHeader(h, x))
  {
    hide ParseHeader, NumberField;
    var v, s, t := NumberField(8, x.version), NumberField(16, x.seqNo), NumberField(24, x.tMs);
    assert HeaderBytes(x) + rest == v + (s + (t + rest));
    HeaderNumber(8, x.version, s + (t + rest), h);
    var h1 := if x.version == 0 then h else h.(version := x.version);
    HeaderNumber(16, x.seqNo, t + rest, h1);
    var h2 := if x.seqNo == 0 then h1 else h1.(seqNo := x.seqNo);
    HeaderNumber(24, x.tMs, rest, h2);
  }

  // A header that follows other fields: a tag, its length, its bytes.
  function HeaderField(hdr: Option<Header>): seq<Byte> {
    match hdr
    case Some(h) => [10] + WithLength(HeaderBytes(h))
    case None => []
  }

  function MergeOptionalHeader(to: Option<Header>, from: Option<Header>): Option<Header> {
    match from
    case Some(h) => Some(MergeHeader(Present(to), h))
    case None => to
  }

  // The header that a parse or a merge writes into: an empty one if there was none.
  function Present(hdr: Option<Header>): Header {
    match hdr
    case Some(h) => h
    case None => NO_HEADER
  }

  lemma HeaderIsShort(h: Header)
    ensures |HeaderBytes(h)| <= 33
  {
    Limits();
    VarintIsShort(h.version, 10);
    VarintIsShort(h.seqNo, 10);
    VarintIsShort(h.tMs, 10);
  }

  lemma {:induction false} VarintIsShort(n: nat, k: nat)
    requires 0 < k && n < Pow128(k)
    ensures |Varint(n)| <= k
  {
    assert Pow128(1) == 128;
    if n >= 128 {
      assert Pow128(k) == 128 * Pow128(k - 1);
      VarintIsShort(n / 128, k - 1);
    }
  }

  lemma HeaderFieldReadsBack(h: Header, rest: seq<Byte>, to: Header)
    ensures ReadTag(HeaderField(Some(h)) + rest) == Some(Read(10, WithLength(HeaderBytes(h)) + rest))
    ensures ReadDelimited(WithLength(HeaderBytes(h)) + rest) == Some(Delimited(HeaderBytes(h), rest))
    ensures ParseHeader(HeaderBytes(h), to) == Parsed(MergeHeader(to, h))
  {
    hide HeaderBytes, ParseHeader;
    var body := WithLength(HeaderBytes(h)) + rest;
    assert HeaderField(Some(h)) + rest == [10] + body;
    TagReadsBack(10, body);
    HeaderIsShort(h);
    DelimitedReadsBack(HeaderBytes(h), rest);
    HeaderParsesAsMerge(h, [], to);
    assert HeaderBytes(h) + [] == HeaderBytes(h);
    HeaderParseEnds(MergeHeader(to, h));
  }

  lemma HeaderParseEnds(h: Header)
    ensures ParseHeader([], h) == Parsed(h)
  {
  }

  // Edge

  function ParseEdge(b: seq<Byte>, e: Edge): Outcome<Edge>
    decreases |b|
  {
    if b == [] then Parsed(e)
    else match ReadTag(b)
      case None => Malformed
      case Some(Read(tag, rest)) =>
        if IsTag(tag, 1, 10) then
          match ReadDelimited(rest)
          case None => Malformed
          case Some(Delimited(data, after)) =>
            (match ParseHeader(data, Present(e.hdr))
             case Parsed(h) => ParseEdge(after, e.(hdr := Some(h)))
             case Malformed => Malformed
             case UnknownField => UnknownField)
        else if IsTag(tag, 2, 16) then
          match ReadVarint32(rest)
          case Some(r) => ParseEdge(r.rest, e.(hidUsage := r.value))
          case None => Malformed
        else if IsTag(tag, 3, 24) then
          match ReadVarint64(rest)
          case Some(r) => ParseEdge(r.rest, e.(isDown := r.value != 0))
          case None => Malformed
        else if IsTag(tag, 4, 32) then
          match ReadVarint32(rest)
          case Some(r) => ParseEdge(r.rest, e.(modifiers := r.value))
          case None => Malformed
        else Unusual(tag)
  }

  function OneIf(b: bool): nat { if b then 1 else 0 }

  function EdgeBytes(e: Edge): seq<Byte> {
    HeaderField(e.hdr) + NumberField(16, e.hidUsage) + NumberField(24, OneIf(e.isDown)) + NumberField(32, e.modifiers)
  }

  function MergeEdge(to: Edge, from: Edge): Edge {
    Edge(MergeOptionalHeader(to.hdr, from.hdr), Override(to.hidUsage, from.hidUsage),
         to.isDown || from.isDown, Override(to.modifiers, from.modifiers))
  }

  lemma EdgeHeader(hdr: Option<Header>, rest: seq<Byte>, e: Edge)
    ensures ParseEdge(HeaderField(hdr) + rest, e) ==
      ParseEdge(rest, e.(hdr := MergeOptionalHeader(e.hdr, hdr)))
  {
    hide ParseHeader, HeaderBytes, ReadTag, ReadDelimited, WithLength, MergeHeader;
    match hdr
    case None =>
      assert [] + rest == rest;
    case Some(h) =>
      HeaderFieldReadsBack(h, rest, Present(e.hdr));
  }

  lemma EdgeNumber(tag: Byte, n: U32, rest: seq<Byte>, e: Edge)
    requires tag == 16 || tag == 24 || tag == 32
    ensures ParseEdge(NumberField(tag, n) + rest, e) == ParseEdge(rest,
      if n == 0 then e
      else if tag == 16 then e.(hidUsage := n)
      else if tag == 24 then e.(isDown := true)
      else e.(modifiers := n))
  {
    hide ParseHeader, ReadDelimited;
    if n == 0 {
      assert [] + rest == rest;
    } else {
      assert NumberField(tag, n) + rest == [tag] + (Varint(n) + rest);
      TagReadsBack(tag, Varint(n) + rest);
      Varint32ReadsBack(n, rest);
      Varint64ReadsBack(n, rest);
    }
  }

  lemma EdgeParsesAsMerge(x: Edge, rest: seq<Byte>, e: Edge)
    ensures ParseEdge(EdgeBytes(x) + rest, e) == ParseEdge(rest, MergeEdge(e, x))
  {
    hide ParseEdge, NumberField, HeaderField, MergeOptionalHeader;
    var u, d, m := NumberField(16, x.hidUsage), NumberField(24, OneIf(x.isDown)), NumberField(32, x.modifiers);
    assert EdgeBytes(x) + rest == HeaderField(x.hdr) + (u + (d + (m + rest)));
    EdgeHeader(x.hdr, u + (d + (m + rest)), e);
    var e1 := e.(hdr := MergeOptionalHeader(e.hdr, x.hdr));
    EdgeNumber(16, x.hidUsage, d + (m + rest), e1);
    var e2 := e1.(hidUsage := Override(e.hidUsage, x.hidUsage));
    EdgeNumber(24, OneIf(x.isDown), m + rest, e2);
    var e3 := e2.(isDown := e.isDown || x.isDown);
    EdgeNumber(32, x.modifiers, rest, e3);
  }

  lemma EdgeParseEnds(e: Edge)
    ensures ParseEdge([], e) == Parsed(e)
  {
  }

  /** Printed and parsed, an edge is itself; two of them in a row are their merge. */
  lemma EdgeCodec(x: Edge, y: Edge)
    ensures ParseEdge(EdgeBytes(x), NO_EDGE) == Parsed(x)
    ensures ParseEdge(EdgeBytes(x) + EdgeBytes(y), NO_EDGE) == Parsed(MergeEdge(x, y))
  {
    hide ParseEdge, EdgeBytes;
    EdgeParsesAsMerge(x, [], NO_EDGE);
    assert EdgeBytes(x) + [] == EdgeBytes(x);
    assert MergeEdge(NO_EDGE, x) == x;
    EdgeParseEnds(x);
    EdgeParsesAsMerge(x, EdgeBytes(y), NO_EDGE);
    EdgeParsesAsMerge(y, [], x);
    assert EdgeBytes(y) + [] == EdgeBytes(y);
    EdgeParseEnds(MergeEdge(x, y));
  }

  lemma HeaderCodec(x: Header, y: Header)
    ensures ParseHeader(HeaderBytes(x), NO_HEADER) == Parsed(x)
    ensures ParseHeader(HeaderBytes(x) + HeaderBytes(y), NO_HEADER) == Parsed(MergeHeader(x, y))
  {
    hide ParseHeader, HeaderBytes;
    HeaderParsesAsMerge(x, [], NO_HEADER);
    assert HeaderBytes(x) + [] == HeaderBytes(x);
    HeaderParseEnds(x);
    HeaderParsesAsMerge(x, HeaderBytes(y), NO_HEADER);
    HeaderParsesAsMerge(y, [], x);
    assert HeaderBytes(y) + [] == HeaderBytes(y);
    HeaderParseEnds(MergeHeader(x, y));
  }

  // Snapshot

  function ParseSnapshot(b: seq<Byte>, s: Snapshot): Outcome<Snapshot>
    decreases |b|
  {
    if b == [] then Parsed(s)
    else match ReadTag(b)
      case None => Malformed
      case Some(Read(tag, rest)) =>
        if IsTag(tag, 1, 10) then
          match ReadDelimited(rest)
          case None => Malformed
          case Some(Delimited(data, after)) =>
            (match ParseHeader(data, Present(s.hdr))
             case Parsed(h) => ParseSnapshot(after, s.(hdr := Some(h)))
             case Malformed => Malformed
             case UnknownField => UnknownField)
        else if IsTag(tag, 2, 16) then
          match ReadVarint32(rest)
          case Some(r) => ParseSnapshot(r.rest, s.(modifiers := r.value))
          case None => Malformed
        else if IsTag(tag, 3, 26) then
          match ReadDelimited(rest)
          case Some(Delimited(data, after)) => ParseSnapshot(after, s.(pressedBitmap := data))
          case None => Malformed
        else Unusual(tag)
  }

  function BytesField(data: seq<Byte>): seq<Byte> {
    if data != [] then [26] + WithLength(data) else []
  }

  function SnapshotBytes(s: Snapshot): seq<Byte> {
    HeaderField(s.hdr) + NumberField(16, s.modifiers) + BytesField(s.pressedBitmap)
  }

  function MergeSnapshot(to: Snapshot, from: Snapshot): Snapshot {
    Snapshot(MergeOptionalHeader(to.hdr, from.hdr), Override(to.modifiers, from.modifiers),
             if from.pressedBitmap != [] then from.pressedBitmap else to.pressedBitmap)
  }

  lemma SnapshotHeader(hdr: Option<Header>, rest: seq<Byte>, s: Snapshot)
    ensures ParseSnapshot(HeaderField(hdr) + rest, s) ==
      ParseSnapshot(rest, s.(hdr := MergeOptionalHeader(s.hdr, hdr)))
  {
    hide ParseHeader, HeaderBytes, ReadTag, ReadDelimited, WithLength, MergeHeader;
    match hdr
    case None =>
      assert [] + rest == rest;
    case Some(h) =>
      HeaderFieldReadsBack(h, rest, Present(s.hdr));
  }

  lemma SnapshotNumber(n: U32, rest: seq<Byte>, s: Snapshot)
    ensures ParseSnapshot(NumberField(16, n) + rest, s) ==
      ParseSnapshot(rest, s.(modifiers := Override(s.modifiers, n)))
  {
    hide ParseHeader, ReadDelimited;
    if n == 0 {
      assert [] + rest == rest;
    } else {
      assert NumberField(16, n) + rest == [16] + (Varint(n) + rest);
      TagReadsBack(16, Varint(n) + rest);
      Varint32ReadsBack(n, rest);
    }
  }

  lemma SnapshotBitmap(data: seq<Byte>, rest: seq<Byte>, s: Snapshot)
    ensures ParseSnapshot(BytesField(data) + rest, s) ==
      if |data| > MAX_LENGTH then Malformed
      else ParseSnapshot(rest, s.(pressedBitmap := if data != [] then data else s.pressedBitmap))
  {
    hide ParseHeader, ReadDelimited, WithLength;
    if data == [] {
      assert [] + rest == rest;
    } else {
      var body := WithLength(data) + rest;
      assert BytesField(data) + rest == [26] + body;
      TagReadsBack(26, body);
      DelimitedReadsBack(data, rest);
    }
  }

  lemma SnapshotParsesAsMerge(x: Snapshot, rest: seq<Byte>, s: Snapshot)
    ensures ParseSnapshot(SnapshotBytes(x) + rest, s) ==
      if |x.pressedBitmap| > MAX_LENGTH then Malformed else ParseSnapshot(rest, MergeSnapshot(s, x))
  {
    hide ParseSnapshot, NumberField, HeaderField, BytesField, MergeOptionalHeader;
    var m, p := NumberField(16, x.modifiers), BytesField(x.pressedBitmap);
    assert SnapshotBytes(x) + rest == HeaderField(x.hdr) + (m + (p + rest));
    SnapshotHeader(x.hdr, m + (p + rest), s);
    var s1 := s.(hdr := MergeOptionalHeader(s.hdr, x.hdr));
    SnapshotNumber(x.modifiers, p + rest, s1);
    var s2 := s1.(modifiers := Override(s.modifiers, x.modifiers));
    SnapshotBitmap(x.pressedBitmap, rest, s2);
  }

  lemma SnapshotParseEnds(s: Snapshot)
    ensures ParseSnapshot([], s) == Parsed(s)
  {
  }

  /** A snapshot survives the trip exactly when its bitmap's length is one that is accepted. */
  lemma SnapshotCodecIff(x: Snapshot)
    ensures ParseSnapshot(SnapshotBytes(x), NO_SNAPSHOT) == Parsed(x) <==> |x.pressedBitmap| <= 0x7FFF_FFEF
  {
    hide ParseSnapshot, SnapshotBytes;
    SnapshotParsesAsMerge(x, [], NO_SNAPSHOT);
    assert SnapshotBytes(x) + [] == SnapshotBytes(x);
    assert MergeSnapshot(NO_SNAPSHOT, x) == x;
    SnapshotParseEnds(x);
  }

  lemma SnapshotsMerge(x: Snapshot, y: Snapshot)
    requires |x.pressedBitmap| <= MAX_LENGTH && |y.pressedBitmap| <= MAX_LENGTH
    ensures ParseSnapshot(SnapshotBytes(x) + SnapshotBytes(y), NO_SNAPSHOT) == Parsed(MergeSnapshot(x, y))
  {
    hide ParseSnapshot, SnapshotBytes;
    assert MergeSnapshot(NO_SNAPSHOT, x) == x;
    SnapshotParsesAsMerge(x, SnapshotBytes(y), NO_SNAPSHOT);
    SnapshotParsesAsMerge(y, [], x);
    assert SnapshotBytes(y) + [] == SnapshotBytes(y);
    SnapshotParseEnds(MergeSnapshot(x, y));
  }
}

/**
 Prints whose nested header length is not the header's size: exactly which of them read back.
 A cut inside a field is refused; a cut between fields takes fields from the header or gives
 the header fields of the message around it.
 */
module StaleCounts {
  import opened Words
  import opened Wire
  import opened Messages
  import opened MessageCodec

  // Cut fields

  lemma {:induction false} CutVarint(n: nat, k: nat, limit: nat)
    requires k < |Varint(n)|
    ensures ReadVarint(Varint(n)[..k], limit) == None
  {
    if k > 0 && limit > 0 {
      assert n >= 128;
      assert Varint(n)[..k][1..] == Varint(n / 128)[..k - 1];
      CutVarint(n / 128, k - 1, limit - 1);
    }
  }

  lemma CutNumber(tag: Byte, n: nat, k: nat, h: Header)
    requires tag == 8 || tag == 16 || tag == 24
    requires 0 < k < |NumberField(tag, n)|
    ensures ParseHeader(NumberField(tag, n)[..k], h) == Malformed
  {
    hide Varint;
    var cut := Varint(n)[..k - 1];
    assert NumberField(tag, n)[..k] == [tag] + cut;
    TagReadsBack(tag, cut);
    CutVarint(n, k - 1, 10);
  }

  // A count that is too small

  /** A header cut short is refused, or has lost a field, and then what is cut off prints a header. */
  lemma CutHeader(h: Header, k: nat) returns (tail: Header)
    requires k < |HeaderBytes(h)|
    ensures
      var p := ParseHeader(HeaderBytes(h)[..k], NO_HEADER);
      p.Parsed? ==> p.value != h && HeaderBytes(h)[k..] == HeaderBytes(tail)
  {
    hide ParseHeader, NumberField;
    var v, s, t := NumberField(8, h.version), NumberField(16, h.seqNo), NumberField(24, h.tMs);
    var b := HeaderBytes(h);
    assert b == v + s + t;
    NoNumber(8);
    NoNumber(16);
    NoNumber(24);
    var h1 := Header(h.version, 0, 0);
    var h2 := Header(h.version, h.seqNo, 0);
    if k < |v| {
      tail := h;
      assert b[..k] == v[..k];
      if k > 0 {
        CutNumber(8, h.version, k, NO_HEADER);
      } else {
        assert b[k..] == b;
        HeaderParseEnds(NO_HEADER);
      }
    } else if k < |v| + |s| {
      tail := Header(0, h.seqNo, h.tMs);
      assert b[..k] == v + s[..k - |v|];
      HeaderNumber(8, h.version, s[..k - |v|], NO_HEADER);
      if k > |v| {
        CutNumber(16, h.seqNo, k - |v|, h1);
      } else {
        assert b[k..] == [] + s + t;
        HeaderParseEnds(h1);
      }
    } else {
      tail := Header(0, 0, h.tMs);
      var cut := t[..k - |v| - |s|];
      assert b[..k] == v + (s + cut);
      HeaderNumber(8, h.version, s + cut, NO_HEADER);
      HeaderNumber(16, h.seqNo, cut, h1);
      if k > |v| + |s| {
        CutNumber(24, h.tMs, k - |v| - |s|, h2);
      } else {
        assert b[k..] == [] + [] + t;
        HeaderParseEnds(h2);
      }
    }
  }

  lemma NoNumber(tag: Byte)
    ensures NumberField(tag, 0) == []
  {
  }

  // Fields of a header outside it set no header.
  lemma EdgeTailKeepsHeader(tail: Header, e: Edge, around: Edge)
    ensures
      var p := ParseEdge(HeaderBytes(tail) + EdgeNumbers(e), around);
      p.Parsed? ==> p.value.hdr == around.hdr
  {
    hide ParseEdge, NumberField;
    var v, s, t := NumberField(8, tail.version), NumberField(16, tail.seqNo), NumberField(24, tail.tMs);
    var b := EdgeNumbers(e);
    assert HeaderBytes(tail) + b == v + (s + (t + b));
    if tail.version != 0 {
      EdgeMeetsVersion(tail.version, s + (t + b), around);
    } else {
      NoNumber(8);
      assert v + (s + (t + b)) == s + (t + b);
      EdgeNumber(16, tail.seqNo, t + b, around);
      var e1 := around.(hidUsage := Override(around.hidUsage, tail.seqNo));
      EdgeTime(tail.tMs, b, e1);
      var e2 := e1.(isDown := e1.isDown || tail.tMs != 0);
      EdgeNumbersSet(e, e2);
    }
  }

  lemma EdgeMeetsVersion(n: nat, rest: seq<Byte>, e: Edge)
    requires n != 0
    ensures ParseEdge(NumberField(8, n) + rest, e) == UnknownField
  {
    hide Varint, ParseHeader;
    assert NumberField(8, n) + rest == [8] + (Varint(n) + rest);
    TagReadsBack(8, Varint(n) + rest);
  }

  // The time of a header, read as the flag of an edge.
  lemma EdgeTime(n: U64, rest: seq<Byte>, e: Edge)
    ensures ParseEdge(NumberField(24, n) + rest, e) == ParseEdge(rest, e.(isDown := e.isDown || n != 0))
  {
    hide Varint, ParseHeader, ReadVarint64;
    if n == 0 {
      assert [] + rest == rest;
    } else {
      assert NumberField(24, n) + rest == [24] + (Varint(n) + rest);
      TagReadsBack(24, Varint(n) + rest);
      Varint64ReadsBack(n, rest);
    }
  }

  /** The fields of an edge behind its header. */
  function EdgeNumbers(e: Edge): seq<Byte> {
    NumberField(16, e.hidUsage) + (NumberField(24, OneIf(e.isDown)) + NumberField(32, e.modifiers))
  }

  lemma EdgeNumbersSet(e: Edge, around: Edge)
    ensures ParseEdge(EdgeNumbers(e), around) == Parsed(MergeEdge(around, e.(hdr := None)))
  {
    hide ParseEdge, NumberField;
    var x := e.(hdr := None);
    assert EdgeBytes(x) + [] == EdgeNumbers(e);
    EdgeParsesAsMerge(x, [], around);
    EdgeParseEnds(MergeEdge(around, x));
  }

  // A count that is too large

  lemma HeaderMeetsTag(tag: Byte, rest: seq<Byte>, h: Header)
    requires tag == 26 || tag == 32
    ensures !ParseHeader([tag] + rest, h).Parsed?
  {
    TagReadsBack(tag, rest);
  }

  // What the header swallows of an edge's numbers is refused, or missing from the edge.
  lemma SwallowedNumbers(e: Edge, k: nat, h: Header, swollen: Header)
    requires 0 < k <= |EdgeNumbers(e)|
    ensures
      ParseHeader(EdgeNumbers(e)[..k], h).Parsed? ==>
      ParseEdge(EdgeNumbers(e)[k..], NO_EDGE.(hdr := Some(swollen))) != Parsed(e)
  {
    hide ParseEdge, ParseHeader, NumberField;
    var u, d, m := NumberField(16, e.hidUsage), NumberField(24, OneIf(e.isDown)), NumberField(32, e.modifiers);
    var b := EdgeNumbers(e);
    NoNumber(16);
    NoNumber(24);
    if k < |u| {
      assert b[..k] == u[..k];
      CutNumber(16, e.hidUsage, k, h);
    } else {
      var h1 := if e.hidUsage == 0 then h else h.(seqNo := e.hidUsage);
      assert b[..k] == u + (d + m)[..k - |u|];
      HeaderNumber(16, e.hidUsage, (d + m)[..k - |u|], h);
      if k == |u| {
        var x := e.(hidUsage := 0);
        assert b[k..] == [] + (d + m) == EdgeNumbers(x);
        EdgeNumbersSet(x, NO_EDGE.(hdr := Some(swollen)));
      } else if k < |u| + |d| {
        assert (d + m)[..k - |u|] == d[..k - |u|];
        CutNumber(24, OneIf(e.isDown), k - |u|, h1);
      } else {
        SwallowedFlag(e, k, h, h1, swollen);
      }
    }
  }

  lemma SwallowedFlag(e: Edge, k: nat, h: Header, h1: Header, swollen: Header)
    requires |NumberField(16, e.hidUsage)| < k
    requires |NumberField(16, e.hidUsage)| + |NumberField(24, OneIf(e.isDown))| <= k <= |EdgeNumbers(e)|
    requires var u := |NumberField(16, e.hidUsage)|;
      ParseHeader(EdgeNumbers(e)[..k], h) == ParseHeader(EdgeNumbers(e)[u..k], h1)
    ensures
      ParseHeader(EdgeNumbers(e)[..k], h).Parsed? ==>
      ParseEdge(EdgeNumbers(e)[k..], NO_EDGE.(hdr := Some(swollen))) != Parsed(e)
  {
    hide ParseEdge, ParseHeader, NumberField;
    var u, d, m := NumberField(16, e.hidUsage), NumberField(24, OneIf(e.isDown)), NumberField(32, e.modifiers);
    var b, j := EdgeNumbers(e), k - |u| - |d|;
    NoNumber(16);
    NoNumber(24);
    assert b[|u|..k] == d + m[..j];
    HeaderNumber(24, OneIf(e.isDown), m[..j], h1);
    if j == 0 {
      var x := e.(hidUsage := 0, isDown := false);
      assert b[k..] == [] + ([] + m) == EdgeNumbers(x);
      EdgeNumbersSet(x, NO_EDGE.(hdr := Some(swollen)));
    } else {
      NumberStartsWithTag(32, e.modifiers, j);
      HeaderMeetsTag(32, m[1..j], if e.isDown then h1.(tMs := 1) else h1);
    }
  }

  lemma NumberStartsWithTag(tag: Byte, n: nat, k: nat)
    requires 0 < k <= |NumberField(tag, n)|
    ensures NumberField(tag, n)[..k] == [tag] + NumberField(tag, n)[1..k]
  {
  }

  // The nested count as it is read

  /** A count that reads back, with at least as many bytes behind it, delimits that many. */
  lemma CountDelimits(counted: nat, body: seq<Byte>)
    ensures
      var d := ReadDelimited(Varint(counted) + body);
      d == None || (counted <= |body| && d == Some(Delimited(body[..counted], body[counted..])))
    ensures counted <= |body| && counted <= MAX_LENGTH ==> ReadDelimited(Varint(counted) + body).Some?
  {
    hide Varint, ReadVarint;
    Limits();
    VarintReadsBack(counted, 5, body);
  }

  // The parse of an edge up to behind its header.
  lemma EdgeWithCount(counted: nat, body: seq<Byte>)
    ensures
      var p := ParseEdge([10] + (Varint(counted) + body), NO_EDGE);
      p.Parsed? ==>
        && counted <= |body|
        && var h := ParseHeader(body[..counted], NO_HEADER);
        && h.Parsed? && p == ParseEdge(body[counted..], NO_EDGE.(hdr := Some(h.value)))
  {
    hide ReadDelimited, Varint, ParseHeader;
    TagReadsBack(10, Varint(counted) + body);
    CountDelimits(counted, body);
  }

  /** An edge reads back exactly when the count is the size of its header. */
  lemma EdgeReadsBackIff(e: Edge, counted: nat)
    requires e.hdr.Some?
    ensures ParseEdge(EdgeBytesAs(e, counted), NO_EDGE) == Parsed(e) <==>
      counted == |HeaderBytes(e.hdr.value)|
  {
    hide ParseEdge, ParseHeader, HeaderBytes, NumberField, Varint;
    var h := e.hdr.value;
    var size, numbers := |HeaderBytes(h)|, EdgeNumbers(e);
    var body := HeaderBytes(h) + numbers;
    assert EdgeBytesAs(e, counted) == [10] + (Varint(counted) + body);
    EdgeWithCount(counted, body);
    if counted == size {
      StaleCountLengthIff(e, counted);
      EdgeCodec(e, e);
    } else if counted < size {
      var tail := CutHeader(h, counted);
      assert body[..counted] == HeaderBytes(h)[..counted];
      assert body[counted..] == HeaderBytes(h)[counted..] + numbers;
      var p := ParseHeader(body[..counted], NO_HEADER);
      if p.Parsed? {
        EdgeTailKeepsHeader(tail, e, NO_EDGE.(hdr := Some(p.value)));
      }
    } else if counted <= |body| {
      var k := counted - size;
      assert body[..counted] == HeaderBytes(h) + numbers[..k];
      assert body[counted..] == numbers[k..];
      HeaderParsesAsMerge(h, numbers[..k], NO_HEADER);
      assert MergeHeader(NO_HEADER, h) == h;
      var p := ParseHeader(numbers[..k], h);
      SwallowedNumbers(e, k, h, if p.Parsed? then p.value else h);
    }
  }

  // Snapshots

  /** The fields of a snapshot behind its header. */
  function SnapshotRest(s: Snapshot): seq<Byte> {
    NumberField(16, s.modifiers) + BytesField(s.pressedBitmap)
  }

  lemma SnapshotRestSets(s: Snapshot, around: Snapshot)
    ensures ParseSnapshot(SnapshotRest(s), around) ==
      if |s.pressedBitmap| > MAX_LENGTH then Malformed else Parsed(MergeSnapshot(around, s.(hdr := None)))
  {
    hide ParseSnapshot, NumberField, BytesField;
    var x := s.(hdr := None);
    assert SnapshotBytes(x) + [] == SnapshotRest(s);
    SnapshotParsesAsMerge(x, [], around);
    SnapshotParseEnds(MergeSnapshot(around, x));
  }

  lemma SnapshotMeetsNumber(tag: Byte, n: nat, rest: seq<Byte>, s: Snapshot)
    requires n != 0 && (tag == 8 || tag == 24)
    ensures ParseSnapshot(NumberField(tag, n) + rest, s) == UnknownField
  {
    hide Varint, ParseHeader;
    assert NumberField(tag, n) + rest == [tag] + (Varint(n) + rest);
    TagReadsBack(tag, Varint(n) + rest);
  }

  lemma SnapshotTailKeepsHeader(tail: Header, x: Snapshot, around: Snapshot)
    ensures
      var p := ParseSnapshot(HeaderBytes(tail) + SnapshotRest(x), around);
      p.Parsed? ==> p.value.hdr == around.hdr
  {
    hide ParseSnapshot, NumberField;
    var v, s, t := NumberField(8, tail.version), NumberField(16, tail.seqNo), NumberField(24, tail.tMs);
    var b := SnapshotRest(x);
    assert HeaderBytes(tail) + b == v + (s + (t + b));
    NoNumber(8);
    NoNumber(24);
    if tail.version != 0 {
      SnapshotMeetsNumber(8, tail.version, s + (t + b), around);
    } else {
      assert v + (s + (t + b)) == s + (t + b);
      SnapshotNumber(tail.seqNo, t + b, around);
      var around1 := around.(modifiers := Override(around.modifiers, tail.seqNo));
      if tail.tMs != 0 {
        SnapshotMeetsNumber(24, tail.tMs, b, around1);
      } else {
        assert t + b == b;
        SnapshotRestSets(x, around1);
      }
    }
  }

  lemma BytesStartWithTag(data: seq<Byte>, k: nat)
    requires 0 < k <= |BytesField(data)|
    ensures BytesField(data)[..k] == [26] + BytesField(data)[1..k]
  {
  }

  // What the header swallows of the rest is refused, or missing from the snapshot.
  lemma SwallowedRest(s: Snapshot, k: nat, h: Header, swollen: Header)
    requires 0 < k <= |SnapshotRest(s)|
    ensures
      ParseHeader(SnapshotRest(s)[..k], h).Parsed? ==>
      ParseSnapshot(SnapshotRest(s)[k..], NO_SNAPSHOT.(hdr := Some(swollen))) != Parsed(s)
  {
    hide ParseSnapshot, ParseHeader, NumberField, BytesField;
    var m, p, b := NumberField(16, s.modifiers), BytesField(s.pressedBitmap), SnapshotRest(s);
    NoNumber(16);
    if k < |m| {
      assert b[..k] == m[..k];
      CutNumber(16, s.modifiers, k, h);
    } else {
      var j := k - |m|;
      assert b[..k] == m + p[..j];
      HeaderNumber(16, s.modifiers, p[..j], h);
      if j == 0 {
        var x := s.(modifiers := 0);
        assert b[k..] == [] + p == SnapshotRest(x);
        SnapshotRestSets(x, NO_SNAPSHOT.(hdr := Some(swollen)));
      } else {
        BytesStartWithTag(s.pressedBitmap, j);
        HeaderMeetsTag(26, p[1..j], if s.modifiers == 0 then h else h.(seqNo := s.modifiers));
      }
    }
  }

  lemma SnapshotWithCount(counted: nat, body: seq<Byte>)
    ensures
      var p := ParseSnapshot([10] + (Varint(counted) + body), NO_SNAPSHOT);
      p.Parsed? ==>
        && counted <= |body|
        && var h := ParseHeader(body[..counted], NO_HEADER);
        && h.Parsed? && p == ParseSnapshot(body[counted..], NO_SNAPSHOT.(hdr := Some(h.value)))
  {
    hide ReadDelimited, Varint, ParseHeader;
    TagReadsBack(10, Varint(counted) + body);
    CountDelimits(counted, body);
  }

  /**
   A snapshot reads back exactly when its bitmap's length is one that is accepted and it has no
   header or the count is the size of its header.
   */
  lemma SnapshotReadsBackIff(s: Snapshot, counted: nat)
    ensures ParseSnapshot(SnapshotBytesAs(s, counted), NO_SNAPSHOT) == Parsed(s) <==>
      |s.pressedBitmap| <= MAX_LENGTH && (s.hdr == None || counted == |HeaderBytes(s.hdr.value)|)
  {
    hide ParseSnapshot, ParseHeader, HeaderBytes, NumberField, BytesField, Varint;
    SnapshotCountIff(s, counted);
    if s.hdr == None || counted == |HeaderBytes(s.hdr.value)| {
      SnapshotCodecIff(s);
    } else {
      StaleSnapshotIsLost(s, counted);
    }
  }

  lemma StaleSnapshotIsLost(s: Snapshot, counted: nat)
    requires s.hdr.Some? && counted != |HeaderBytes(s.hdr.value)|
    ensures ParseSnapshot(SnapshotBytesAs(s, counted), NO_SNAPSHOT) != Parsed(s)
  {
    hide ParseSnapshot, ParseHeader, HeaderBytes, NumberField, BytesField, Varint;
    var h := s.hdr.value;
    var size, rest := |HeaderBytes(h)|, SnapshotRest(s);
    var body := HeaderBytes(h) + rest;
    assert SnapshotBytesAs(s, counted) == [10] + (Varint(counted) + body);
    SnapshotWithCount(counted, body);
    if counted < size {
      var tail := CutHeader(h, counted);
      assert body[..counted] == HeaderBytes(h)[..counted];
      assert body[counted..] == HeaderBytes(h)[counted..] + rest;
      var p := ParseHeader(body[..counted], NO_HEADER);
      if p.Parsed? {
        SnapshotTailKeepsHeader(tail, s, NO_SNAPSHOT.(hdr := Some(p.value)));
      }
    } else if counted <= |body| {
      var k := counted - size;
      assert body[..counted] == HeaderBytes(h) + rest[..k];
      assert body[counted..] == rest[k..];
      HeaderParsesAsMerge(h, rest[..k], NO_HEADER);
      assert MergeHeader(NO_HEADER, h) == h;
      var p := ParseHeader(rest[..k], h);
      SwallowedRest(s, k, h, if p.Parsed? then p.value else h);
    }
  }
}

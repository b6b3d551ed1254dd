/**
 The generated message classes as they work: parse loops that assign fields in place, sizes
 that are cached in the object, and merges that overwrite.
 */
module MessageCodec {
  import opened Words
  import opened Wire
  import Messages

  class HeaderMessage {
    var version: U32
    var seqNo: U32
    var tMs: U64
    var cachedSize: nat

    function Value(): Messages.Header
      reads this
    {
      Messages.Header(version, seqNo, tMs)
    }

    constructor ()
      ensures Value() == Messages.NO_HEADER && cachedSize == 0
    {
      version, seqNo, tMs, cachedSize := 0, 0, 0, 0;
    }

    /** _InternalParse over exactly these bytes. */
    method InternalParse(bytes: seq<Byte>) returns (r: Messages.Outcome<()>)
      modifies this`version, this`seqNo, this`tMs
      ensures match Messages.ParseHeader(bytes, old(Value()))
        case Parsed(h) => r == Messages.Parsed(()) && Value() == h
        case Malformed => r == Messages.Malformed
        case UnknownField => r == Messages.UnknownField
    {
      hide ReadTag, ReadVarint32, ReadVarint64;
      var ptr := bytes;
      while ptr != []
        invariant Messages.ParseHeader(bytes, old(Value())) == Messages.ParseHeader(ptr, Value())
        decreases |ptr|
      {
        var tag := ReadTag(ptr);
        if tag == None {
          return Messages.Malformed;
        }
        var t, rest := tag.value.value, tag.value.rest;
        TagShortens(ptr);
        NumberShortens(rest);
        if Messages.IsTag(t, 1, 8) {
          var v := ReadVarint32(rest);
          if v == None {
            return Messages.Malformed;
          }
          version, ptr := v.value.value, v.value.rest;
        } else if Messages.IsTag(t, 2, 16) {
          var v := ReadVarint32(rest);
          if v == None {
            return Messages.Malformed;
          }
          seqNo, ptr := v.value.value, v.value.rest;
        } else if Messages.IsTag(t, 3, 24) {
          var v := ReadVarint64(rest);
          if v == None {
            return Messages.Malformed;
          }
          tMs, ptr := v.value.value, v.value.rest;
        } else if t == 0 || t % 8 == 4 {
          return Messages.Malformed;
        } else {
          return Messages.UnknownField;
        }
      }
      return Messages.Parsed(());
    }

    method InternalSerialize() returns (target: seq<Byte>)
      ensures target == Messages.HeaderBytes(Value())
    {
      hide Varint;
      target := [];
      if version != 0 {
        target := target + ([8] + Varint(version));
      }
      assert target == Messages.NumberField(8, version);
      if seqNo != 0 {
        target := target + ([16] + Varint(seqNo));
      }
      assert target == Messages.NumberField(8, version) + Messages.NumberField(16, seqNo);
      if tMs != 0 {
        target := target + ([24] + Varint(tMs));
      }
    }

    /** Counts the bytes without printing them, and remembers the count. */
    method ByteSizeLong() returns (totalSize: nat)
      modifies this`cachedSize
      ensures totalSize == |Messages.HeaderBytes(Value())| && cachedSize == totalSize
    {
      totalSize := 0;
      if version != 0 {
        totalSize := totalSize + 1 + VarintSize(version);
      }
      if seqNo != 0 {
        totalSize := totalSize + 1 + VarintSize(seqNo);
      }
      if tMs != 0 {
        totalSize := totalSize + 1 + VarintSize(tMs);
      }
      VarintLength(version);
      VarintLength(seqNo);
      VarintLength(tMs);
      cachedSize := totalSize;
    }

    method MergeFrom(from: HeaderMessage)
      modifies this`version, this`seqNo, this`tMs
      ensures Value() == Messages.MergeHeader(old(Value()), old(from.Value()))
    {
      if from.version != 0 {
        version := from.version;
      }
      if from.seqNo != 0 {
        seqNo := from.seqNo;
      }
      if from.tMs != 0 {
        tMs := from.tMs;
      }
    }
  }

  /** An edge, with a header object of its own once it has one. */
  class EdgeMessage {
    var hdr: HeaderMessage?
    var hidUsage: U32
    var isDown: bool
    var modifiers: U32
    var cachedSize: nat

    function Value(): Messages.Edge
      reads this, hdr
    {
      Messages.Edge(if hdr == null then None else Some(hdr.Value()), hidUsage, isDown, modifiers)
    }

    /** The header's size as last counted is its size now. */
    ghost predicate SizesCurrent()
      reads this, hdr
    {
      hdr != null ==> hdr.cachedSize == |Messages.HeaderBytes(hdr.Value())|
    }

    constructor ()
      ensures Value() == Messages.NO_EDGE && hdr == null
    {
      hdr, hidUsage, isDown, modifiers, cachedSize := null, 0, false, 0, 0;
    }

    /** _internal_mutable_hdr: the header that is there, or a new empty one. */
    method MutableHdr() returns (h: HeaderMessage)
      modifies this`hdr
      ensures h == hdr && (old(hdr) == null ==> fresh(h)) && (old(hdr) != null ==> h == old(hdr))
      ensures Value() == old(Value()).(hdr := Some(Messages.Present(old(Value()).hdr)))
    {
      if hdr == null {
        hdr := new HeaderMessage();
      }
      h := hdr;
    }

    /** _InternalParse over exactly these bytes; a nested header is parsed into the present one. */
    method InternalParse(bytes: seq<Byte>) returns (r: Messages.Outcome<()>)
      modifies this, hdr
      ensures hdr == old(hdr) || fresh(hdr)
      ensures match Messages.ParseEdge(bytes, old(Value()))
        case Parsed(e) => r == Messages.Parsed(()) && Value() == e
        case Malformed => r == Messages.Malformed
        case UnknownField => r == Messages.UnknownField
    {
      hide ReadTag, ReadVarint32, ReadVarint64, ReadDelimited, Messages.ParseHeader;
      var ptr := bytes;
      while ptr != []
        invariant hdr == old(hdr) || fresh(hdr)
        invariant Messages.ParseEdge(bytes, old(Value())) == Messages.ParseEdge(ptr, Value())
        decreases |ptr|
      {
        var tag := ReadTag(ptr);
        if tag == None {
          return Messages.Malformed;
        }
        var t, rest := tag.value.value, tag.value.rest;
        TagShortens(ptr);
        NumberShortens(rest);
        if Messages.IsTag(t, 1, 10) {
          var d := ReadDelimited(rest);
          if d == None {
            var _ := MutableHdr();
            return Messages.Malformed;
          }
          var h := MutableHdr();
          var nested := h.InternalParse(d.value.data);
          if !nested.Parsed? {
            return nested;
          }
          ptr := d.value.rest;
        } else if Messages.IsTag(t, 2, 16) {
          var v := ReadVarint32(rest);
          if v == None {
            return Messages.Malformed;
          }
          hidUsage, ptr := v.value.value, v.value.rest;
        } else if Messages.IsTag(t, 3, 24) {
          var v := ReadVarint64(rest);
          if v == None {
            return Messages.Malformed;
          }
          isDown, ptr := v.value.value != 0, v.value.rest;
        } else if Messages.IsTag(t, 4, 32) {
          var v := ReadVarint32(rest);
          if v == None {
            return Messages.Malformed;
          }
          modifiers, ptr := v.value.value, v.value.rest;
        } else if t == 0 || t % 8 == 4 {
          return Messages.Malformed;
        } else {
          return Messages.UnknownField;
        }
      }
      return Messages.Parsed(());
    }

    /** Prints the header's length as it was last counted. */
    method InternalSerialize() returns (target: seq<Byte>)
      ensures hdr == null ==> target == Messages.EdgeBytes(Value())
      ensures hdr != null ==> target == EdgeBytesAs(Value(), hdr.cachedSize)
    {
      OneByteTrue();
      hide Varint, Messages.HeaderBytes;
      target := [];
      if hdr != null {
        var nested := hdr.InternalSerialize();
        target := [10] + Varint(hdr.cachedSize) + nested;
      }
      ghost var front := target;
      if hidUsage != 0 {
        target := target + ([16] + Varint(hidUsage));
      }
      assert target == front + Messages.NumberField(16, hidUsage);
      if isDown {
        target := target + ([24] + [1]);
      }
      assert target == front + Messages.NumberField(16, hidUsage) + Messages.NumberField(24, Messages.OneIf(isDown));
      if modifiers != 0 {
        target := target + ([32] + Varint(modifiers));
      }
    }

    method ByteSizeLong() returns (totalSize: nat)
      modifies this`cachedSize, hdr
      ensures totalSize == |Messages.EdgeBytes(Value())| && cachedSize == totalSize
      ensures SizesCurrent() && Value() == old(Value())
    {
      totalSize := 0;
      if hdr != null {
        var n := hdr.ByteSizeLong();
        VarintLength(n);
        totalSize := totalSize + 1 + VarintSize(n) + n;
      }
      if hidUsage != 0 {
        totalSize := totalSize + 1 + VarintSize(hidUsage);
      }
      if isDown {
        totalSize := totalSize + 1 + 1;
      }
      if modifiers != 0 {
        totalSize := totalSize + 1 + VarintSize(modifiers);
      }
      VarintLength(hidUsage);
      VarintLength(1);
      VarintLength(modifiers);
      cachedSize := totalSize;
    }

    /** As the runtime calls them: count first, then print. */
    method Serialize() returns (target: seq<Byte>)
      modifies this`cachedSize, hdr
      ensures target == Messages.EdgeBytes(old(Value())) && |target| == cachedSize
    {
      hide Varint, Messages.HeaderBytes, Messages.NumberField;
      var size := ByteSizeLong();
      target := InternalSerialize();
      if hdr != null {
        StaleCountLengthIff(Value(), hdr.cachedSize);
      }
    }

    method MergeFrom(from: EdgeMessage)
      requires from.hdr == null || from.hdr != hdr
      modifies this, hdr
      ensures hdr == old(hdr) || fresh(hdr)
      ensures Value() == Messages.MergeEdge(old(Value()), old(from.Value()))
    {
      if from.hdr != null {
        var h := MutableHdr();
        h.MergeFrom(from.hdr);
      }
      if from.hidUsage != 0 {
        hidUsage := from.hidUsage;
      }
      if from.isDown {
        isDown := from.isDown;
      }
      if from.modifiers != 0 {
        modifiers := from.modifiers;
      }
    }
  }

  // The snapshot's count, in the order in which it is taken, and its print, with any nested count

  function SnapshotCount(s: Messages.Snapshot, nested: nat): nat {
    (if s.pressedBitmap != [] then 1 + VarintSize(|s.pressedBitmap|) + |s.pressedBitmap| else 0) +
    (if s.hdr.Some? then 1 + VarintSize(nested) + nested else 0) +
    (if s.modifiers != 0 then 1 + VarintSize(s.modifiers) else 0)
  }

  function SnapshotBytesAs(s: Messages.Snapshot, counted: nat): seq<Byte> {
    (if s.hdr.Some? then [10] + Varint(counted) + Messages.HeaderBytes(s.hdr.value) else []) +
    Messages.NumberField(16, s.modifiers) + Messages.BytesField(s.pressedBitmap)
  }

  /**
   With the header's true size, the count is the length of the print.  With a stale one the
   print has the right length exactly when there is no header or the two counts are equally wide.
   */
  lemma SnapshotCountIff(s: Messages.Snapshot, counted: nat)
    ensures
      var size := if s.hdr.Some? then |Messages.HeaderBytes(s.hdr.value)| else 0;
      && SnapshotCount(s, size) == |Messages.SnapshotBytes(s)|
      && SnapshotBytesAs(s, size) == Messages.SnapshotBytes(s)
      && (|SnapshotBytesAs(s, counted)| == SnapshotCount(s, size) <==>
          s.hdr == None || VarintSize(counted) == VarintSize(size))
  {
    hide Varint, VarintSize, Messages.HeaderBytes;
    var size := if s.hdr.Some? then |Messages.HeaderBytes(s.hdr.value)| else 0;
    VarintLength(size);
    VarintLength(counted);
    VarintLength(s.modifiers);
    VarintLength(|s.pressedBitmap|);
  }

  lemma OneByteTrue()
    ensures Varint(1) == [1]
  {
  }

  // What is printed when the header's size was last counted as `counted`.
  function EdgeBytesAs(e: Messages.Edge, counted: nat): seq<Byte>
    requires e.hdr.Some?
  {
    [10] + Varint(counted) + Messages.HeaderBytes(e.hdr.value) +
    Messages.NumberField(16, e.hidUsage) + Messages.NumberField(24, Messages.OneIf(e.isDown)) +
    Messages.NumberField(32, e.modifiers)
  }

  /** The print has the counted length exactly when the stale count is printed as widely as the true one. */
  lemma StaleCountLengthIff(e: Messages.Edge, counted: nat)
    requires e.hdr.Some?
    ensures
      |EdgeBytesAs(e, counted)| == |Messages.EdgeBytes(e)| <==>
        VarintSize(counted) == VarintSize(|Messages.HeaderBytes(e.hdr.value)|)
    ensures counted == |Messages.HeaderBytes(e.hdr.value)| ==> EdgeBytesAs(e, counted) == Messages.EdgeBytes(e)
  {
    hide Varint, VarintSize, Messages.HeaderBytes, Messages.NumberField;
    VarintLength(counted);
    VarintLength(|Messages.HeaderBytes(e.hdr.value)|);
  }

  /** Printing with a stale count can lose the message: here a sequence number is read as a usage. */
  lemma StaleCountMisreads()
    ensures
      var e := Messages.Edge(Some(Messages.Header(1, 5, 0)), 0, false, 0);
      Messages.ParseEdge(EdgeBytesAs(e, 2), Messages.NO_EDGE) ==
        Messages.Parsed(Messages.Edge(Some(Messages.Header(1, 0, 0)), 5, false, 0))
  {
    var e := Messages.Edge(Some(Messages.Header(1, 5, 0)), 0, false, 0);
    var e' := Messages.Edge(Some(Messages.Header(1, 0, 0)), 5, false, 0);
    assert Messages.HeaderBytes(e.hdr.value) == [8, 1, 16, 5];
    assert Messages.HeaderBytes(e'.hdr.value) == [8, 1];
    assert EdgeBytesAs(e, 2) == Messages.EdgeBytes(e') == [10, 2, 8, 1, 16, 5];
    Messages.EdgeCodec(e', e');
  }

  lemma TagShortens(b: seq<Byte>)
    ensures ReadTag(b).Some? ==> |ReadTag(b).value.rest| < |b|
  {
  }

  lemma NumberShortens(b: seq<Byte>)
    ensures ReadVarint32(b).Some? ==> |ReadVarint32(b).value.rest| < |b| && ReadVarint32(b).value.value < 0x1_0000_0000
    ensures ReadVarint64(b).Some? ==> |ReadVarint64(b).value.rest| < |b| && ReadVarint64(b).value.value < TWO_TO_64
  {
  }

  /** The bytes of one edge, field by field. */
  lemma EdgeExample()
    ensures Messages.EdgeBytes(Messages.Edge(Some(Messages.Header(1, 300, 5)), 4, true, 2)) ==
      [10, 7, 8, 1, 16, 0xAC, 0x02, 24, 5, 16, 4, 24, 1, 32, 2]
  {
    assert Varint(300) == [0xAC, 0x02];
    assert Messages.HeaderBytes(Messages.Header(1, 300, 5)) == [8, 1, 16, 0xAC, 0x02, 24, 5];
    assert Varint(7) == [7];
  }

  /** The bytes of one snapshot. */
  lemma SnapshotExample()
    ensures Messages.SnapshotBytes(Messages.Snapshot(Some(Messages.NO_HEADER), 2, [0x10, 0x80])) ==
      [10, 0, 16, 2, 26, 2, 0x10, 0x80]
  {
    assert Messages.HeaderBytes(Messages.NO_HEADER) == [];
    assert Varint(0) == [0];
  }
}

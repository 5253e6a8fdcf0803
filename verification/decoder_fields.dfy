/** The owner id, the timestamp and the addon version are read past and never
    used: changing them does not change what unchecked decoding gives. */
module DecoderIgnoredFields {
  import opened Wrappers
  import opened Bytes
  import opened GmadFormat
  import opened Binary2Gmad
  import opened DecoderProperties

  /** Two streams of the same length whose bytes agree in `[lo, hi)`. */
  predicate Agree(d1: Bytes, d2: Bytes, lo: nat, hi: nat) {
    |d1| == |d2| && hi <= |d1| && forall k :: lo <= k < hi ==> d1[k] == d2[k]
  }

  lemma AgreeSymmetric(d1: Bytes, d2: Bytes, lo: nat, hi: nat)
    requires Agree(d1, d2, lo, hi)
    ensures Agree(d2, d1, lo, hi)
  {
  }

  // ---------------------------------------------------------------------------
  // Reads that only look at agreeing bytes give the same result

  lemma ReadBytesFrame(d1: Bytes, d2: Bytes, pos: nat, n: nat)
    requires |d1| == |d2| && (pos + n <= |d1| ==> Agree(d1, d2, pos, pos + n))
    ensures ReadBytes(d1, pos, n) == ReadBytes(d2, pos, n)
  {
    if pos + n <= |d1| {
      assert d1[pos..pos + n] == d2[pos..pos + n];
    }
  }

  /** A string read from `d1` is read the same from `d2` when the bytes it spans
      agree. */
  lemma ReadStringFrame(d1: Bytes, d2: Bytes, pos: nat, s: Bytes, next: nat)
    requires ReadString(d1, pos) == Success(Read(s, next)) && Agree(d1, d2, pos, next)
    ensures ReadString(d2, pos) == Success(Read(s, next))
  {
    ReadStringMeaning(d1, pos, s, next);
    assert d2[pos..next] == d1[pos..next];
    ReadStringMeaning(d2, pos, s, next);
  }

  /** Reads at or after `lo` give the same result when the streams agree from `lo` on. */
  lemma ReadersFrame(d1: Bytes, d2: Bytes, lo: nat, pos: nat)
    requires Agree(d1, d2, lo, |d1|) && lo <= pos
    ensures ReadString(d1, pos) == ReadString(d2, pos)
    ensures ReadUInt32(d1, pos) == ReadUInt32(d2, pos)
    ensures ReadInt64(d1, pos) == ReadInt64(d2, pos)
  {
    ReadBytesFrame(d1, d2, pos, 4);
    ReadBytesFrame(d1, d2, pos, 8);
    var r1, r2 := ReadString(d1, pos), ReadString(d2, pos);
    if r1.Success? {
      ReadStringFrame(d1, d2, pos, r1.value.value, r1.value.next);
    } else if r2.Success? {
      AgreeSymmetric(d1, d2, lo, |d1|);
      ReadStringFrame(d2, d1, pos, r2.value.value, r2.value.next);
    }
  }

  // ---------------------------------------------------------------------------
  // The parse stages

  lemma {:induction false} CheckMagicFrame(d1: Bytes, d2: Bytes, pos: nat, i: nat)
    requires i <= 4 && Agree(d1, d2, 0, 0) && forall k :: pos + i <= k < pos + 4 && k < |d1| ==> d1[k] == d2[k]
    ensures CheckMagic(d1, pos, i) == CheckMagic(d2, pos, i)
    decreases 4 - i
  {
    if i < 4 {
      CheckMagicFrame(d1, d2, pos, i + 1);
    }
  }

  /** The fixed-size header depends on the magic and the version byte only; the
      owner id and the timestamp are skipped. */
  lemma ReadPreambleFrame(d1: Bytes, d2: Bytes, start: nat)
    requires Agree(d1, d2, 0, 0) && forall k :: start <= k < start + 5 && k < |d1| ==> d1[k] == d2[k]
    ensures ReadPreamble(d1, start) == ReadPreamble(d2, start)
  {
    CheckMagicFrame(d1, d2, start, 0);
    var p := CheckMagic(d1, start, 0);
    if p.Success? {
      CheckMagicMeaning(d1, start);
      ReadBytesFrame(d1, d2, start + 4, 1);
    }
  }

  /** A legacy list read from `d1` is read the same from `d2` when the bytes it
      spans agree. */
  lemma {:induction false} SkipLegacyFrame(d1: Bytes, d2: Bytes, pos: nat, q: nat)
    requires SkipLegacy(d1, pos) == Success(q) && Agree(d1, d2, pos, q)
    ensures SkipLegacy(d2, pos) == Success(q)
    decreases |d1| - pos
  {
    var content := ReadString(d1, pos).value;
    ReadStringFrame(d1, d2, pos, content.value, content.next);
    if content.value != [] {
      SkipLegacyFrame(d1, d2, content.next, q);
    }
  }

  lemma SkipLegacyFrameFrom(d1: Bytes, d2: Bytes, lo: nat, pos: nat)
    requires Agree(d1, d2, lo, |d1|) && lo <= pos
    ensures SkipLegacy(d1, pos) == SkipLegacy(d2, pos)
  {
    var r1, r2 := SkipLegacy(d1, pos), SkipLegacy(d2, pos);
    if r1.Success? {
      SkipLegacyFrame(d1, d2, pos, r1.value);
    } else if r2.Success? {
      AgreeSymmetric(d1, d2, lo, |d1|);
      SkipLegacyFrame(d2, d1, pos, r2.value);
    }
  }

  /** The metadata read from `d1` is read the same from `d2` when the three
      strings agree; the addon version that follows them is skipped. */
  lemma ReadMetadataFrame(d1: Bytes, d2: Bytes, pos: nat, metadata: Metadata)
    requires ReadMetadata(d1, pos) == Success(metadata) && Agree(d1, d2, pos, metadata.next - 4)
    ensures ReadMetadata(d2, pos) == Success(metadata)
  {
    var name := ReadString(d1, pos).value;
    var description := ReadString(d1, name.next).value;
    var author := ReadString(d1, description.next).value;
    ReadStringFrame(d1, d2, pos, name.value, name.next);
    ReadStringFrame(d1, d2, name.next, description.value, description.next);
    ReadStringFrame(d1, d2, description.next, author.value, author.next);
    ReadBytesFrame(d1, d2, author.next, 0);
  }

  lemma ReadMetadataFrameFrom(d1: Bytes, d2: Bytes, lo: nat, pos: nat)
    requires Agree(d1, d2, lo, |d1|) && lo <= pos
    ensures ReadMetadata(d1, pos) == ReadMetadata(d2, pos)
  {
    var name := ReadString(d1, pos);
    ReadersFrame(d1, d2, lo, pos);
    if name.Success? {
      ReadersFrame(d1, d2, lo, name.value.next);
      var description := ReadString(d1, name.value.next);
      if description.Success? {
        ReadersFrame(d1, d2, lo, description.value.next);
        var author := ReadString(d1, description.value.next);
        if author.Success? {
          ReadBytesFrame(d1, d2, author.value.next, 4);
        }
      }
    }
  }

  /** A table read from `d1` is read the same from `d2` when the bytes it
      spans agree. */
  lemma {:induction false} ReadTableFrame(d1: Bytes, d2: Bytes, pos: nat, entries: seq<AddonEntry>, offset: int,
                                          table: Read<seq<AddonEntry>>)
    requires ReadTable(d1, pos, entries, offset) == Success(table) && Agree(d1, d2, pos, table.next)
    ensures ReadTable(d2, pos, entries, offset) == Success(table)
    decreases |d1| - pos
  {
    var index := ReadUInt32(d1, pos).value;
    if index.value == 0 {
      ReadTableStop(d1, pos, entries, offset);
      ReadBytesFrame(d1, d2, pos, 4);
      ReadTableStop(d2, pos, entries, offset);
    } else {
      var entry := ReadEntry(d1, index.next, |entries|, offset).value;
      var rest := entries + [entry.value];
      var restOffset := offset + entry.value.size;
      ReadTableStep(d1, pos, entries, offset, index, entry, restOffset);
      ReadTableFrame(d1, d2, entry.next, rest, restOffset, table);
      ReadTableStepFrame(d1, d2, pos, entries, offset, index, entry, restOffset);
    }
  }

  /** The first step of a table read from `d1` is taken the same way in `d2`
      when the index and the entry bytes agree. */
  lemma ReadTableStepFrame(d1: Bytes, d2: Bytes, pos: nat, entries: seq<AddonEntry>, offset: int,
                           index: Read<nat>, entry: Read<AddonEntry>, nextOffset: int)
    requires ReadUInt32(d1, pos) == Success(index) && index.value != 0
    requires ReadEntry(d1, index.next, |entries|, offset) == Success(entry)
    requires Agree(d1, d2, pos, entry.next) && nextOffset == offset + entry.value.size
    ensures ReadTable(d2, pos, entries, offset) == ReadTable(d2, entry.next, entries + [entry.value], nextOffset)
  {
    ReadBytesFrame(d1, d2, pos, 4);
    ReadEntryFrame(d1, d2, index.next, |entries|, offset, entry);
    ReadTableStep(d2, pos, entries, offset, index, entry, nextOffset);
  }

  /** One table entry read from `d1` is read the same from `d2` when its bytes agree. */
  lemma ReadEntryFrame(d1: Bytes, d2: Bytes, pos: nat, fileNumber: nat, offset: int, entry: Read<AddonEntry>)
    requires ReadEntry(d1, pos, fileNumber, offset) == Success(entry) && Agree(d1, d2, pos, entry.next)
    ensures ReadEntry(d2, pos, fileNumber, offset) == Success(entry)
  {
    var name := ReadString(d1, pos).value;
    var size := ReadInt64(d1, name.next).value;
    ReadStringFrame(d1, d2, pos, name.value, name.next);
    ReadBytesFrame(d1, d2, name.next, 8);
    ReadBytesFrame(d1, d2, size.next, 4);
  }

  lemma ReadTableFrameFrom(d1: Bytes, d2: Bytes, lo: nat, pos: nat, entries: seq<AddonEntry>, offset: int)
    requires Agree(d1, d2, lo, |d1|) && lo <= pos
    ensures ReadTable(d1, pos, entries, offset) == ReadTable(d2, pos, entries, offset)
  {
    var r1, r2 := ReadTable(d1, pos, entries, offset), ReadTable(d2, pos, entries, offset);
    if r1.Success? {
      ReadTableFrame(d1, d2, pos, entries, offset, r1.value);
    } else if r2.Success? {
      AgreeSymmetric(d1, d2, lo, |d1|);
      ReadTableFrame(d2, d1, pos, entries, offset, r2.value);
    }
  }

  /** An entry's node reads only the contents block, from a non-negative offset. */
  lemma EntryNodeFrame(d1: Bytes, d2: Bytes, filesBlock: nat, entry: AddonEntry, checkCrc: bool, rootPath: Bytes)
    requires Agree(d1, d2, filesBlock, |d1|) && entry.offset >= 0
    ensures EntryNode(d1, filesBlock, entry, checkCrc, rootPath) == EntryNode(d2, filesBlock, entry, checkCrc, rootPath)
  {
    var start := filesBlock + entry.offset;
    if InStream(|d1|, start, entry.size) {
      assert d1[start..start + entry.size] == d2[start..start + entry.size];
    }
  }

  /** Attaching reads only the contents block, as long as the running offsets
      start at a non-negative one (a negative size fails before it is added). */
  lemma {:induction false} AttachFromFrame(d1: Bytes, d2: Bytes, filesBlock: nat, entries: seq<AddonEntry>,
                                           checkCrc: bool, rootPath: Bytes, i: nat, nodes: seq<Node>)
    requires Agree(d1, d2, filesBlock, |d1|) && i <= |entries| && Numbered(entries)
    requires i < |entries| ==> entries[i].offset >= 0
    ensures AttachFrom(d1, filesBlock, entries, checkCrc, rootPath, i, nodes)
         == AttachFrom(d2, filesBlock, entries, checkCrc, rootPath, i, nodes)
    decreases |entries| - i
  {
    if i < |entries| {
      var entry := entries[i];
      EntryNodeFrame(d1, d2, filesBlock, entry, checkCrc, rootPath);
      var node := EntryNode(d1, filesBlock, entry, checkCrc, rootPath);
      if node.Success? && i + 1 < |entries| {
        NumberedChain(entries, i + 1);
      }
      if node.Success? {
        AttachFromFrame(d1, d2, filesBlock, entries, checkCrc, rootPath, i + 1, nodes + [node.value]);
      }
    }
  }

  // ---------------------------------------------------------------------------
  // The skipped fields

  /** Decoding without checks does not depend on the owner id and the timestamp,
      the sixteen bytes after the magic and the version. */
  lemma OwnerAndTimestampIgnored(d1: Bytes, d2: Bytes, start: nat, rootPath: Bytes)
    requires Agree(d1, d2, start, start + 5) && Agree(d1, d2, start + 21, |d1|)
    ensures Decode(d1, start, false, rootPath) == Decode(d2, start, false, rootPath)
  {
    ReadPreambleFrame(d1, d2, start);
    var preamble := ReadPreamble(d1, start);
    if preamble.Success? {
      MetadataStartMeaning(d1, start, preamble.value);
      SkipLegacyFrameFrom(d1, d2, start + 21, start + 21);
      var p := MetadataStart(d1, preamble.value);
      if p.Success? {
        ReadMetadataFrameFrom(d1, d2, start + 21, p.value);
        var metadata := ReadMetadata(d1, p.value);
        if metadata.Success? {
          ReadTableFrameFrom(d1, d2, start + 21, metadata.value.next, [], 0);
          LayoutFrom(d1, d2, start, start + 21, rootPath);
        }
      }
    }
  }

  /** Where the addon version lies: just after the author, when the parse gets
      that far. */
  function AddonVersionAt(data: Bytes, start: nat): (r: Result<nat, DecodeError>)
    ensures r.Success? ==> start + 21 <= r.value && r.value + 4 <= |data|
  {
    var preamble :- ReadPreamble(data, start);
    MetadataStartMeaning(data, start, preamble);
    var p :- MetadataStart(data, preamble);
    var metadata :- ReadMetadata(data, p);
    Success(metadata.next - 4)
  }

  /** Decoding without checks does not depend on the addon version. */
  lemma AddonVersionIgnored(d1: Bytes, d2: Bytes, start: nat, rootPath: Bytes, q: nat)
    requires AddonVersionAt(d1, start) == Success(q)
    requires Agree(d1, d2, start, q) && Agree(d1, d2, q + 4, |d1|)
    ensures Decode(d1, start, false, rootPath) == Decode(d2, start, false, rootPath)
  {
    var preamble := ReadPreamble(d1, start).value;
    ReadPreambleFrame(d1, d2, start);
    MetadataStartMeaning(d1, start, preamble);
    var p := MetadataStart(d1, preamble).value;
    if preamble.version > 1 {
      SkipLegacyFrame(d1, d2, preamble.next, p);
    }
    var metadata := ReadMetadata(d1, p).value;
    ReadMetadataFrame(d1, d2, p, metadata);
    ReadTableFrameFrom(d1, d2, q + 4, metadata.next, [], 0);
    LayoutFrom(d1, d2, start, q + 4, rootPath);
  }

  /** When the layouts read the same and the streams agree from `lo` on, where
      `lo` is not past the contents block, unchecked decoding gives the same. */
  lemma LayoutFrom(d1: Bytes, d2: Bytes, start: nat, lo: nat, rootPath: Bytes)
    requires ReadLayout(d1, start) == ReadLayout(d2, start) && Agree(d1, d2, lo, |d1|)
    requires ReadLayout(d1, start).Success? ==> lo <= ReadLayout(d1, start).value.filesBlock
    ensures Decode(d1, start, false, rootPath) == Decode(d2, start, false, rootPath)
  {
    var layout := ReadLayout(d1, start);
    if layout.Success? {
      LayoutTable(d1, start, layout.value);
      var entries := layout.value.entries;
      AttachFromFrame(d1, d2, layout.value.filesBlock, entries, false, rootPath, 0, []);
    }
  }
}

/** What the decoder promises, proved about the specification `Decode`. */
module DecoderProperties {
  import opened Wrappers
  import opened Bytes
  import opened Crc
  import opened GmadFormat
  import opened Binary2Gmad

  // ---------------------------------------------------------------------------
  // Header

  /** The slice test and the byte-by-byte test of the magic agree. */
  lemma MagicBytes(data: Bytes, start: nat)
    requires start + 4 <= |data|
    ensures data[start..start + 4] == Magic <==>
              data[start] == Magic[0] && data[start + 1] == Magic[1] &&
              data[start + 2] == Magic[2] && data[start + 3] == Magic[3]
  {
    var m := data[start..start + 4];
    assert m[0] == data[start] && m[1] == data[start + 1] && m[2] == data[start + 2] && m[3] == data[start + 3];
  }

  /** The magic check succeeds exactly on the four magic bytes, and then moves
      past them; four bytes that are not the magic give the header error. */
  lemma CheckMagicMeaning(data: Bytes, pos: nat)
    ensures CheckMagic(data, pos, 0).Success? <==> pos + 4 <= |data| && data[pos..pos + 4] == Magic
    ensures CheckMagic(data, pos, 0).Success? ==> CheckMagic(data, pos, 0).value == pos + 4
    ensures pos + 4 <= |data| && data[pos..pos + 4] != Magic ==> CheckMagic(data, pos, 0) == Failure(InvalidHeader)
  {
    var c3 := CheckMagic(data, pos, 3);
    var c2 := CheckMagic(data, pos, 2);
    var c1 := CheckMagic(data, pos, 1);
    if pos + 4 <= |data| {
      MagicBytes(data, pos);
      assert c3 == if data[pos + 3] != Magic[3] then Failure(InvalidHeader) else Success(pos + 4);
    }
  }

  /** The fixed-size header: it is read exactly when the stream holds the
      magic, a version no greater than 3, and the 16 bytes of owner id and
      timestamp; the metadata (or the legacy list) then starts 21 bytes on. */
  lemma VersionGate(data: Bytes, start: nat)
    ensures ReadPreamble(data, start).Success? <==>
              start + 21 <= |data| && data[start..start + 4] == Magic && data[start + 4] <= Version
    ensures ReadPreamble(data, start).Success? ==>
              ReadPreamble(data, start).value == Preamble(data[start + 4], start + 21)
    ensures start + 5 <= |data| && data[start..start + 4] == Magic && data[start + 4] > Version ==>
              ReadPreamble(data, start) == Failure(UnsupportedVersion(data[start + 4]))
  {
    CheckMagicMeaning(data, start);
  }

  /** Decoding fails unless the stream starts with "GMAD"; four other bytes
      give the header error. */
  lemma MagicRequired(data: Bytes, start: nat, checkCrc: bool, rootPath: Bytes)
    ensures Decode(data, start, checkCrc, rootPath).Success? ==>
              start + 4 <= |data| && data[start..start + 4] == Magic
    ensures start + 4 <= |data| && data[start..start + 4] != Magic ==>
              Decode(data, start, checkCrc, rootPath) == Failure(InvalidHeader)
  {
    VersionGate(data, start);
    CheckMagicMeaning(data, start);
  }

  /** Decoding fails on a version above 3, and only versions up to 3 decode. */
  lemma VersionRequired(data: Bytes, start: nat, checkCrc: bool, rootPath: Bytes)
    ensures Decode(data, start, checkCrc, rootPath).Success? ==>
              start + 21 <= |data| && data[start + 4] <= Version
    ensures start + 5 <= |data| && data[start..start + 4] == Magic && data[start + 4] > Version ==>
              Decode(data, start, checkCrc, rootPath) == Failure(UnsupportedVersion(data[start + 4]))
  {
    VersionGate(data, start);
  }

  // ---------------------------------------------------------------------------
  // Strings and the legacy list

  /** A string is read exactly where the stream holds its bytes and a NUL:
      reading undoes what the writer's `CString` lays down. */
  lemma ReadStringMeaning(data: Bytes, pos: nat, s: Bytes, next: nat)
    ensures ReadString(data, pos) == Success(Read(s, next)) <==>
              NulFree(s) && next == pos + |s| + 1 <= |data| && data[pos..next] == CString(s)
  {
    NulIndexFirst(data, pos);
    if NulFree(s) && next == pos + |s| + 1 <= |data| && data[pos..next] == CString(s) {
      assert data[pos + |s|] == CString(s)[|s|] == NUL;
      forall k | pos <= k < pos + |s|
        ensures data[k] != NUL
      {
        assert data[k] == CString(s)[k - pos] == s[k - pos];
      }
      assert data[pos..pos + |s|] == CString(s)[..|s|] == s;
    }
  }

  /** Position `j` starts an empty string of the list that begins at `pos`:
      strings start at `pos` and after every NUL, so `j` is a NUL that is the
      first byte or follows another NUL. */
  predicate EmptyStringAt(data: Bytes, pos: nat, j: nat) {
    pos <= j < |data| && data[j] == NUL && (j == pos || data[j - 1] == NUL)
  }

  /** The legacy-list loop stops just after the first empty string of the list,
      and fails at the end of the stream when the list has none. */
  lemma {:induction false} SkipLegacyFirstEmpty(data: Bytes, pos: nat)
    ensures SkipLegacy(data, pos).Success? ==>
              var q := SkipLegacy(data, pos).value;
              EmptyStringAt(data, pos, q - 1) && forall j :: pos <= j < q - 1 ==> !EmptyStringAt(data, pos, j)
    ensures SkipLegacy(data, pos).Failure? ==>
              SkipLegacy(data, pos).error == EndOfStream && forall j :: !EmptyStringAt(data, pos, j)
    decreases |data| - pos
  {
    var content := ReadString(data, pos);
    NulIndexFirst(data, pos);
    if content.Success? {
      var n := content.value.next;
      if content.value.value != [] {
        SkipLegacyFirstEmpty(data, n);
        forall j | pos <= j < n
          ensures !EmptyStringAt(data, pos, j)
        {
          if j < n - 1 {
            assert data[j] == data[pos..n - 1][j - pos];
          } else {
            assert data[j - 1] == data[pos..n - 1][j - 1 - pos];
          }
        }
        forall j | n <= j
          ensures EmptyStringAt(data, pos, j) <==> EmptyStringAt(data, n, j)
        {
        }
      }
    } else {
      forall j | pos <= j < |data|
        ensures data[j] != NUL
      {
      }
    }
  }

  /** Where the name starts: 21 bytes after the start for versions up to 1;
      for later versions just after the first empty string of the legacy list
      that begins there. */
  lemma MetadataStartMeaning(data: Bytes, start: nat, preamble: Preamble)
    requires ReadPreamble(data, start) == Success(preamble)
    ensures preamble.next == start + 21
    ensures preamble.version <= 1 ==> MetadataStart(data, preamble) == Success(start + 21)
    ensures preamble.version > 1 && MetadataStart(data, preamble).Success? ==>
              var q := MetadataStart(data, preamble).value;
              EmptyStringAt(data, preamble.next, q - 1) &&
              forall j :: preamble.next <= j < q - 1 ==> !EmptyStringAt(data, preamble.next, j)
    ensures preamble.version > 1 && MetadataStart(data, preamble).Failure? ==>
              forall j :: !EmptyStringAt(data, preamble.next, j)
  {
    VersionGate(data, start);
    SkipLegacyFirstEmpty(data, preamble.next);
  }

  // ---------------------------------------------------------------------------
  // The file table

  /** The sum of the declared sizes of `entries`. */
  function SizeSum(entries: seq<AddonEntry>): int {
    if entries == [] then 0 else SizeSum(entries[..|entries| - 1]) + entries[|entries| - 1].size
  }

  /** Entry `k` has file number `k` and, as offset, the total size of the entries
      before it. */
  predicate Numbered(entries: seq<AddonEntry>) {
    forall k :: 0 <= k < |entries| ==>
      entries[k].fileNumber == k && entries[k].offset == SizeSum(entries[..k])
  }

  /** No entry name holds a '/'. */
  predicate SlashFreeNames(entries: seq<AddonEntry>) {
    forall k :: 0 <= k < |entries| ==> SLASH !in entries[k].name
  }

  /** Appending one entry numbered and placed after the others keeps the table
      numbered. */
  lemma NumberedAppend(entries: seq<AddonEntry>, entry: AddonEntry)
    requires Numbered(entries)
    requires entry.fileNumber == |entries| && entry.offset == SizeSum(entries)
    ensures Numbered(entries + [entry])
    ensures SizeSum(entries + [entry]) == SizeSum(entries) + entry.size
  {
    var es := entries + [entry];
    assert es[..|entries|] == entries;
    forall k | 0 <= k < |entries|
      ensures es[..k] == entries[..k]
    {
    }
  }

  /** The table loop numbers the entries from 0, gives each the sum of the sizes
      before it as offset, turns every '/' of a name into '\', and stops just
      after a zero index. */
  lemma {:induction false} ReadTableInvariant(data: Bytes, pos: nat, entries: seq<AddonEntry>, offset: int,
                                              table: Read<seq<AddonEntry>>)
    requires Numbered(entries) && SlashFreeNames(entries) && offset == SizeSum(entries)
    requires ReadTable(data, pos, entries, offset) == Success(table)
    ensures entries <= table.value && Numbered(table.value) && SlashFreeNames(table.value)
    ensures 4 <= table.next <= |data| && U32Of(data[table.next - 4..table.next]) == 0
    decreases |data| - pos
  {
    var index := ReadUInt32(data, pos).value;
    if index.value == 0 {
      ReadTableStop(data, pos, entries, offset);
    } else {
      var entry := ReadEntry(data, index.next, |entries|, offset).value;
      var nextOffset := offset + entry.value.size;
      ReadTableStep(data, pos, entries, offset, index, entry, nextOffset);
      NumberedAppend(entries, entry.value);
      EntryNameSlashFree(data, index.next, |entries|, offset);
      ReadTableInvariant(data, entry.next, entries + [entry.value], nextOffset, table);
    }
  }

  /** An entry's name has every '/' turned into '\'. */
  lemma EntryNameSlashFree(data: Bytes, pos: nat, fileNumber: nat, offset: int)
    requires ReadEntry(data, pos, fileNumber, offset).Success?
    ensures var entry := ReadEntry(data, pos, fileNumber, offset).value.value;
            SLASH !in entry.name && entry.fileNumber == fileNumber && entry.offset == offset
  {
    var name := ReadString(data, pos).value;
    ReplaceByteRemoves(name.value, SLASH, BACKSLASH);
  }

  /** The running offsets chain: each entry starts where the previous one ends. */
  lemma NumberedChain(entries: seq<AddonEntry>, k: nat)
    requires Numbered(entries) && 0 < k < |entries|
    ensures entries[k].offset == entries[k - 1].offset + entries[k - 1].size
  {
    assert entries[..k][..k - 1] == entries[..k - 1];
  }

  /** What the parse leaves for the contents block: a numbered table with
      '/'-free names, ended by a zero index just before the contents block. */
  lemma LayoutTable(data: Bytes, start: nat, layout: Layout)
    requires ReadLayout(data, start) == Success(layout)
    ensures Numbered(layout.entries) && SlashFreeNames(layout.entries)
    ensures U32Of(data[layout.filesBlock - 4..layout.filesBlock]) == 0
  {
    var preamble := ReadPreamble(data, start).value;
    var p := MetadataStart(data, preamble).value;
    var metadata := ReadMetadata(data, p).value;
    var table := ReadTable(data, metadata.next, [], 0).value;
    ReadTableInvariant(data, metadata.next, [], 0, table);
  }

  // ---------------------------------------------------------------------------
  // The root's children and the checksums

  /** The bytes of an entry's range in the contents block. */
  function Content(data: Bytes, filesBlock: nat, entry: AddonEntry): (r: Bytes)
    requires InStream(|data|, filesBlock + entry.offset, entry.size)
    ensures |r| == entry.size
  {
    data[filesBlock + entry.offset..filesBlock + entry.offset + entry.size]
  }

  /** An entry is accepted when its range is inside the stream and, if checking
      is on, its bytes have the stored CRC. */
  predicate EntryOk(data: Bytes, filesBlock: nat, entry: AddonEntry, checkCrc: bool) {
    InStream(|data|, filesBlock + entry.offset, entry.size) &&
    (checkCrc ==> ReversedCrc(Content(data, filesBlock, entry)) == entry.crc)
  }

  /** The child an accepted entry becomes. */
  function Child(data: Bytes, filesBlock: nat, entry: AddonEntry, rootPath: Bytes): (r: Node)
    requires InStream(|data|, filesBlock + entry.offset, entry.size)
    ensures !r.isContainer && r.path == ChildPath(rootPath, entry.name)
  {
    Node(ChildPath(rootPath, entry.name), false, Content(data, filesBlock, entry))
  }

  /** Attaching `entries[i..]` succeeds exactly when every one of them is
      accepted. */
  lemma {:induction false} AttachFromAccepts(data: Bytes, filesBlock: nat, entries: seq<AddonEntry>,
                                             checkCrc: bool, rootPath: Bytes, i: nat, nodes: seq<Node>)
    requires i <= |entries|
    ensures AttachFrom(data, filesBlock, entries, checkCrc, rootPath, i, nodes).Success? <==>
              forall k :: i <= k < |entries| ==> EntryOk(data, filesBlock, entries[k], checkCrc)
    decreases |entries| - i
  {
    if i < |entries| {
      var node := EntryNode(data, filesBlock, entries[i], checkCrc, rootPath);
      if node.Success? {
        AttachFromAccepts(data, filesBlock, entries, checkCrc, rootPath, i + 1, nodes + [node.value]);
      } else {
        assert !EntryOk(data, filesBlock, entries[i], checkCrc);
      }
    }
  }

  /** On success, attaching appends one child per entry, in table order. */
  lemma {:induction false} AttachFromChildren(data: Bytes, filesBlock: nat, entries: seq<AddonEntry>,
                                              checkCrc: bool, rootPath: Bytes, i: nat, nodes: seq<Node>,
                                              r: seq<Node>)
    requires i <= |entries|
    requires AttachFrom(data, filesBlock, entries, checkCrc, rootPath, i, nodes) == Success(r)
    ensures |r| == |nodes| + |entries| - i && r[..|nodes|] == nodes
    ensures forall k :: i <= k < |entries| ==>
              InStream(|data|, filesBlock + entries[k].offset, entries[k].size) &&
              r[|nodes| + k - i] == Child(data, filesBlock, entries[k], rootPath)
    decreases |entries| - i
  {
    if i < |entries| {
      var node := EntryNode(data, filesBlock, entries[i], checkCrc, rootPath).value;
      var next := nodes + [node];
      AttachFromChildren(data, filesBlock, entries, checkCrc, rootPath, i + 1, next, r);
      assert r[..|nodes|] == r[..|next|][..|nodes|] == next[..|nodes|] == nodes;
      assert r[|nodes|] == next[|nodes|] == node;
    }
  }

  /** Attaching fails with the error of the first entry that is not accepted. */
  lemma {:induction false} AttachFromFirstFailure(data: Bytes, filesBlock: nat, entries: seq<AddonEntry>,
                                                  checkCrc: bool, rootPath: Bytes, i: nat, nodes: seq<Node>, k: nat)
    requires i <= k < |entries|
    requires forall j :: i <= j < k ==> EntryOk(data, filesBlock, entries[j], checkCrc)
    requires !EntryOk(data, filesBlock, entries[k], checkCrc)
    ensures AttachFrom(data, filesBlock, entries, checkCrc, rootPath, i, nodes)
         == Failure(EntryNode(data, filesBlock, entries[k], checkCrc, rootPath).error)
    decreases k - i
  {
    var node := EntryNode(data, filesBlock, entries[i], checkCrc, rootPath);
    if i < k {
      assert EntryOk(data, filesBlock, entries[i], checkCrc);
      AttachFromFirstFailure(data, filesBlock, entries, checkCrc, rootPath, i + 1, nodes + [node.value], k);
    }
  }

  /** Decoding succeeds exactly when the parse up to the contents block
      succeeds, every entry is accepted and, with checking on, the trailer holds
      the checksum of the rest of the stream. */
  lemma DecodeAccepts(data: Bytes, start: nat, checkCrc: bool, rootPath: Bytes)
    ensures Decode(data, start, checkCrc, rootPath).Success? <==>
              ReadLayout(data, start).Success? &&
              (var layout := ReadLayout(data, start).value;
               forall k :: 0 <= k < |layout.entries| ==>
                 EntryOk(data, layout.filesBlock, layout.entries[k], checkCrc)) &&
              (checkCrc ==> TrailerOk(data))
  {
    if ReadLayout(data, start).Success? {
      var layout := ReadLayout(data, start).value;
      AttachFromAccepts(data, layout.filesBlock, layout.entries, checkCrc, rootPath, 0, []);
    }
  }

  /** Attaching all entries of a table gives one child per entry, in table
      order. */
  lemma AttachAll(data: Bytes, filesBlock: nat, entries: seq<AddonEntry>, checkCrc: bool, rootPath: Bytes,
                  r: seq<Node>)
    requires AttachFrom(data, filesBlock, entries, checkCrc, rootPath, 0, []) == Success(r)
    ensures |r| == |entries|
    ensures forall k :: 0 <= k < |entries| ==>
              InStream(|data|, filesBlock + entries[k].offset, entries[k].size) &&
              r[k] == Child(data, filesBlock, entries[k], rootPath)
  {
    var none: seq<Node> := [];
    AttachFromChildren(data, filesBlock, entries, checkCrc, rootPath, 0, none, r);
    forall k | 0 <= k < |entries|
      ensures r[k] == Child(data, filesBlock, entries[k], rootPath)
    {
      assert |none| + k - 0 == k;
    }
  }

  /** A decoded addon has the metadata strings read, no checksum flag, the
      given root, and exactly one child of the root per table entry, in table
      order: entry `k` becomes a file under the root named by the entry's name,
      whose bytes are the entry's range of the contents block. */
  lemma DecodeChildren(data: Bytes, start: nat, checkCrc: bool, rootPath: Bytes, layout: Layout, g: Gmad)
    requires ReadLayout(data, start) == Success(layout)
    requires Decode(data, start, checkCrc, rootPath) == Success(g)
    ensures g.name == layout.name && g.description == layout.description && g.author == layout.author
    ensures !g.doCrc && g.rootPath == rootPath
    ensures |g.nodes| == |layout.entries|
    ensures forall k :: 0 <= k < |layout.entries| ==>
              var entry := layout.entries[k];
              var fb := layout.filesBlock;
              InStream(|data|, fb + entry.offset, entry.size) &&
              g.nodes[k] == Node(ChildPath(rootPath, entry.name), false,
                                 data[fb + entry.offset..fb + entry.offset + entry.size])
  {
    AttachAll(data, layout.filesBlock, layout.entries, checkCrc, rootPath, g.nodes);
  }

  /** With checking on, the first entry whose bytes do not have the stored CRC
      (its range being inside the stream) makes decoding fail with both values. */
  lemma FirstCrcMismatchFails(data: Bytes, start: nat, rootPath: Bytes, layout: Layout, k: nat)
    requires ReadLayout(data, start) == Success(layout)
    requires k < |layout.entries|
    requires forall j :: 0 <= j < k ==> EntryOk(data, layout.filesBlock, layout.entries[j], true)
    requires InStream(|data|, layout.filesBlock + layout.entries[k].offset, layout.entries[k].size)
    requires ReversedCrc(Content(data, layout.filesBlock, layout.entries[k])) != layout.entries[k].crc
    ensures var entry := layout.entries[k];
            Decode(data, start, true, rootPath)
              == Failure(EntryCrcMismatch(entry.name, ReversedCrc(Content(data, layout.filesBlock, entry)), entry.crc))
  {
    AttachFromFirstFailure(data, layout.filesBlock, layout.entries, true, rootPath, 0, [], k);
  }

  /** With checking on and every entry accepted, a trailer that is not the
      checksum of the bytes before it makes decoding fail. */
  lemma TrailerMismatchFails(data: Bytes, start: nat, rootPath: Bytes, layout: Layout)
    requires ReadLayout(data, start) == Success(layout)
    requires forall k :: 0 <= k < |layout.entries| ==> EntryOk(data, layout.filesBlock, layout.entries[k], true)
    requires !TrailerOk(data)
    ensures Decode(data, start, true, rootPath) == Failure(TrailerCrcMismatch)
  {
    AttachFromAccepts(data, layout.filesBlock, layout.entries, true, rootPath, 0, []);
  }

  /** With checking off no checksum comparison can make decoding fail. */
  lemma UncheckedNeverFailsOnChecksum(data: Bytes, start: nat, rootPath: Bytes)
    ensures Decode(data, start, false, rootPath).Failure? ==>
              !Decode(data, start, false, rootPath).error.EntryCrcMismatch? &&
              Decode(data, start, false, rootPath).error != TrailerCrcMismatch
  {
    var layout := ReadLayout(data, start);
    if layout.Success? {
      var fb, entries := layout.value.filesBlock, layout.value.entries;
      AttachFromAccepts(data, fb, entries, false, rootPath, 0, []);
      if AttachFrom(data, fb, entries, false, rootPath, 0, []).Failure? {
        var k := FirstRejected(data, fb, entries, false, 0);
        AttachFromFirstFailure(data, fb, entries, false, rootPath, 0, [], k);
      }
    }
  }

  /** Checking only adds ways to fail: where checked attaching succeeds,
      unchecked attaching gives the same children. */
  lemma {:induction false} AttachFromCheckedUnchecked(data: Bytes, filesBlock: nat, entries: seq<AddonEntry>,
                                                      rootPath: Bytes, i: nat, nodes: seq<Node>, r: seq<Node>)
    requires i <= |entries|
    requires AttachFrom(data, filesBlock, entries, true, rootPath, i, nodes) == Success(r)
    ensures AttachFrom(data, filesBlock, entries, false, rootPath, i, nodes) == Success(r)
    decreases |entries| - i
  {
    if i < |entries| {
      var node := EntryNode(data, filesBlock, entries[i], true, rootPath).value;
      assert EntryNode(data, filesBlock, entries[i], false, rootPath) == Success(node);
      AttachFromCheckedUnchecked(data, filesBlock, entries, rootPath, i + 1, nodes + [node], r);
    }
  }

  /** Wherever checked decoding succeeds, unchecked decoding gives the same addon. */
  lemma CheckedAgreesWithUnchecked(data: Bytes, start: nat, rootPath: Bytes, g: Gmad)
    requires Decode(data, start, true, rootPath) == Success(g)
    ensures Decode(data, start, false, rootPath) == Success(g)
  {
    var layout := ReadLayout(data, start).value;
    AttachFromCheckedUnchecked(data, layout.filesBlock, layout.entries, rootPath, 0, [], g.nodes);
  }

  /** The index of the first entry at or after `i` that is not accepted. */
  function FirstRejected(data: Bytes, filesBlock: nat, entries: seq<AddonEntry>, checkCrc: bool, i: nat): (k: nat)
    requires i <= |entries|
    requires exists k :: i <= k < |entries| && !EntryOk(data, filesBlock, entries[k], checkCrc)
    ensures i <= k < |entries| && !EntryOk(data, filesBlock, entries[k], checkCrc)
    ensures forall j :: i <= j < k ==> EntryOk(data, filesBlock, entries[j], checkCrc)
    decreases |entries| - i
  {
    if !EntryOk(data, filesBlock, entries[i], checkCrc) then i
    else FirstRejected(data, filesBlock, entries, checkCrc, i + 1)
  }
}

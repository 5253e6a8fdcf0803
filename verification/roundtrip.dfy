/** Decoding what the encoder wrote gives back the addon: its strings, and one
    child per file, in order, holding the file's bytes under the name the
    encoder listed it by. */
module RoundTrip {
  import opened Wrappers
  import opened Bytes
  import opened Crc
  import opened GmadFormat
  import opened Binary2Gmad
  import opened Gmad2Binary
  import opened DecoderProperties
  import opened EncoderProperties

  // ---------------------------------------------------------------------------
  // Reading back what was written

  /** `s` lies in `data` at `pos`. */
  predicate At(data: Bytes, pos: nat, s: Bytes) {
    pos + |s| <= |data| && data[pos..pos + |s|] == s
  }

  lemma AtSplit(data: Bytes, pos: nat, s: Bytes, t: Bytes)
    requires At(data, pos, s + t)
    ensures At(data, pos, s) && At(data, pos + |s|, t)
  {
    var whole := data[pos..pos + |s + t|];
    assert whole == s + t;
    assert data[pos..pos + |s|] == whole[..|s|];
    assert data[pos + |s|..pos + |s| + |t|] == whole[|s|..];
  }

  lemma AtPrefix(data: Bytes, pos: nat, s: Bytes, t: Bytes)
    requires At(data, pos, t) && s <= t
    ensures At(data, pos, s)
  {
    assert t == s + t[|s|..];
    AtSplit(data, pos, s, t[|s|..]);
  }

  /** The header, then the table and its zero index, start a body. */
  lemma BodyParts(data: Bytes, header: Bytes, table: Bytes, contents: Bytes)
    requires At(data, 0, header + table + U32Bytes(0) + contents)
    ensures At(data, 0, header) && At(data, |header|, table + U32Bytes(0))
  {
    AtSplit(data, 0, header + table + U32Bytes(0), contents);
    AppendAssoc(header, table, U32Bytes(0));
    AtSplit(data, 0, header, table + U32Bytes(0));
  }

  lemma AtU32(data: Bytes, pos: nat, n: nat)
    requires n < TWO_32 && At(data, pos, U32Bytes(n))
    ensures ReadUInt32(data, pos) == Success(Read(n as nat, pos + 4))
  {
    U32RoundTrip(n);
  }

  lemma AtI64(data: Bytes, pos: nat, x: int)
    requires -(TWO_63 as int) <= x < TWO_63 && At(data, pos, I64Bytes(x))
    ensures ReadInt64(data, pos) == Success(Read(x, pos + 8))
  {
    I64RoundTrip(x);
  }

  lemma AtString(data: Bytes, pos: nat, s: Bytes)
    requires NulFree(s) && At(data, pos, CString(s))
    ensures ReadString(data, pos) == Success(Read(s, pos + |s| + 1))
  {
    ReadStringMeaning(data, pos, s, pos + |s| + 1);
  }

  // ---------------------------------------------------------------------------
  // What the decoder is expected to see

  /** What the round trip needs of an addon: strings with no NUL, fewer files
      than a `uint` index can count, and file sizes a `long` can hold. */
  predicate Encodable(g: Gmad) {
    NulFree(g.name) && NulFree(g.description) && NulFree(g.author) && FilesEncodable(Files(g.nodes))
  }

  predicate FilesEncodable(files: seq<Node>) {
    |files| < TWO_32 &&
    forall k :: 0 <= k < |files| ==> NulFree(files[k].path) && |files[k].content| < TWO_63
  }

  /** The row the decoder reads for file `k`: the listed name with '/' turned
      back into '\', the size, the CRC field, number `k`, and as offset the
      size of the files before it. */
  function EncodedEntry(files: seq<Node>, rootPath: Bytes, doCrc: bool, k: nat): (r: AddonEntry)
    requires k < |files|
    ensures r.fileNumber == k && r.size == |files[k].content|
  {
    AddonEntry(ReplaceByte(FileName(rootPath, files[k].path), SLASH, BACKSLASH), |files[k].content|,
               CrcField(files[k].content, doCrc), k, |Contents(files[..k])|)
  }

  function EncodedEntries(files: seq<Node>, rootPath: Bytes, doCrc: bool): (r: seq<AddonEntry>)
    ensures |r| == |files|
  {
    seq(|files|, k requires 0 <= k < |files| => EncodedEntry(files, rootPath, doCrc, k))
  }

  /** The children a decoder rooted at `rootPath` makes of `files`. */
  function DecodedFiles(files: seq<Node>, sourceRoot: Bytes, rootPath: Bytes): (r: seq<Node>)
    ensures |r| == |files|
  {
    seq(|files|, k requires 0 <= k < |files| =>
      Node(ChildPath(rootPath, ReplaceByte(FileName(sourceRoot, files[k].path), SLASH, BACKSLASH)),
           false, files[k].content))
  }

  // ---------------------------------------------------------------------------
  // The header and the metadata

  /** The fixed header parses back as version 3, and the empty legacy list
      after it ends at 22. */
  lemma ReadFixedHeader(a: Bytes, timestamp: int)
    requires At(a, 0, Magic + [Version] + I64Bytes(0) + I64Bytes(timestamp) + [0])
    ensures ReadPreamble(a, 0) == Success(Preamble(Version, 21))
    ensures MetadataStart(a, Preamble(Version, 21)) == Success(22)
  {
    var fixed := Magic + [Version] + I64Bytes(0) + I64Bytes(timestamp) + [0];
    assert a[0..4] == fixed[0..4] == Magic;
    assert a[4] == fixed[4] == Version;
    VersionGate(a, 0);
    assert a[21..22] == [fixed[21]] == CString([]);
    AtString(a, 21, []);
  }

  /** Three strings and a four-byte addon version parse back as the metadata. */
  lemma ReadWrittenMetadata(a: Bytes, pos: nat, name: Bytes, description: Bytes, author: Bytes, version: Bytes,
                            next: nat)
    requires NulFree(name) && NulFree(description) && NulFree(author) && |version| == 4
    requires At(a, pos, CString(name) + CString(description) + CString(author) + version)
    requires next == pos + |name| + |description| + |author| + 7
    ensures ReadMetadata(a, pos) == Success(Metadata(name, description, author, next))
  {
    var p1 := pos + |name| + 1;
    var p2 := p1 + |description| + 1;
    var p3 := p2 + |author| + 1;
    AppendAssoc(CString(name) + CString(description), CString(author), version);
    AppendAssoc(CString(name), CString(description), CString(author) + version);
    ReadStringThen(a, pos, name, CString(description) + (CString(author) + version), p1);
    ReadStringThen(a, p1, description, CString(author) + version, p2);
    ReadStringThen(a, p2, author, version, p3);
    ReadMetadataFrom(a, pos, Read(name, p1), Read(description, p2), Read(author, p3), Read(version, p3 + 4));
  }

  /** A string that reads back, and what follows it. */
  lemma ReadStringThen(data: Bytes, pos: nat, s: Bytes, rest: Bytes, next: nat)
    requires NulFree(s) && At(data, pos, CString(s) + rest) && next == pos + |s| + 1
    ensures ReadString(data, pos) == Success(Read(s, next)) && At(data, next, rest)
  {
    AtSplit(data, pos, CString(s), rest);
    AtString(data, pos, s);
  }

  /** Three strings and four bytes that read back one after the other make the
      metadata. */
  lemma ReadMetadataFrom(data: Bytes, pos: nat, name: Read<Bytes>, description: Read<Bytes>, author: Read<Bytes>,
                         version: Read<Bytes>)
    requires ReadString(data, pos) == Success(name)
    requires ReadString(data, name.next) == Success(description)
    requires ReadString(data, description.next) == Success(author)
    requires At(data, author.next, version.value) && |version.value| == 4 && version.next == author.next + 4
    ensures ReadMetadata(data, pos) == Success(Metadata(name.value, description.value, author.value, version.next))
  {
  }

  /** The header parses back: version 3, the empty legacy list, the three
      strings, and the table starting right after the header. */
  lemma ReadEncodedHeader(g: Gmad, timestamp: int, a: Bytes)
    requires NulFree(g.name) && NulFree(g.description) && NulFree(g.author)
    requires At(a, 0, Header(g, timestamp))
    ensures ReadPreamble(a, 0) == Success(Preamble(Version, 21))
    ensures MetadataStart(a, Preamble(Version, 21)) == Success(22)
    ensures ReadMetadata(a, 22) == Success(Metadata(g.name, g.description, g.author, |Header(g, timestamp)|))
  {
    var fixed := Magic + [Version] + I64Bytes(0) + I64Bytes(timestamp) + [0];
    var metadata := CString(g.name) + CString(g.description) + CString(g.author) + U32Bytes(1);
    assert Header(g, timestamp) == fixed + metadata;
    AtSplit(a, 0, fixed, metadata);
    ReadFixedHeader(a, timestamp);
    ReadWrittenMetadata(a, 22, g.name, g.description, g.author, U32Bytes(1), |Header(g, timestamp)|);
  }

  // ---------------------------------------------------------------------------
  // The table

  /** A written row reads back as its index and its entry. */
  lemma ReadWrittenRow(a: Bytes, pos: nat, index: nat, name: Bytes, size: int, crc: nat,
                       entry: AddonEntry, next: nat)
    requires 0 < index < TWO_32 && NulFree(name) && 0 <= size < TWO_63 && crc < TWO_32
    requires At(a, pos, U32Bytes(index) + CString(name) + I64Bytes(size) + U32Bytes(crc))
    requires entry.name == ReplaceByte(name, SLASH, BACKSLASH) && entry.size == size && entry.crc == crc
    requires next == pos + |name| + 17
    ensures ReadUInt32(a, pos) == Success(Read(index, pos + 4))
    ensures ReadEntry(a, pos + 4, entry.fileNumber, entry.offset) == Success(Read(entry, next))
  {
    AtSplit(a, pos, U32Bytes(index) + CString(name) + I64Bytes(size), U32Bytes(crc));
    AtSplit(a, pos, U32Bytes(index) + CString(name), I64Bytes(size));
    AtSplit(a, pos, U32Bytes(index), CString(name));
    AtU32(a, pos, index);
    AtString(a, pos + 4, name);
    AtI64(a, pos + 4 + |name| + 1, size);
    AtU32(a, pos + 4 + |name| + 1 + 8, crc);
  }

  /** Row `k` of an encoded table reads back as index `k + 1` and the expected
      entry. */
  lemma ReadEncodedRow(a: Bytes, pos: nat, files: seq<Node>, rootPath: Bytes, doCrc: bool, k: nat,
                       entry: AddonEntry, next: nat)
    requires FilesEncodable(files) && k < |files|
    requires At(a, pos, EntryBytes(k + 1, files[k], rootPath, doCrc))
    requires entry == EncodedEntry(files, rootPath, doCrc, k)
    requires next == pos + |EntryBytes(k + 1, files[k], rootPath, doCrc)|
    ensures ReadUInt32(a, pos) == Success(Read((k + 1) as nat, pos + 4))
    ensures ReadEntry(a, pos + 4, entry.fileNumber, entry.offset) == Success(Read(entry, next))
  {
    var name := FileName(rootPath, files[k].path);
    FileNameForm(rootPath, files[k].path);
    ReadWrittenRow(a, pos, k + 1, name, |files[k].content|, CrcField(files[k].content, doCrc), entry, next);
  }

  /** Row `k` lies right after the rows before it. */
  lemma RowAt(a: Bytes, base: nat, files: seq<Node>, rootPath: Bytes, doCrc: bool, k: nat)
    requires |files| < TWO_32 && k < |files|
    requires At(a, base, Table(files, rootPath, doCrc))
    ensures At(a, base + |Table(files[..k], rootPath, doCrc)|, EntryBytes(k + 1, files[k], rootPath, doCrc))
    ensures |Table(files[..k + 1], rootPath, doCrc)|
         == |Table(files[..k], rootPath, doCrc)| + |EntryBytes(k + 1, files[k], rootPath, doCrc)|
  {
    var before := Table(files[..k], rootPath, doCrc);
    var row := EntryBytes(k + 1, files[k], rootPath, doCrc);
    TableRowSmall(files, rootPath, doCrc, k);
    AtMiddle(a, base, before, row, Table(files, rootPath, doCrc));
  }

  lemma AtMiddle(data: Bytes, pos: nat, s: Bytes, t: Bytes, whole: Bytes)
    requires At(data, pos, whole) && s + t <= whole
    ensures At(data, pos + |s|, t)
  {
    AtPrefix(data, pos, s + t, whole);
    AtSplit(data, pos, s, t);
  }

  /** With fewer than 2^32 files, row `k` is indexed `k + 1` without wrapping. */
  lemma TableRowSmall(files: seq<Node>, rootPath: Bytes, doCrc: bool, k: nat)
    requires |files| < TWO_32 && k < |files|
    ensures Table(files[..k], rootPath, doCrc) + EntryBytes(k + 1, files[k], rootPath, doCrc)
         == Table(files[..k + 1], rootPath, doCrc)
    ensures Table(files[..k + 1], rootPath, doCrc) <= Table(files, rootPath, doCrc)
  {
    SmallIndex(k + 1);
    TableAppend(files[..k], files[k], rootPath, doCrc, k + 1);
    assert files[..k] + [files[k]] == files[..k + 1];
    TablePrefix(files, rootPath, doCrc, k + 1);
  }

  lemma SmallIndex(n: nat)
    requires n < TWO_32
    ensures n % TWO_32 == n
  {
  }

  /** Row `j` of a table read: a non-zero index at `starts[j]`, then
      `entries[j]`, numbered `j` and placed at `offsets[j]`, ending at
      `starts[j + 1]`; the next offset adds the entry's size. */
  predicate RowRead(a: Bytes, entries: seq<AddonEntry>, starts: seq<nat>, offsets: seq<int>, j: nat)
    requires j < |entries| && |starts| == |offsets| == |entries| + 1
  {
    var index := ReadUInt32(a, starts[j]);
    index.Success? && index.value.value != 0 &&
    ReadEntry(a, index.value.next, j, offsets[j]) == Success(Read(entries[j], starts[j + 1])) &&
    offsets[j + 1] == offsets[j] + entries[j].size
  }

  /** Every row of a table reads back in turn. */
  predicate RowsRead(a: Bytes, entries: seq<AddonEntry>, starts: seq<nat>, offsets: seq<int>)
  {
    |starts| == |offsets| == |entries| + 1 &&
    forall j :: 0 <= j < |entries| ==> RowRead(a, entries, starts, offsets, j)
  }

  /** Rows that read back one after the other, followed by a zero index, read
      back as the whole table. */
  lemma {:induction false} ReadRows(a: Bytes, entries: seq<AddonEntry>, starts: seq<nat>, offsets: seq<int>, k: nat)
    requires |starts| == |offsets| == |entries| + 1 && k <= |entries|
    requires forall j :: k <= j < |entries| ==> RowRead(a, entries, starts, offsets, j)
    requires ReadUInt32(a, starts[|entries|]).Success? && ReadUInt32(a, starts[|entries|]).value.value == 0
    ensures ReadTable(a, starts[k], entries[..k], offsets[k]) == Success(Read(entries, starts[|entries|] + 4))
    decreases |entries| - k
  {
    if k == |entries| {
      assert entries[..k] == entries;
      ReadTableStop(a, starts[k], entries, offsets[k]);
    } else {
      assert RowRead(a, entries, starts, offsets, k);
      var index := ReadUInt32(a, starts[k]).value;
      assert |entries[..k]| == k;
      ReadTableStep(a, starts[k], entries[..k], offsets[k], index, Read(entries[k], starts[k + 1]), offsets[k + 1]);
      assert entries[..k] + [entries[k]] == entries[..k + 1];
      ReadRows(a, entries, starts, offsets, k + 1);
    }
  }

  /** The whole table, read from the first row. */
  lemma ReadAllRows(a: Bytes, entries: seq<AddonEntry>, starts: seq<nat>, offsets: seq<int>, start: nat, end: nat)
    requires RowsRead(a, entries, starts, offsets)
    requires start == starts[0] && offsets[0] == 0 && end == starts[|entries|]
    requires ReadUInt32(a, end).Success? && ReadUInt32(a, end).value.value == 0
    ensures ReadTable(a, start, [], 0) == Success(Read(entries, end + 4))
  {
    ReadRows(a, entries, starts, offsets, 0);
    assert entries[..0] == [];
  }

  /** Where each row of an encoded table starts, and where it ends. */
  function RowStarts(files: seq<Node>, rootPath: Bytes, doCrc: bool, base: nat): (r: seq<nat>)
    ensures |r| == |files| + 1
  {
    seq(|files| + 1, j requires 0 <= j <= |files| => base + |Table(files[..j], rootPath, doCrc)|)
  }

  /** The offset of each file in the contents block, and their total. */
  function Offsets(files: seq<Node>): (r: seq<int>)
    ensures |r| == |files| + 1
  {
    seq(|files| + 1, j requires 0 <= j <= |files| => |Contents(files[..j])|)
  }

  lemma EncodedRowRead(a: Bytes, base: nat, files: seq<Node>, rootPath: Bytes, doCrc: bool, j: nat)
    requires FilesEncodable(files) && j < |files|
    requires At(a, base, Table(files, rootPath, doCrc))
    ensures RowRead(a, EncodedEntries(files, rootPath, doCrc), RowStarts(files, rootPath, doCrc, base), Offsets(files), j)
  {
    var entries := EncodedEntries(files, rootPath, doCrc);
    var starts := RowStarts(files, rootPath, doCrc, base);
    var offsets := Offsets(files);
    RowAt(a, base, files, rootPath, doCrc, j);
    ContentsOf(files, j);
    ReadEncodedRow(a, starts[j], files, rootPath, doCrc, j, entries[j], starts[j + 1]);
  }

  /** An encoded table, followed by the zero index, reads back as the expected
      entries and ends right after the zero index. */
  lemma ReadEncodedTable(a: Bytes, base: nat, files: seq<Node>, rootPath: Bytes, doCrc: bool,
                         entries: seq<AddonEntry>, end: nat)
    requires FilesEncodable(files)
    requires entries == EncodedEntries(files, rootPath, doCrc)
    requires end == base + |Table(files, rootPath, doCrc)|
    requires At(a, base, Table(files, rootPath, doCrc)) && At(a, end, U32Bytes(0))
    ensures ReadTable(a, base, [], 0) == Success(Read(entries, end + 4))
  {
    EncodedRowsRead(a, base, files, rootPath, doCrc);
    RowStartsEnds(files, rootPath, doCrc, base, end);
    AtU32(a, end, 0);
    ReadAllRows(a, entries, RowStarts(files, rootPath, doCrc, base), Offsets(files), base, end);
  }

  /** Every row of an encoded table reads back as its entry. */
  lemma EncodedRowsRead(a: Bytes, base: nat, files: seq<Node>, rootPath: Bytes, doCrc: bool)
    requires FilesEncodable(files)
    requires At(a, base, Table(files, rootPath, doCrc))
    ensures RowsRead(a, EncodedEntries(files, rootPath, doCrc), RowStarts(files, rootPath, doCrc, base), Offsets(files))
  {
    forall j | 0 <= j < |files|
      ensures RowRead(a, EncodedEntries(files, rootPath, doCrc), RowStarts(files, rootPath, doCrc, base), Offsets(files), j)
    {
      EncodedRowRead(a, base, files, rootPath, doCrc, j);
    }
  }

  /** The rows start at the table's start and end at its end; the first file
      lies at offset 0. */
  lemma RowStartsEnds(files: seq<Node>, rootPath: Bytes, doCrc: bool, base: nat, end: nat)
    requires end == base + |Table(files, rootPath, doCrc)|
    ensures RowStarts(files, rootPath, doCrc, base)[0] == base
    ensures RowStarts(files, rootPath, doCrc, base)[|files|] == end
    ensures Offsets(files)[0] == 0
  {
    assert files[..0] == [] && files[..|files|] == files;
  }

  /** Everything before the contents parses back. */
  lemma ReadEncodedLayout(g: Gmad, timestamp: int, a: Bytes, header: Bytes, files: seq<Node>, layout: Layout)
    requires NulFree(g.name) && NulFree(g.description) && NulFree(g.author) && FilesEncodable(files)
    requires header == Header(g, timestamp)
    requires At(a, 0, header + Table(files, g.rootPath, g.doCrc) + U32Bytes(0) + Contents(files))
    requires layout
          == Layout(Version, g.name, g.description, g.author, EncodedEntries(files, g.rootPath, g.doCrc),
                    |header| + |Table(files, g.rootPath, g.doCrc)| + 4)
    ensures ReadLayout(a, 0) == Success(layout)
  {
    BodyParts(a, header, Table(files, g.rootPath, g.doCrc), Contents(files));
    ReadEncodedHeader(g, timestamp, a);
    ReadHeaderThenTable(a, |header|, g.name, g.description, g.author, files, g.rootPath, g.doCrc, layout);
  }

  /** A header that parses, followed by an encoded table, makes the layout. */
  lemma ReadHeaderThenTable(a: Bytes, tableStart: nat, name: Bytes, description: Bytes, author: Bytes,
                            files: seq<Node>, rootPath: Bytes, doCrc: bool, layout: Layout)
    requires ReadPreamble(a, 0) == Success(Preamble(Version, 21))
    requires MetadataStart(a, Preamble(Version, 21)) == Success(22)
    requires ReadMetadata(a, 22) == Success(Metadata(name, description, author, tableStart))
    requires FilesEncodable(files)
    requires At(a, tableStart, Table(files, rootPath, doCrc) + U32Bytes(0))
    requires layout == Layout(Version, name, description, author, EncodedEntries(files, rootPath, doCrc),
                              tableStart + |Table(files, rootPath, doCrc)| + 4)
    ensures ReadLayout(a, 0) == Success(layout)
  {
    var end := tableStart + |Table(files, rootPath, doCrc)|;
    AtSplit(a, tableStart, Table(files, rootPath, doCrc), U32Bytes(0));
    ReadEncodedTable(a, tableStart, files, rootPath, doCrc, layout.entries, end);
    ReadLayoutFrom(a, Preamble(Version, 21), 22, Metadata(name, description, author, tableStart),
                   Read(layout.entries, end + 4), layout);
  }

  /** A preamble, metadata and table that parse one after the other make the
      layout. */
  lemma ReadLayoutFrom(a: Bytes, preamble: Preamble, p: nat, metadata: Metadata,
                       table: Read<seq<AddonEntry>>, layout: Layout)
    requires ReadPreamble(a, 0) == Success(preamble)
    requires MetadataStart(a, preamble) == Success(p)
    requires ReadMetadata(a, p) == Success(metadata)
    requires ReadTable(a, metadata.next, [], 0) == Success(table)
    requires layout == Layout(preamble.version, metadata.name, metadata.description, metadata.author,
                              table.value, table.next)
    ensures ReadLayout(a, 0) == Success(layout)
  {
  }

  // ---------------------------------------------------------------------------
  // The contents

  /** Each entry's range holds its file's bytes, and, when the CRC is checked,
      the row holds the bytes' CRC, since the encoder wrote it. */
  lemma EncodedEntryOk(a: Bytes, filesBlock: nat, files: seq<Node>, rootPath: Bytes, doCrc: bool, checkCrc: bool,
                       k: nat, entry: AddonEntry)
    requires checkCrc ==> doCrc
    requires k < |files| && At(a, filesBlock, Contents(files))
    requires entry == EncodedEntry(files, rootPath, doCrc, k)
    ensures EntryOk(a, filesBlock, entry, checkCrc) && Content(a, filesBlock, entry) == files[k].content
  {
    var before := Contents(files[..k]);
    var content := files[k].content;
    ContentsOf(files, k);
    AtPrefix(a, filesBlock, before + content, Contents(files));
    AtSplit(a, filesBlock, before, content);
    assert entry.offset == |before|;
    ContentAt(a, filesBlock, entry, content, checkCrc, filesBlock + |before|);
  }

  /** An entry whose range holds `content` has `content` as its bytes, and is
      accepted when the row's CRC is that of `content` or is not checked. */
  lemma ContentAt(a: Bytes, filesBlock: nat, entry: AddonEntry, content: Bytes, checkCrc: bool, start: nat)
    requires start == filesBlock + entry.offset && entry.size == |content| && At(a, start, content)
    requires checkCrc ==> entry.crc == ReversedCrc(content)
    ensures EntryOk(a, filesBlock, entry, checkCrc) && Content(a, filesBlock, entry) == content
  {
  }

  /** Every entry is accepted, and the children are the files' bytes. */
  lemma AttachEncoded(a: Bytes, filesBlock: nat, files: seq<Node>, sourceRoot: Bytes, doCrc: bool, checkCrc: bool,
                      rootPath: Bytes)
    requires checkCrc ==> doCrc
    requires At(a, filesBlock, Contents(files))
    ensures AttachFrom(a, filesBlock, EncodedEntries(files, sourceRoot, doCrc), checkCrc, rootPath, 0, [])
         == Success(DecodedFiles(files, sourceRoot, rootPath))
  {
    var entries := EncodedEntries(files, sourceRoot, doCrc);
    var decoded := DecodedFiles(files, sourceRoot, rootPath);
    forall k | 0 <= k < |entries|
      ensures EntryOk(a, filesBlock, entries[k], checkCrc)
      ensures Content(a, filesBlock, entries[k]) == files[k].content
    {
      EncodedEntryOk(a, filesBlock, files, sourceRoot, doCrc, checkCrc, k, entries[k]);
    }
    AttachFromAccepts(a, filesBlock, entries, checkCrc, rootPath, 0, []);
    var r := AttachFrom(a, filesBlock, entries, checkCrc, rootPath, 0, []).value;
    AttachAll(a, filesBlock, entries, checkCrc, rootPath, r);
    assert r == decoded;
  }

  // ---------------------------------------------------------------------------
  // The round trip

  /** A layout that parses, entries that all attach and, when checking, a
      matching trailer make the decoded addon. */
  lemma DecodeFromParts(a: Bytes, checkCrc: bool, rootPath: Bytes, layout: Layout, nodes: seq<Node>)
    requires ReadLayout(a, 0) == Success(layout)
    requires AttachFrom(a, layout.filesBlock, layout.entries, checkCrc, rootPath, 0, []) == Success(nodes)
    requires checkCrc ==> TrailerOk(a)
    ensures Decode(a, 0, checkCrc, rootPath)
         == Success(Gmad(layout.name, layout.description, layout.author, false, rootPath, nodes))
  {
  }

  /** Decoding an encoded archive, with the CRC checks on or, when the encoder
      wrote no checksums, off. */
  lemma DecodeEncodedWith(g: Gmad, timestamp: int, rootPath: Bytes, checkCrc: bool)
    requires Encodable(g) && (checkCrc ==> g.doCrc)
    ensures Decode(Archive(g, timestamp), 0, checkCrc, rootPath)
         == Success(Gmad(g.name, g.description, g.author, false, rootPath,
                         DecodedFiles(Files(g.nodes), g.rootPath, rootPath)))
  {
    var a := Archive(g, timestamp);
    var files := Files(g.nodes);
    var body := Body(g, timestamp);
    var header := Header(g, timestamp);
    var table := Table(files, g.rootPath, g.doCrc);
    var filesBlock := |header| + |table| + 4;
    var layout := Layout(Version, g.name, g.description, g.author, EncodedEntries(files, g.rootPath, g.doCrc),
                         filesBlock);
    assert At(a, 0, body);
    ReadEncodedLayout(g, timestamp, a, header, files, layout);
    AtSplit(a, 0, header + table + U32Bytes(0), Contents(files));
    AttachEncoded(a, filesBlock, files, g.rootPath, g.doCrc, checkCrc, rootPath);
    ArchiveTrailer(g, timestamp);
    DecodeFromParts(a, checkCrc, rootPath, layout, DecodedFiles(files, g.rootPath, rootPath));
  }

  /** Decoding an encoded addon gives back its name, description and author,
      and one child per file in the order the encoder met them, holding that
      file's bytes under the name the file was listed by ('/' read back as
      '\'). Decoding with the CRC checks on gives the same addon whenever the
      encoder wrote checksums. */
  lemma DecodeEncode(g: Gmad, timestamp: int, rootPath: Bytes, a: Bytes)
    requires Encodable(g) && Encode(g, timestamp) == Success(a)
    ensures Decode(a, 0, false, rootPath)
         == Success(Gmad(g.name, g.description, g.author, false, rootPath,
                         DecodedFiles(Files(g.nodes), g.rootPath, rootPath)))
    ensures g.doCrc ==> Decode(a, 0, true, rootPath) == Decode(a, 0, false, rootPath)
  {
    EncodeFailsOnEmptyFile(g, timestamp);
    DecodeEncodedWith(g, timestamp, rootPath, false);
    if g.doCrc {
      DecodeEncodedWith(g, timestamp, rootPath, true);
    }
  }
}

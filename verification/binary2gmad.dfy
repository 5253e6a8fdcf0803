/** The decoder: reads an archive from a byte stream into a `Gmad`.

    The functions below are the specification, one per stage of the parse; the
    class `Binary2Gmad` and the methods beside it are the converter itself,
    step by step over a reading position, and are proved to compute `Decode`. */
module Binary2Gmad {
  import opened Wrappers
  import opened Bytes
  import opened Crc
  import opened GmadFormat

  /** Why decoding stops. Each is an exception the converter (or the stream
      library under it) throws; none yields a partial addon. */
  datatype DecodeError =
    | EndOfStream                      // a read ran past the end of the stream
    | InvalidHeader                    // the first four bytes are not "GMAD"
    | UnsupportedVersion(version: byte)
    | EntryOutOfStream(name: Bytes)    // an entry's byte range is not inside the stream
    | EntryCrcMismatch(name: Bytes, computed: nat, stored: nat)
    | TrailerCrcMismatch

  /** A value read from the stream and the position just after it. */
  datatype Read<T> = Read(value: T, next: nat)

  // ---------------------------------------------------------------------------
  // The stream reader's primitives

  function ReadBytes(data: Bytes, pos: nat, n: nat): (r: Result<Read<Bytes>, DecodeError>)
    ensures r.Success? <==> pos + n <= |data|
    ensures r.Success? ==> |r.value.value| == n && r.value.next == pos + n
    ensures r.Failure? ==> r.error == EndOfStream
  {
    if pos + n <= |data| then Success(Read(data[pos..pos + n], pos + n)) else Failure(EndOfStream)
  }

  function ReadByte(data: Bytes, pos: nat): (r: Result<Read<byte>, DecodeError>)
    ensures r.Success? ==> pos < |data| && r.value.next == pos + 1
    ensures r.Failure? ==> r.error == EndOfStream && pos >= |data|
  {
    var b :- ReadBytes(data, pos, 1);
    Success(Read(b.value[0], b.next))
  }

  /** `ReadUInt32` (also used for the `int` fields that are only skipped). */
  function ReadUInt32(data: Bytes, pos: nat): (r: Result<Read<nat>, DecodeError>)
    ensures r.Success? <==> pos + 4 <= |data|
    ensures r.Success? ==> r.value.next == pos + 4
    ensures r.Failure? ==> r.error == EndOfStream
  {
    var b :- ReadBytes(data, pos, 4);
    Success(Read(U32Of(b.value), b.next))
  }

  function ReadInt64(data: Bytes, pos: nat): (r: Result<Read<int>, DecodeError>)
    ensures r.Success? <==> pos + 8 <= |data|
    ensures r.Success? ==> r.value.next == pos + 8
    ensures r.Failure? ==> r.error == EndOfStream
  {
    var b :- ReadBytes(data, pos, 8);
    Success(Read(I64Of(b.value), b.next))
  }

  /** The position of the first NUL at or after `i`, if there is one. */
  function NulIndex(data: Bytes, i: nat): (r: Option<nat>)
    ensures r.Some? ==> i <= r.value < |data| && data[r.value] == NUL
    decreases |data| - i
  {
    if i >= |data| then None
    else if data[i] == NUL then Some(i)
    else NulIndex(data, i + 1)
  }

  /** The NUL found is the first one: none lies between `i` and it, nor, when
      none is found, anywhere after `i`. */
  lemma {:induction false} NulIndexFirst(data: Bytes, i: nat)
    ensures NulIndex(data, i).Some? ==> forall k :: i <= k < NulIndex(data, i).value ==> data[k] != NUL
    ensures NulIndex(data, i).None? ==> forall k :: i <= k < |data| ==> data[k] != NUL
    decreases |data| - i
  {
    if i < |data| && data[i] != NUL {
      NulIndexFirst(data, i + 1);
    }
  }

  /** `ReadString`: the bytes up to the next NUL, and the position after it. */
  function ReadString(data: Bytes, pos: nat): (r: Result<Read<Bytes>, DecodeError>)
    ensures r.Success? ==> r.value.next == pos + |r.value.value| + 1 <= |data|
    ensures r.Failure? ==> r.error == EndOfStream
  {
    match NulIndex(data, pos)
    case None => Failure(EndOfStream)
    case Some(j) => Success(Read(data[pos..j], j + 1))
  }

  // ---------------------------------------------------------------------------
  // Stage 1: magic, version gate, owner id and timestamp

  /** The magic check, one byte at a time as the converter's short-circuit
      condition does it: the `i`-th byte must exist and equal `Magic[i]`. */
  function CheckMagic(data: Bytes, pos: nat, i: nat): (r: Result<nat, DecodeError>)
    requires i <= 4
    ensures r.Failure? ==> r.error == EndOfStream || r.error == InvalidHeader
    decreases 4 - i
  {
    if i == 4 then Success(pos + 4)
    else if pos + i >= |data| then Failure(EndOfStream)
    else if data[pos + i] != Magic[i] then Failure(InvalidHeader)
    else CheckMagic(data, pos, i + 1)
  }

  /** What the fixed-size header leaves: the version and where the rest starts. */
  datatype Preamble = Preamble(version: byte, next: nat)

  function ReadPreamble(data: Bytes, start: nat): (r: Result<Preamble, DecodeError>)
    ensures r.Success? ==> r.value.version <= Version && r.value.next == start + 21 <= |data|
    ensures r.Failure? ==> r.error == EndOfStream || r.error == InvalidHeader ||
                           (r.error.UnsupportedVersion? && r.error.version > Version)
  {
    var p :- CheckMagic(data, start, 0);
    var version :- ReadByte(data, p);
    if version.value > Version then Failure(UnsupportedVersion(version.value))
    else
      var owner :- ReadBytes(data, version.next, 8);     // owner id, discarded
      var timestamp :- ReadBytes(data, owner.next, 8);   // timestamp, discarded
      Success(Preamble(version.value, timestamp.next))
  }

  // ---------------------------------------------------------------------------
  // Stage 2: the legacy string list (versions above 1)

  /** Reads strings until one is empty; the position after that empty one. */
  function SkipLegacy(data: Bytes, pos: nat): (r: Result<nat, DecodeError>)
    ensures r.Success? ==> pos < r.value <= |data|
    ensures r.Failure? ==> r.error == EndOfStream
    decreases |data| - pos
  {
    var content :- ReadString(data, pos);
    if content.value == [] then Success(content.next) else SkipLegacy(data, content.next)
  }

  /** Where the metadata starts, after the legacy list if the version has one. */
  function MetadataStart(data: Bytes, preamble: Preamble): (r: Result<nat, DecodeError>)
    ensures preamble.version <= 1 ==> r == Success(preamble.next)
    ensures preamble.version > 1 && r.Success? ==> preamble.next < r.value <= |data|
    ensures r.Failure? ==> r.error == EndOfStream
  {
    if preamble.version > 1 then SkipLegacy(data, preamble.next) else Success(preamble.next)
  }

  // ---------------------------------------------------------------------------
  // Stage 3: name, description, author, addon version

  datatype Metadata = Metadata(name: Bytes, description: Bytes, author: Bytes, next: nat)

  function ReadMetadata(data: Bytes, pos: nat): (r: Result<Metadata, DecodeError>)
    ensures r.Success? ==> pos + 7 <= r.value.next <= |data|
  {
    var name :- ReadString(data, pos);
    var description :- ReadString(data, name.next);
    var author :- ReadString(data, description.next);
    var addonVersion :- ReadBytes(data, author.next, 4);   // discarded
    Success(Metadata(name.value, description.value, author.value, addonVersion.next))
  }

  // ---------------------------------------------------------------------------
  // Stage 4: the file table

  /** One row of the file table: the name with '/' turned into '\', the
      declared size and CRC, the 0-based file number and the running offset of
      the entry in the contents block. */
  datatype AddonEntry = AddonEntry(name: Bytes, size: int, crc: nat, fileNumber: nat, offset: int)

  /** One row after its non-zero index: the name, the size and the CRC. The
      row gets the file number and offset the loop has reached. */
  function ReadEntry(data: Bytes, pos: nat, fileNumber: nat, offset: int): (r: Result<Read<AddonEntry>, DecodeError>)
    ensures r.Success? ==> pos < r.value.next <= |data|
    ensures r.Failure? ==> r.error == EndOfStream
  {
    var name :- ReadString(data, pos);
    var size :- ReadInt64(data, name.next);
    var crc :- ReadUInt32(data, size.next);
    Success(Read(AddonEntry(ReplaceByte(name.value, SLASH, BACKSLASH), size.value, crc.value, fileNumber, offset),
                 crc.next))
  }

  /** Reads entries until a zero index, appending them to `entries`; `offset` is
      the running total of the sizes read so far. Gives the entries and the
      position after the zero index. */
  function ReadTable(data: Bytes, pos: nat, entries: seq<AddonEntry>, offset: int)
    : (r: Result<Read<seq<AddonEntry>>, DecodeError>)
    ensures r.Success? ==> pos + 4 <= r.value.next <= |data|
    ensures r.Failure? ==> r.error == EndOfStream
    decreases |data| - pos
  {
    var index :- ReadUInt32(data, pos);
    if index.value == 0 then Success(Read(entries, index.next))
    else
      var entry :- ReadEntry(data, index.next, |entries|, offset);
      ReadTable(data, entry.next, entries + [entry.value], offset + entry.value.size)
  }

  /** A stream that ends before the next index ends the table with a failure. */
  lemma ReadTableNoIndex(data: Bytes, pos: nat, entries: seq<AddonEntry>, offset: int)
    requires ReadUInt32(data, pos).Failure?
    ensures ReadTable(data, pos, entries, offset) == Failure(EndOfStream)
  {
  }

  /** A zero index ends the table. */
  lemma ReadTableStop(data: Bytes, pos: nat, entries: seq<AddonEntry>, offset: int)
    requires ReadUInt32(data, pos).Success? && ReadUInt32(data, pos).value.value == 0
    ensures ReadTable(data, pos, entries, offset) == Success(Read(entries, pos + 4))
    ensures U32Of(data[pos..pos + 4]) == 0
  {
  }

  /** After a non-zero index, the table goes on after the entry. */
  lemma ReadTableStep(data: Bytes, pos: nat, entries: seq<AddonEntry>, offset: int, index: Read<nat>,
                      entry: Read<AddonEntry>, nextOffset: int)
    requires ReadUInt32(data, pos) == Success(index) && index.value != 0
    requires ReadEntry(data, index.next, |entries|, offset) == Success(entry)
    requires nextOffset == offset + entry.value.size
    ensures ReadTable(data, pos, entries, offset) == ReadTable(data, entry.next, entries + [entry.value], nextOffset)
  {
  }

  /** After a non-zero index, an entry cut short ends the table with a failure. */
  lemma ReadTableTruncated(data: Bytes, pos: nat, entries: seq<AddonEntry>, offset: int, index: Read<nat>)
    requires ReadUInt32(data, pos) == Success(index) && index.value != 0
    requires ReadEntry(data, index.next, |entries|, offset).Failure?
    ensures ReadTable(data, pos, entries, offset) == Failure(EndOfStream)
  {
  }

  /** Everything the parse learns before it touches the contents block. */
  datatype Layout = Layout(
    version: byte,
    name: Bytes,
    description: Bytes,
    author: Bytes,
    entries: seq<AddonEntry>,
    filesBlock: nat)   // the position just after the zero index

  function ReadLayout(data: Bytes, start: nat): (r: Result<Layout, DecodeError>)
    ensures r.Success? ==> 4 <= r.value.filesBlock <= |data|
  {
    var preamble :- ReadPreamble(data, start);
    var p :- MetadataStart(data, preamble);
    var metadata :- ReadMetadata(data, p);
    var table :- ReadTable(data, metadata.next, [], 0);
    Success(Layout(preamble.version, metadata.name, metadata.description, metadata.author,
                   table.value, table.next))
  }

  // ---------------------------------------------------------------------------
  // Stage 5: one root child per entry, CRC checks

  /** The range check of the stream library when it makes a sub-stream of
      `size` bytes at `offset` of a stream of `length` bytes. */
  predicate InStream(length: nat, offset: int, size: int) {
    0 <= offset <= length && 0 <= size && offset + size <= length
  }

  /** The node for one entry: the bytes of its range, checked against the stored
      CRC when `checkCrc` holds. */
  function EntryNode(data: Bytes, filesBlock: nat, entry: AddonEntry, checkCrc: bool, rootPath: Bytes)
    : (r: Result<Node, DecodeError>)
    ensures r.Success? ==> InStream(|data|, filesBlock + entry.offset, entry.size)
    ensures r.Success? ==> r.value.path == ChildPath(rootPath, entry.name) && !r.value.isContainer &&
                           |r.value.content| == entry.size
    ensures r.Success? && checkCrc ==> Crc32(r.value.content) == entry.crc
    ensures r.Failure? ==> r.error == EntryOutOfStream(entry.name) ||
                           (checkCrc && r.error.EntryCrcMismatch? && r.error.name == entry.name)
  {
    var start := filesBlock + entry.offset;
    if !InStream(|data|, start, entry.size) then Failure(EntryOutOfStream(entry.name))
    else
      var content := data[start..start + entry.size];
      if checkCrc && ReversedCrc(content) != entry.crc then
        Failure(EntryCrcMismatch(entry.name, ReversedCrc(content), entry.crc))
      else
        Success(Node(ChildPath(rootPath, entry.name), false, content))
  }

  /** The nodes for `entries[i..]`, appended to `nodes`, or the first entry's failure. */
  function AttachFrom(data: Bytes, filesBlock: nat, entries: seq<AddonEntry>, checkCrc: bool,
                      rootPath: Bytes, i: nat, nodes: seq<Node>): (r: Result<seq<Node>, DecodeError>)
    requires i <= |entries|
    ensures r.Success? ==> |r.value| == |nodes| + |entries| - i && r.value[..|nodes|] == nodes
    decreases |entries| - i
  {
    if i == |entries| then Success(nodes)
    else
      var node :- EntryNode(data, filesBlock, entries[i], checkCrc, rootPath);
      AttachFrom(data, filesBlock, entries, checkCrc, rootPath, i + 1, nodes + [node])
  }

  /** One turn of the attach loop. */
  lemma AttachStep(data: Bytes, filesBlock: nat, entries: seq<AddonEntry>, checkCrc: bool,
                   rootPath: Bytes, i: nat, nodes: seq<Node>)
    requires i < |entries|
    ensures var node := EntryNode(data, filesBlock, entries[i], checkCrc, rootPath);
            AttachFrom(data, filesBlock, entries, checkCrc, rootPath, i, nodes)
              == if node.Failure? then Failure(node.error)
                 else AttachFrom(data, filesBlock, entries, checkCrc, rootPath, i + 1, nodes + [node.value])
  {
  }

  /** The whole-archive check: the last four bytes, read as a `uint`, are the
      checksum of everything before them. */
  predicate TrailerOk(data: Bytes): (r: bool)
    ensures r <==> |data| >= 4 && U32Of(data[|data| - 4..]) == Crc32(data[..|data| - 4])
  {
    |data| >= 4 && U32Of(data[|data| - 4..]) == ReversedCrc(data[..|data| - 4])
  }

  /** Reading a `uint` at four bytes before the end reads the trailer. */
  lemma ReadTrailer(data: Bytes)
    requires |data| >= 4
    ensures ReadUInt32(data, |data| - 4) == Success(Read(U32Of(data[|data| - 4..]), |data|))
  {
    assert data[|data| - 4..|data|] == data[|data| - 4..];
  }

  /** Decoding the stream `data` from position `start`. `rootPath` is the path
      of the root node of a freshly made addon; the decoded addon's `doCrc` is
      the record's default, false. */
  function Decode(data: Bytes, start: nat, checkCrc: bool, rootPath: Bytes): (r: Result<Gmad, DecodeError>)
    ensures r.Success? ==> ReadLayout(data, start).Success? &&
                           |r.value.nodes| == |ReadLayout(data, start).value.entries|
    ensures r.Success? ==> !r.value.doCrc && r.value.rootPath == rootPath
    ensures r.Success? && checkCrc ==> TrailerOk(data)
  {
    var layout :- ReadLayout(data, start);
    var nodes :- AttachFrom(data, layout.filesBlock, layout.entries, checkCrc, rootPath, 0, []);
    if checkCrc && !TrailerOk(data) then Failure(TrailerCrcMismatch)
    else Success(Gmad(layout.name, layout.description, layout.author, false, rootPath, nodes))
  }

  // ---------------------------------------------------------------------------
  // The converter

  /** The legacy-list loop: read a string, and go on reading while the last
      one read is not empty. */
  method SkipLegacyStrings(data: Bytes, pos: nat) returns (r: Result<nat, DecodeError>)
    ensures r == SkipLegacy(data, pos)
  {
    var at := pos;
    var content :- ReadString(data, at);
    while content.value != []
      invariant ReadString(data, at) == Success(content)
      invariant SkipLegacy(data, pos) == SkipLegacy(data, at)
      decreases |data| - content.next
    {
      at := content.next;
      content :- ReadString(data, at);
    }
    r := Success(content.next);
  }

  /** The file-table loop: while the index read is not zero, read an entry,
      number it and give it the running offset. */
  method ReadEntries(data: Bytes, pos: nat) returns (r: Result<Read<seq<AddonEntry>>, DecodeError>)
    ensures r == ReadTable(data, pos, [], 0)
  {
    var entries: seq<AddonEntry> := [];
    var fileNumber: nat := 0;
    var offset: int := 0;
    var at := pos;
    ghost var table := ReadTable(data, pos, entries, offset);
    while true
      invariant table == ReadTable(data, at, entries, offset)
      invariant fileNumber == |entries|
      decreases |data| - at
    {
      var index := ReadUInt32(data, at);
      if index.Failure? {
        ReadTableNoIndex(data, at, entries, offset);
        return Failure(EndOfStream);
      }
      if index.value.value == 0 {
        ReadTableStop(data, at, entries, offset);
        return Success(Read(entries, index.value.next));
      }
      var read := ReadEntry(data, index.value.next, fileNumber, offset);
      if read.Failure? {
        ReadTableTruncated(data, at, entries, offset, index.value);
        return Failure(EndOfStream);
      }
      var entry := read.value;
      var nextOffset := offset + entry.value.size;
      ReadTableStep(data, at, entries, offset, index.value, entry, nextOffset);
      offset := nextOffset;
      fileNumber := fileNumber + 1;
      entries := entries + [entry.value];
      at := entry.next;
    }
  }

  /** Everything up to the contents block: the magic check, the version gate,
      the skipped owner id and timestamp, the legacy list, the metadata, the
      skipped addon version and the file table. */
  method ReadHeaderAndTable(data: Bytes, start: nat) returns (r: Result<Layout, DecodeError>)
    ensures r == ReadLayout(data, start)
  {
    var afterMagic :- CheckMagic(data, start, 0);
    var version :- ReadByte(data, afterMagic);
    if version.value > Version {
      return Failure(UnsupportedVersion(version.value));
    }
    var owner :- ReadBytes(data, version.next, 8);
    var timestamp :- ReadBytes(data, owner.next, 8);
    ghost var preamble := Preamble(version.value, timestamp.next);
    assert ReadPreamble(data, start) == Success(preamble);
    var at := timestamp.next;
    if version.value > 1 {
      at :- SkipLegacyStrings(data, at);
    }
    assert MetadataStart(data, preamble) == Success(at);
    var name :- ReadString(data, at);
    var description :- ReadString(data, name.next);
    var author :- ReadString(data, description.next);
    var addonVersion :- ReadBytes(data, author.next, 4);
    assert ReadMetadata(data, at)
        == Success(Metadata(name.value, description.value, author.value, addonVersion.next));
    var table :- ReadEntries(data, addonVersion.next);
    r := Success(Layout(version.value, name.value, description.value, author.value, table.value, table.next));
  }

  /** The loop over the entries: cut each one's range out of the stream, check
      its CRC if asked to, and add it under the root. */
  method AttachEntries(data: Bytes, filesBlock: nat, entries: seq<AddonEntry>, checkCrc: bool, rootPath: Bytes)
    returns (r: Result<seq<Node>, DecodeError>)
    ensures r == AttachFrom(data, filesBlock, entries, checkCrc, rootPath, 0, [])
  {
    var nodes: seq<Node> := [];
    ghost var attached := AttachFrom(data, filesBlock, entries, checkCrc, rootPath, 0, nodes);
    for i := 0 to |entries|
      invariant attached == AttachFrom(data, filesBlock, entries, checkCrc, rootPath, i, nodes)
    {
      var entry := entries[i];
      AttachStep(data, filesBlock, entries, checkCrc, rootPath, i, nodes);
      var start := filesBlock + entry.offset;
      if !InStream(|data|, start, entry.size) {
        return Failure(EntryOutOfStream(entry.name));
      }
      var stream := data[start..start + entry.size];
      if checkCrc {
        var crc := ReversedCrc(stream);
        if crc != entry.crc {
          return Failure(EntryCrcMismatch(entry.name, crc, entry.crc));
        }
      }
      nodes := nodes + [Node(ChildPath(rootPath, entry.name), false, stream)];
    }
    r := Success(nodes);
  }

  /** A seekable byte stream: its contents and its current position. */
  class DataStream {
    const bytes: Bytes
    var position: nat

    constructor (bytes: Bytes)
      ensures this.bytes == bytes && position == 0
    {
      this.bytes := bytes;
      position := 0;
    }
  }

  /** The decoding converter; `checkCrc` is set by `Initialize`. */
  class Binary2Gmad {
    var checkCrc: bool

    constructor ()
      ensures !checkCrc
    {
      checkCrc := false;
    }

    /** A missing flag means no checking. */
    method Initialize(checkCrc: Option<bool>)
      modifies this
      ensures this.checkCrc == (checkCrc == Some(true))
    {
      match checkCrc
      case Some(value) => this.checkCrc := value;
      case None => this.checkCrc := false;
    }

    /** The trailer check: seek to four bytes before the end, hash everything
        before them, then read the stored `uint`, which leaves the stream at
        its end. */
    method CheckTrailer(source: DataStream) returns (ok: bool)
      requires |source.bytes| >= 4
      modifies source
      ensures ok == TrailerOk(source.bytes)
      ensures source.position == |source.bytes|
    {
      var data := source.bytes;
      var trailerAt := |data| - 4;
      source.position := trailerAt;
      var crc := ReversedCrc(data[..trailerAt]);
      ReadTrailer(data);
      var stored := ReadUInt32(data, trailerAt).value;
      source.position := stored.next;
      ok := crc == stored.value;
    }

    /** Decodes `source` from its current position. The reader's cursor is
        followed by the helper methods. The stream's own position is moved
        where the converter moves it: to 0 after the table, to the trailer and
        past it when checking, and back to 0 on success. A read that fails
        within the header or the table leaves it where decoding began. */
    method Convert(source: DataStream, rootPath: Bytes) returns (r: Result<Gmad, DecodeError>)
      modifies source
      ensures r == Decode(source.bytes, old(source.position), checkCrc, rootPath)
      ensures r.Success? ==> source.position == 0
    {
      var data := source.bytes;
      var start := source.position;
      var layout :- ReadHeaderAndTable(data, start);
      source.position := 0;
      var nodes :- AttachEntries(data, layout.filesBlock, layout.entries, checkCrc, rootPath);
      if checkCrc {
        var ok := CheckTrailer(source);
        if !ok {
          return Failure(TrailerCrcMismatch);
        }
      }
      source.position := 0;
      r := Success(Gmad(layout.name, layout.description, layout.author, false, rootPath, nodes));
    }
  }
}

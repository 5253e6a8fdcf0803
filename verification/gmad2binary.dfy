/** The encoder: writes a `Gmad` as an archive.

    The functions below say what the archive is, field by field; the class
    `Gmad2Binary` is the converter itself, appending to a growing stream in the
    two passes over the tree's nodes that the source makes, and is proved to
    produce `Encode`. */
module Gmad2Binary {
  import opened Wrappers
  import opened Bytes
  import opened Crc
  import opened GmadFormat

  /** The one way encoding stops: a file with no bytes, named by its path. */
  datatype EncodeError = EmptyFile(path: Bytes)

  // ---------------------------------------------------------------------------
  // The archive, field by field

  /** The files of the tree in iteration order: every node that is not a
      container. */
  function Files(nodes: seq<Node>): (r: seq<Node>)
    ensures |r| <= |nodes|
  {
    if nodes == [] then []
    else
      var last := nodes[|nodes| - 1];
      Files(nodes[..|nodes| - 1]) + (if last.isContainer then [] else [last])
  }

  /** The name a file is listed under: its path with every occurrence of the
      root's path and a separator removed (an ordinal `string.Replace`), in
      lower case, with every '\' turned into '/'. */
  function FileName(rootPath: Bytes, path: Bytes): (r: Bytes)
    ensures |r| <= |path|
  {
    ReplaceByte(AsciiLower(RemoveAll(path, rootPath + [SLASH])), BACKSLASH, SLASH)
  }

  /** The CRC field of a table row: the checksum of the file's bytes when the
      addon asks for checksums, else zero. */
  function CrcField(content: Bytes, doCrc: bool): (r: nat)
    ensures r < TWO_32
    ensures !doCrc ==> r == 0
  {
    if doCrc then ReversedCrc(content) else 0
  }

  /** The fixed header and the metadata: the magic, the version, a zero owner
      id, the timestamp, one zero byte (an empty legacy list), the three
      strings, and the addon version 1. */
  function Header(g: Gmad, timestamp: int): (r: Bytes)
    ensures |r| == 22 + |g.name| + |g.description| + |g.author| + 3 + 4
  {
    Magic + [Version] + I64Bytes(0) + I64Bytes(timestamp) + [0]
      + CString(g.name) + CString(g.description) + CString(g.author) + U32Bytes(1)
  }

  /** One table row: the `uint` index, the name, the size and the CRC field. */
  function EntryBytes(index: nat, file: Node, rootPath: Bytes, doCrc: bool): (r: Bytes)
    ensures |r| == 4 + |FileName(rootPath, file.path)| + 1 + 8 + 4
  {
    U32Bytes(index) + CString(FileName(rootPath, file.path)) + I64Bytes(|file.content|)
      + U32Bytes(CrcField(file.content, doCrc))
  }

  /** The rows of `files`, the k-th (from 1) with index k, as a `uint` that
      wraps around at 2^32. */
  function Table(files: seq<Node>, rootPath: Bytes, doCrc: bool): (r: Bytes)
  {
    if files == [] then []
    else
      Table(files[..|files| - 1], rootPath, doCrc)
        + EntryBytes(|files| % TWO_32, files[|files| - 1], rootPath, doCrc)
  }

  /** The bytes of `files`, one after the other. */
  function Contents(files: seq<Node>): (r: Bytes)
  {
    if files == [] then [] else Contents(files[..|files| - 1]) + files[|files| - 1].content
  }

  /** Everything before the trailer. */
  function Body(g: Gmad, timestamp: int): (r: Bytes)
    ensures Header(g, timestamp) <= r
    ensures var end := |Header(g, timestamp)| + |Table(Files(g.nodes), g.rootPath, g.doCrc)|;
            end + 4 <= |r| && r[end..end + 4] == [0, 0, 0, 0]
  {
    var files := Files(g.nodes);
    var header := Header(g, timestamp);
    var table := Table(files, g.rootPath, g.doCrc);
    var r := header + table + U32Bytes(0) + Contents(files);
    assert r[|header| + |table|..|header| + |table| + 4] == U32Bytes(0);
    r
  }

  /** The whole archive: the body and a trailer holding the checksum of the
      body, or zero. */
  function Archive(g: Gmad, timestamp: int): (r: Bytes)
    ensures |r| == |Body(g, timestamp)| + 4
    ensures r[..|r| - 4] == Body(g, timestamp)
    ensures r[|r| - 4..] == U32Bytes(CrcField(Body(g, timestamp), g.doCrc))
  {
    var body := Body(g, timestamp);
    body + U32Bytes(CrcField(body, g.doCrc))
  }

  /** The position among `files` of the first one with no bytes, if any. */
  function FirstEmpty(files: seq<Node>): (r: Option<nat>)
    ensures r.Some? ==> r.value < |files| && files[r.value].content == [] &&
                        forall k :: 0 <= k < r.value ==> files[k].content != []
    ensures r.None? ==> forall k :: 0 <= k < |files| ==> files[k].content != []
  {
    if files == [] then None
    else
      var prefix := files[..|files| - 1];
      var first := FirstEmpty(prefix);
      if first.Some? then first
      else if files[|files| - 1].content == [] then Some(|files| - 1)
      else None
  }

  /** Encoding `g` at time `timestamp`: the archive, or the first file that is
      empty. */
  function Encode(g: Gmad, timestamp: int): (r: Result<Bytes, EncodeError>)
    ensures r.Success? <==> FirstEmpty(Files(g.nodes)).None?
    ensures r.Success? ==> |r.value| >= 37 && r.value[..4] == Magic
  {
    var files := Files(g.nodes);
    match FirstEmpty(files)
    case Some(k) => Failure(EmptyFile(files[k].path))
    case None => ArchiveOpens(g, timestamp); Success(Archive(g, timestamp))
  }

  /** An archive opens with the magic and holds at least the fixed header, the
      metadata's NULs and addon version, the zero index and the trailer. */
  lemma ArchiveOpens(g: Gmad, timestamp: int)
    ensures |Archive(g, timestamp)| >= 37 && Archive(g, timestamp)[..4] == Magic
  {
    var a := Archive(g, timestamp);
    var b := Body(g, timestamp);
    var h := Header(g, timestamp);
    assert a[..|a| - 4] == b;
    assert h[..4] == Magic;
    assert a[..4] == b[..4] == h[..4];
  }

  // ---------------------------------------------------------------------------
  // Facts the converter's loops rely on

  /** Visiting one more node adds it to the files unless it is a container. */
  lemma FilesStep(nodes: seq<Node>, i: nat)
    requires i < |nodes|
    ensures Files(nodes[..i + 1]) == Files(nodes[..i]) + (if nodes[i].isContainer then [] else [nodes[i]])
  {
    assert nodes[..i + 1][..i] == nodes[..i];
  }

  /** A container adds no file. */
  lemma FilesSkip(nodes: seq<Node>, i: nat)
    requires i < |nodes| && nodes[i].isContainer
    ensures Files(nodes[..i + 1]) == Files(nodes[..i])
  {
    FilesStep(nodes, i);
  }

  /** A node that is not a container adds itself. */
  lemma FilesKeep(nodes: seq<Node>, i: nat)
    requires i < |nodes| && !nodes[i].isContainer
    ensures Files(nodes[..i + 1]) == Files(nodes[..i]) + [nodes[i]]
  {
    FilesStep(nodes, i);
  }

  /** The files of a prefix of the nodes are a prefix of the files. */
  lemma {:induction false} FilesPrefix(nodes: seq<Node>, i: nat)
    requires i <= |nodes|
    ensures Files(nodes[..i]) <= Files(nodes)
    decreases |nodes| - i
  {
    if i < |nodes| {
      FilesStep(nodes, i);
      FilesPrefix(nodes, i + 1);
    } else {
      assert nodes[..i] == nodes;
    }
  }

  /** A file with no bytes after non-empty ones is the first empty one of any
      sequence of files that starts with them. */
  lemma FirstEmptyAt(files: seq<Node>, prefix: seq<Node>, file: Node)
    requires prefix + [file] <= files && FirstEmpty(prefix).None? && file.content == []
    ensures FirstEmpty(files) == Some(|prefix|)
  {
    assert files[|prefix|] == file;
    forall k | 0 <= k < |prefix|
      ensures files[k].content != []
    {
      assert files[k] == prefix[k];
    }
  }

  /** An empty file after files with bytes is the first empty file. */
  lemma EmptyFileAt(nodes: seq<Node>, i: nat, files: seq<Node>)
    requires i < |nodes| && !nodes[i].isContainer && nodes[i].content == []
    requires files == Files(nodes[..i]) && Files(nodes[..i + 1]) == files + [nodes[i]]
    requires FirstEmpty(files).None?
    ensures FirstEmpty(Files(nodes)) == Some(|files|) && Files(nodes)[|files|] == nodes[i]
    ensures Files(nodes)[..|files|] == files
  {
    var all := Files(nodes);
    FilesPrefix(nodes, i + 1);
    PrefixParts(all, files, nodes[i]);
    FirstEmptyAt(all, files, nodes[i]);
  }

  lemma PrefixParts(all: seq<Node>, prefix: seq<Node>, x: Node)
    requires prefix + [x] <= all
    ensures all[..|prefix|] == prefix && all[|prefix|] == x
  {
    assert all[..|prefix|] == (prefix + [x])[..|prefix|];
  }

  /** When no file is empty, every file of the tree has at least one byte. */
  lemma NoEmptyFile(nodes: seq<Node>, i: nat)
    requires i < |nodes| && !nodes[i].isContainer && FirstEmpty(Files(nodes)).None?
    ensures |nodes[i].content| >= 1
  {
    FilesStep(nodes, i);
    FilesPrefix(nodes, i + 1);
    assert Files(nodes)[|Files(nodes[..i])|] == nodes[i];
  }

  // ---------------------------------------------------------------------------
  // The converter

  /** The header and the metadata strings, at the start of the stream. */
  method WriteHeader(writer: DataWriter, source: Gmad, timestamp: int)
    requires writer.stream == []
    modifies writer
    ensures writer.stream == Header(source, timestamp)
  {
    writer.WriteBytes(Magic);
    assert writer.stream == Magic;
    writer.WriteByte(Version);
    writer.WriteInt64(0);
    writer.WriteInt64(timestamp);
    writer.WriteByte(0);
    writer.WriteString(source.name);
    writer.WriteString(source.description);
    writer.WriteString(source.author);
    writer.WriteUInt32(1);
  }

  /** One table row for `file`, whose index is `fileNum`. */
  method WriteEntry(writer: DataWriter, fileNum: nat, file: Node, rootPath: Bytes, doCrc: bool)
    requires fileNum < TWO_32
    modifies writer
    ensures writer.stream == old(writer.stream) + EntryBytes(fileNum, file, rootPath, doCrc)
  {
    ghost var before := writer.stream;
    writer.WriteUInt32(fileNum);
    var filename := ReplaceByte(AsciiLower(RemoveAll(file.path, rootPath + [SLASH])), BACKSLASH, SLASH);
    writer.WriteString(filename);
    writer.WriteInt64(|file.content|);
    if doCrc {
      var crc := ReversedCrc(file.content);
      writer.WriteUInt32(crc);
    } else {
      writer.WriteUInt32(0);
    }
    AppendFour(before, U32Bytes(fileNum), CString(filename), I64Bytes(|file.content|), U32Bytes(CrcField(file.content, doCrc)));
  }

  /** `fileNum++` on a `uint` that holds `n` modulo 2^32. */
  lemma UIntIncrement(n: nat, fileNum: nat)
    requires fileNum == n % TWO_32
    ensures (fileNum + 1) % TWO_32 == (n + 1) % TWO_32
  {
  }

  lemma AppendAssoc(a: Bytes, b: Bytes, c: Bytes)
    ensures a + b + c == a + (b + c)
  {
  }

  /** A file added after the others adds its row, indexed by its position
      from 1 as a `uint`. */
  lemma TableAppend(files: seq<Node>, file: Node, rootPath: Bytes, doCrc: bool, index: nat)
    requires index == (|files| + 1) % TWO_32
    ensures Table(files + [file], rootPath, doCrc) == Table(files, rootPath, doCrc) + EntryBytes(index, file, rootPath, doCrc)
  {
    assert (files + [file])[..|files|] == files;
  }

  lemma ContentsAppend(files: seq<Node>, file: Node)
    ensures Contents(files + [file]) == Contents(files) + file.content
  {
    assert (files + [file])[..|files|] == files;
  }

  /** A file with bytes added after files with bytes leaves no empty file. */
  lemma FirstEmptyAppend(files: seq<Node>, file: Node)
    requires FirstEmpty(files).None? && file.content != []
    ensures FirstEmpty(files + [file]).None?
  {
    assert (files + [file])[..|files|] == files;
  }

  lemma AppendFour(s: Bytes, a: Bytes, b: Bytes, c: Bytes, d: Bytes)
    ensures s + a + b + c + d == s + (a + b + c + d)
  {
  }

  /** The first pass: one row per file, numbered from 1, stopping at the
      first file with no bytes. Gives the last index written. */
  method WriteTable(writer: DataWriter, nodes: seq<Node>, rootPath: Bytes, doCrc: bool)
    returns (r: Result<nat, EncodeError>)
    modifies writer
    ensures r.Success? <==> FirstEmpty(Files(nodes)).None?
    ensures r.Success? ==> writer.stream == old(writer.stream) + Table(Files(nodes), rootPath, doCrc)
    ensures r.Failure? ==> r.error == EmptyFile(Files(nodes)[FirstEmpty(Files(nodes)).value].path)
    ensures r.Failure? ==>
              writer.stream == old(writer.stream) + Table(Files(nodes)[..FirstEmpty(Files(nodes)).value], rootPath, doCrc)
  {
    ghost var start := writer.stream;
    ghost var files: seq<Node> := [];
    assert nodes[..0] == [];
    var fileNum: nat := 0;
    for i := 0 to |nodes|
      invariant files == Files(nodes[..i])
      invariant writer.stream == start + Table(files, rootPath, doCrc)
      invariant fileNum == |files| % TWO_32
      invariant FirstEmpty(files).None?
    {
      var file := nodes[i];
      if file.isContainer {
        FilesSkip(nodes, i);
        continue;
      }
      FilesKeep(nodes, i);
      if |file.content| <= 0 {
        EmptyFileAt(nodes, i, files);
        return Failure(EmptyFile(file.path));
      }
      fileNum := WriteNextRow(writer, start, files, fileNum, file, rootPath, doCrc);
      files := files + [file];
    }
    assert nodes[..|nodes|] == nodes;
    r := Success(fileNum);
  }

  /** `fileNum++`, then the row of a file with bytes, after the rows of
      `files`. */
  method WriteNextRow(writer: DataWriter, ghost start: Bytes, ghost files: seq<Node>, fileNum: nat, file: Node,
                      rootPath: Bytes, doCrc: bool)
    returns (next: nat)
    requires fileNum == |files| % TWO_32 && writer.stream == start + Table(files, rootPath, doCrc)
    requires FirstEmpty(files).None? && file.content != []
    modifies writer
    ensures next == |files + [file]| % TWO_32
    ensures writer.stream == start + Table(files + [file], rootPath, doCrc)
    ensures FirstEmpty(files + [file]).None?
  {
    TableStep(start, files, file, rootPath, doCrc, fileNum, (fileNum + 1) % TWO_32);
    next := (fileNum + 1) % TWO_32;
    WriteEntry(writer, next, file, rootPath, doCrc);
  }

  /** One more row keeps the first pass's invariant. */
  lemma TableStep(start: Bytes, files: seq<Node>, file: Node, rootPath: Bytes, doCrc: bool, fileNum: nat, next: nat)
    requires fileNum == |files| % TWO_32 && next == (fileNum + 1) % TWO_32
    requires FirstEmpty(files).None? && file.content != []
    ensures next == |files + [file]| % TWO_32
    ensures start + Table(files, rootPath, doCrc) + EntryBytes(next, file, rootPath, doCrc)
         == start + Table(files + [file], rootPath, doCrc)
    ensures FirstEmpty(files + [file]).None?
  {
    UIntIncrement(|files|, fileNum);
    TableAppend(files, file, rootPath, doCrc, next);
    AppendAssoc(start, Table(files, rootPath, doCrc), EntryBytes(next, file, rootPath, doCrc));
    FirstEmptyAppend(files, file);
  }

  /** The second pass: the bytes of every file, in the same order. Each write
      must add at least one byte; with no empty file that cannot fail. */
  method WriteContents(writer: DataWriter, nodes: seq<Node>)
    requires FirstEmpty(Files(nodes)).None?
    modifies writer
    ensures writer.stream == old(writer.stream) + Contents(Files(nodes))
  {
    ghost var start := writer.stream;
    ghost var files: seq<Node> := [];
    assert nodes[..0] == [];
    for i := 0 to |nodes|
      invariant files == Files(nodes[..i])
      invariant writer.stream == start + Contents(files)
    {
      var file := nodes[i];
      if file.isContainer {
        FilesSkip(nodes, i);
        continue;
      }
      FilesKeep(nodes, i);
      NoEmptyFile(nodes, i);
      var before := |writer.stream|;
      writer.WriteBytes(file.content);
      var diff := |writer.stream| - before;
      if diff < 1 {
        assert false;
      }
      ContentsAppend(files, file);
      AppendAssoc(start, Contents(files), file.content);
      files := files + [file];
    }
    assert nodes[..|nodes|] == nodes;
  }

  /** The writer over the output stream: every write appends the bytes of one
      value. */
  class DataWriter {
    var stream: Bytes

    constructor ()
      ensures stream == []
    {
      stream := [];
    }

    /** Writes raw bytes, as `Write(string, false)` and `DataStream.WriteTo` do. */
    method WriteBytes(b: Bytes)
      modifies this
      ensures stream == old(stream) + b
    {
      stream := stream + b;
    }

    method WriteByte(b: byte)
      modifies this
      ensures stream == old(stream) + [b]
    {
      stream := stream + [b];
    }

    /** Writes a `uint` (or an `int` that is not negative). */
    method WriteUInt32(n: nat)
      modifies this
      ensures stream == old(stream) + U32Bytes(n)
    {
      stream := stream + U32Bytes(n);
    }

    method WriteInt64(x: int)
      modifies this
      ensures stream == old(stream) + I64Bytes(x)
    {
      stream := stream + I64Bytes(x);
    }

    /** Writes a string and its terminating NUL. */
    method WriteString(s: Bytes)
      modifies this
      ensures stream == old(stream) + CString(s)
    {
      stream := stream + CString(s);
    }
  }

  /** The encoding converter. `log` records whether a progress reporter was
      given; the messages themselves are not modelled. */
  class Gmad2Binary {
    var log: bool

    constructor ()
      ensures !log
    {
      log := false;
    }

    /** A missing reporter leaves the converter as it was. */
    method Initialize(hasReporter: bool)
      modifies this
      ensures log == (old(log) || hasReporter)
    {
      if hasReporter {
        log := true;
      }
    }

    /** Encodes `source`, stamped with `timestamp` (the current Unix time in
        the source). */
    method Convert(source: Gmad, timestamp: int) returns (r: Result<Bytes, EncodeError>)
      ensures r == Encode(source, timestamp)
    {
      var writer := new DataWriter();
      WriteHeader(writer, source, timestamp);
      var fileNum :- WriteTable(writer, source.nodes, source.rootPath, source.doCrc);
      fileNum := 0;
      writer.WriteUInt32(fileNum);
      WriteContents(writer, source.nodes);

      // The trailer.
      if source.doCrc {
        var crc := ReversedCrc(writer.stream);
        writer.WriteUInt32(crc);
      } else {
        writer.WriteUInt32(0);
      }
      r := Success(writer.stream);
    }
  }
}

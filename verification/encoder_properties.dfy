/** What the encoder promises, proved about the specification `Encode`. */
module EncoderProperties {
  import opened Wrappers
  import opened Bytes
  import opened Crc
  import opened GmadFormat
  import opened Binary2Gmad
  import opened Gmad2Binary

  // ---------------------------------------------------------------------------
  // Which nodes are listed, and when encoding fails

  /** The listed files are exactly the nodes that are not containers. */
  lemma {:induction false} FilesMembers(nodes: seq<Node>)
    ensures forall n :: n in Files(nodes) <==> n in nodes && !n.isContainer
  {
    if nodes != [] {
      var prefix := nodes[..|nodes| - 1];
      FilesMembers(prefix);
      assert nodes == prefix + [nodes[|nodes| - 1]];
    }
  }

  /** Encoding fails exactly when some file node has no bytes; it then names
      the first such file in iteration order. Otherwise it gives the archive. */
  lemma EncodeFailsOnEmptyFile(g: Gmad, timestamp: int)
    ensures Encode(g, timestamp).Failure? <==> exists n :: n in g.nodes && !n.isContainer && n.content == []
    ensures Encode(g, timestamp).Failure? ==>
              exists k :: 0 <= k < |Files(g.nodes)| && Files(g.nodes)[k].content == [] &&
                          Encode(g, timestamp).error == EmptyFile(Files(g.nodes)[k].path) &&
                          forall j :: 0 <= j < k ==> Files(g.nodes)[j].content != []
    ensures Encode(g, timestamp).Success? ==> Encode(g, timestamp).value == Archive(g, timestamp)
  {
    var files := Files(g.nodes);
    FilesMembers(g.nodes);
    match FirstEmpty(files)
    case Some(k) =>
      assert files[k] in files;
    case None =>
  }

  // ---------------------------------------------------------------------------
  // File names

  /** A listed name holds no '\' and no upper-case ASCII letter, and holds no
      NUL when the path holds none. */
  lemma FileNameForm(rootPath: Bytes, path: Bytes)
    ensures BACKSLASH !in FileName(rootPath, path)
    ensures forall k :: 0 <= k < |FileName(rootPath, path)| ==> !(0x41 <= FileName(rootPath, path)[k] <= 0x5A)
    ensures NulFree(path) ==> NulFree(FileName(rootPath, path))
  {
    var stripped := RemoveAll(path, rootPath + [SLASH]);
    ReplaceByteRemoves(AsciiLower(stripped), BACKSLASH, SLASH);
    if NulFree(path) {
      RemoveAllNulFree(path, rootPath + [SLASH]);
    }
  }

  /** A file at `rel` below the root is listed under `rel`, lowered and with
      '/' separators, as long as `rel` does not itself hold the root's path
      followed by a separator. */
  lemma FileNameOfRelative(rootPath: Bytes, rel: Bytes)
    requires !Occurs(rootPath + [SLASH], rel)
    ensures FileName(rootPath, rootPath + [SLASH] + rel) == ReplaceByte(AsciiLower(rel), BACKSLASH, SLASH)
  {
    var pattern := rootPath + [SLASH];
    var path := pattern + rel;
    assert path[..|pattern|] == pattern;
    assert path[|pattern|..] == rel;
    RemoveAllAbsent(rel, pattern);
  }

  /** The replacement is not anchored at the start: under a root "/r", the
      file "/r/a/r/b" is listed as "ab". */
  lemma FileNameRemovesEveryOccurrence()
    ensures FileName([SLASH, 0x72], [SLASH, 0x72, SLASH, 0x61, SLASH, 0x72, SLASH, 0x62]) == [0x61, 0x62]
  {
    var pattern: Bytes := [SLASH, 0x72, SLASH];
    var path: Bytes := [SLASH, 0x72, SLASH, 0x61, SLASH, 0x72, SLASH, 0x62];
    assert [SLASH, 0x72] + [SLASH] == pattern;
    assert path[..3] == pattern;
    var rest: Bytes := [0x61, SLASH, 0x72, SLASH, 0x62];
    assert path[3..] == rest;
    assert rest[..3] != pattern by { assert rest[0] != pattern[0]; }
    var tail: Bytes := [SLASH, 0x72, SLASH, 0x62];
    assert rest[1..] == tail;
    assert tail[..3] == pattern;
    assert tail[3..] == [0x62];
    assert RemoveAll(tail, pattern) == [0x62];
    assert RemoveAll(rest, pattern) == [0x61] + RemoveAll(tail, pattern);
    assert RemoveAll(path, pattern) == [0x61, 0x62];
    var lowered := AsciiLower([0x61, 0x62]);
    assert lowered == [0x61, 0x62];
  }

  // ---------------------------------------------------------------------------
  // Where the rows and the contents lie

  /** The rows of the first `k` files start the table. */
  lemma {:induction false} TablePrefix(files: seq<Node>, rootPath: Bytes, doCrc: bool, k: nat)
    requires k <= |files|
    ensures Table(files[..k], rootPath, doCrc) <= Table(files, rootPath, doCrc)
    decreases |files| - k
  {
    if k < |files| {
      TableAppend(files[..k], files[k], rootPath, doCrc, (k + 1) % TWO_32);
      assert files[..k] + [files[k]] == files[..k + 1];
      TablePrefix(files, rootPath, doCrc, k + 1);
    } else {
      assert files[..k] == files;
    }
  }

  /** Row `k` (from 0) of the table: index `k + 1`, then the name, size and CRC
      field of file `k`, right after the rows before it. */
  lemma TableRow(files: seq<Node>, rootPath: Bytes, doCrc: bool, k: nat)
    requires k < |files|
    ensures Table(files[..k], rootPath, doCrc) + EntryBytes((k + 1) % TWO_32, files[k], rootPath, doCrc)
         <= Table(files, rootPath, doCrc)
  {
    TableAppend(files[..k], files[k], rootPath, doCrc, (k + 1) % TWO_32);
    assert files[..k] + [files[k]] == files[..k + 1];
    TablePrefix(files, rootPath, doCrc, k + 1);
  }

  /** The bytes of the first `k` files start the contents. */
  lemma {:induction false} ContentsPrefix(files: seq<Node>, k: nat)
    requires k <= |files|
    ensures Contents(files[..k]) <= Contents(files)
    decreases |files| - k
  {
    if k < |files| {
      ContentsAppend(files[..k], files[k]);
      assert files[..k] + [files[k]] == files[..k + 1];
      ContentsPrefix(files, k + 1);
    } else {
      assert files[..k] == files;
    }
  }

  /** File `k`'s bytes follow those of the files before it. */
  lemma ContentsOf(files: seq<Node>, k: nat)
    requires k < |files|
    ensures Contents(files[..k]) + files[k].content <= Contents(files)
    ensures |Contents(files[..k + 1])| == |Contents(files[..k])| + |files[k].content|
  {
    ContentsAppend(files[..k], files[k]);
    assert files[..k] + [files[k]] == files[..k + 1];
    ContentsPrefix(files, k + 1);
  }

  // ---------------------------------------------------------------------------
  // The header

  /** An archive opens with "GMAD", the version 3, an owner id of eight zero
      bytes, the timestamp, one zero byte, and then the three strings and the
      addon version 1. */
  lemma ArchiveStart(g: Gmad, timestamp: int)
    ensures |Archive(g, timestamp)| >= |Header(g, timestamp)| >= 22
    ensures Archive(g, timestamp)[..4] == Magic && Archive(g, timestamp)[4] == Version
    ensures Archive(g, timestamp)[5..13] == [0, 0, 0, 0, 0, 0, 0, 0]
    ensures Archive(g, timestamp)[13..21] == I64Bytes(timestamp) && Archive(g, timestamp)[21] == 0
    ensures Archive(g, timestamp)[22..|Header(g, timestamp)|]
         == CString(g.name) + CString(g.description) + CString(g.author) + U32Bytes(1)
  {
    var a := Archive(g, timestamp);
    var h := Header(g, timestamp);
    var fixed := Magic + [Version] + I64Bytes(0) + I64Bytes(timestamp) + [0];
    var metadata := CString(g.name) + CString(g.description) + CString(g.author) + U32Bytes(1);
    assert h == fixed + metadata;
    assert h <= a by {
      assert a[..|a| - 4] == Body(g, timestamp);
      assert Body(g, timestamp)[..|h|] == h;
    }
    HeaderFields(a, fixed, metadata, timestamp);
  }

  /** The fields of a header at the start of a stream. */
  lemma HeaderFields(a: Bytes, fixed: Bytes, metadata: Bytes, timestamp: int)
    requires fixed == Magic + [Version] + I64Bytes(0) + I64Bytes(timestamp) + [0]
    requires fixed + metadata <= a
    ensures |fixed| == 22
    ensures a[..4] == Magic && a[4] == Version && a[5..13] == [0, 0, 0, 0, 0, 0, 0, 0]
    ensures a[13..21] == I64Bytes(timestamp) && a[21] == 0 && a[22..22 + |metadata|] == metadata
  {
    assert a[..22] == fixed;
    assert I64Bytes(0) == [0, 0, 0, 0, 0, 0, 0, 0];
    assert a[22..22 + |metadata|] == (fixed + metadata)[22..];
  }

  // ---------------------------------------------------------------------------
  // The trailer

  /** With checksums on, the trailer is the CRC-32 of everything before it,
      which is what the decoder's check asks for; with them off it is zero. */
  lemma ArchiveTrailer(g: Gmad, timestamp: int)
    ensures var a := Archive(g, timestamp);
            g.doCrc ==> U32Of(a[|a| - 4..]) == Crc32(a[..|a| - 4]) && TrailerOk(a)
    ensures var a := Archive(g, timestamp);
            !g.doCrc ==> a[|a| - 4..] == [0, 0, 0, 0]
  {
    var a := Archive(g, timestamp);
    var body := Body(g, timestamp);
    U32RoundTrip(CrcField(body, g.doCrc));
    ReversedCrcIsCrc(body);
  }

  // ---------------------------------------------------------------------------
  // The trailer as the source computes it

  /** The archive as `Gmad2Binary.cs:106` computes its trailer: `ComputeHash`
      reads the writer's stream from its position, which the writes have left
      at the end, so the hash is that of no bytes. */
  function ArchiveAsWritten(g: Gmad, timestamp: int): (r: Bytes)
    ensures |r| == |Body(g, timestamp)| + 4
    ensures r[..|r| - 4] == Body(g, timestamp)
    ensures r[|r| - 4..] == [0, 0, 0, 0]
  {
    var body := Body(g, timestamp);
    assert Crc32([]) == 0;
    var r := body + U32Bytes(CrcField([], g.doCrc));
    assert r[..|body|] == body;
    r
  }

  /** With checksums on, the checked decoder rejects the archive as written
      whenever the body's CRC-32 is not zero, that is for all but one body
      checksum in 2^32. */
  lemma AsWrittenTrailerRejected(g: Gmad, timestamp: int, rootPath: Bytes)
    requires g.doCrc && Crc32(Body(g, timestamp)) != 0
    ensures !TrailerOk(ArchiveAsWritten(g, timestamp))
    ensures Decode(ArchiveAsWritten(g, timestamp), 0, true, rootPath).Failure?
  {
    var a := ArchiveAsWritten(g, timestamp);
    assert a[..|a| - 4] == Body(g, timestamp);
    assert U32Of(a[|a| - 4..]) == 0;
  }
}

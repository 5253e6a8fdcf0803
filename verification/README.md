# GMAD addon-archive codec, modelled in Dafny

This project models the two converters of GmadSharp that read and write GMAD
addon archives (the packed format of Garry's Mod addons):

- `Binary2Gmad` decodes a byte stream into a `Gmad` addon. It checks the
  `GMAD` magic and the version gate (at most 3). It skips the owner id, the
  timestamp and, for versions above 1, the legacy string list. It reads the
  name, description and author, then the file table up to a zero index,
  giving each entry a 0-based file number and a running offset. Each entry
  becomes a child of the root holding its slice of the contents block. When
  asked, it checks each file's CRC and the whole-archive trailer.
- `Gmad2Binary` encodes an addon. It writes the fixed header and the
  metadata. A first pass over the tree writes a table row for every file node,
  indexed from 1, and rejects an empty file. Then come a zero index and a
  second pass writing the files' bytes. Last is a trailer holding the CRC-32
  of everything before it, or zero.

Modules:

| file | module | contents |
|---|---|---|
| `wrappers.dfy` | `Wrappers` | `Option` and `Result` |
| `bytes.dfy` | `Bytes` | bytes, little-endian integers, NUL-terminated strings, the string replacements |
| `crc.dfy` | `Crc` | the reflected CRC-32 of IEEE 802.3 and the codec's byte-reversed reading of it |
| `gmad.dfy` | `GmadFormat` | the version, the magic, `Node` and `Gmad` |
| `binary2gmad.dfy` | `Binary2Gmad` | the decoder: `Decode`, one function per stage, and the converter class with its loops proved equal to them |
| `decoder_properties.dfy` | `DecoderProperties` | what the decoder accepts, rejects and builds |
| `decoder_fields.dfy` | `DecoderIgnoredFields` | the fields the decoder reads past and never uses |
| `gmad2binary.dfy` | `Gmad2Binary` | the encoder: `Encode`, field by field, and the converter class writing to a `DataWriter`, proved equal to it |
| `encoder_properties.dfy` | `EncoderProperties` | what the encoder lists, names and writes |
| `roundtrip.dfy` | `RoundTrip` | decoding an encoded addon gives back its metadata and files |

Each converter is a class whose `Convert` method works step by step, as the
C# does: a reading position moves through the stream, and a writer's stream
grows. Each `Convert` is proved to compute a specification function
(`Decode`, `Encode`), and the properties are lemmas about those functions.
The archive is a `seq<byte>`. Sub-streams are slices. The tree's iteration
order is given as the sequence of nodes below the root.

The encoder names a file by deleting every occurrence of the root's path plus
a separator, not only the leading one (`string.Replace` in
`Gmad2Binary.cs:63`). Under a root `/r`, the file `/r/a/r/b` is listed as `ab`
(`EncoderProperties.FileNameRemovesEveryOccurrence`). The model keeps this
behaviour. The round trip is stated with the encoder's own file name, and
`EncoderProperties.FileNameOfRelative` gives the name of a file whose relative
path holds no such occurrence.

## Model

| member | source | states |
|---|---|---|
| Bytes.U32RoundTrip | GmadSharp/Converters/Gmad2Binary.cs:61 | a `uint` written as four little-endian bytes reads back as itself |
| Bytes.I64RoundTrip | GmadSharp/Converters/Gmad2Binary.cs:66 | every `long` written as eight bytes reads back as itself |
| Bytes.ReplaceByteRemoves | GmadSharp/Converters/Binary2Gmad.cs:79 | after replacing one character with another, none of the first is left |
| Bytes.RemoveAllAbsent | GmadSharp/Converters/Gmad2Binary.cs:63 | deleting a substring that does not occur leaves the string unchanged |
| Bytes.RemoveAllNulFree | GmadSharp/Converters/Gmad2Binary.cs:63 | deleting a substring cannot introduce a NUL |
| Crc.ReversedCrc | GmadSharp/Converters/Binary2Gmad.cs:102-105 | the codec's checksum (hash bytes reversed, read as a little-endian `uint`) is the CRC-32 of the bytes |
| Crc.HashReversed | GmadSharp/Converters/Gmad2Binary.cs:70-73 | the reversed hash bytes are the little-endian bytes of the CRC-32 |
| Crc.ReversedCrcIsCrc | GmadSharp/Converters/Binary2Gmad.cs:102-105 | reversing the hash bytes and reading them as a little-endian `uint` gives the CRC-32 value, and writing that `uint` gives the reversed hash |
| Binary2Gmad.ReadString | GmadSharp/Converters/Binary2Gmad.cs:64-66 | a string read ends at the first NUL, inside the stream, and fails only at the end of the stream; `DecoderProperties.ReadStringMeaning` gives the converse |
| Binary2Gmad.ReadPreamble | GmadSharp/Converters/Binary2Gmad.cs:39-52 | a fixed header read ends 21 bytes on, with a version of at most 3; it fails only at the end of the stream, on a wrong magic, or on a larger version (`DecoderProperties.VersionGate` gives both directions) |
| Binary2Gmad.MetadataStart | GmadSharp/Converters/Binary2Gmad.cs:54-62 | versions up to 1 have no legacy list; later ones skip at least one byte and stay inside the stream (`DecoderProperties.MetadataStartMeaning`) |
| Binary2Gmad.EntryNode | GmadSharp/Converters/Binary2Gmad.cs:98-113 | an accepted entry's range is inside the stream and gives a file node under the root, named after the entry, of the declared size and, when checking, with the stored CRC-32; it fails with the range error or, when checking, the entry's CRC error |
| Binary2Gmad.AttachFrom | GmadSharp/Converters/Binary2Gmad.cs:96-114 | attaching keeps the nodes already attached and adds one per remaining entry (`DecoderProperties.AttachFromAccepts`, `AttachFromChildren`, `AttachFromFirstFailure`) |
| Binary2Gmad.TrailerOk | GmadSharp/Converters/Binary2Gmad.cs:116-131 | the trailer check passes exactly when the last four bytes hold the CRC-32 of everything before them |
| Binary2Gmad.Decode | GmadSharp/Converters/Binary2Gmad.cs:27-136 | a decoded addon comes from a parsed layout, with one child per table entry, the default CRC flag, the given root, and a correct trailer when checking (`DecoderProperties.DecodeAccepts` and `DecodeChildren` give the rest) |
| Binary2Gmad.CheckMagic | GmadSharp/Converters/Binary2Gmad.cs:39-42 | the short-circuit magic test fails only at the end of the stream or on a wrong byte |
| Binary2Gmad.SkipLegacy | GmadSharp/Converters/Binary2Gmad.cs:54-62 | the legacy list consumes at least one byte and stays inside the stream; it fails only at the end of the stream |
| Binary2Gmad.ReadMetadata | GmadSharp/Converters/Binary2Gmad.cs:64-68 | the three strings and the addon version take at least seven bytes, inside the stream |
| Binary2Gmad.ReadEntry | GmadSharp/Converters/Binary2Gmad.cs:79-83 | an entry is read inside the stream; it can fail only at the end of the stream |
| Binary2Gmad.ReadTable | GmadSharp/Converters/Binary2Gmad.cs:70-89 | the table ends after a zero index inside the stream; reading past the end is a failure |
| Binary2Gmad.ReadTableNoIndex | GmadSharp/Converters/Binary2Gmad.cs:75 | proof step for `ReadEntries`: one unfolding of `ReadTable` where no index fits |
| Binary2Gmad.ReadTableStop | GmadSharp/Converters/Binary2Gmad.cs:75 | proof step for `ReadEntries`: one unfolding of `ReadTable` at a zero index |
| Binary2Gmad.ReadTableStep | GmadSharp/Converters/Binary2Gmad.cs:75-89 | proof step for `ReadEntries`: one unfolding of `ReadTable` at a non-zero index |
| Binary2Gmad.ReadTableTruncated | GmadSharp/Converters/Binary2Gmad.cs:77-81 | proof step for `ReadEntries`: one unfolding of `ReadTable` at a truncated entry |
| Binary2Gmad.ReadLayout | GmadSharp/Converters/Binary2Gmad.cs:36-91 | the contents block starts inside the stream, after at least four bytes |
| Binary2Gmad.ReadTrailer | GmadSharp/Converters/Binary2Gmad.cs:118-127 | the `uint` read four bytes before the end is the stored trailer |
| Binary2Gmad.SkipLegacyStrings | GmadSharp/Converters/Binary2Gmad.cs:54-62 | the read-while-not-empty loop computes `SkipLegacy` |
| Binary2Gmad.ReadEntries | GmadSharp/Converters/Binary2Gmad.cs:70-89 | the table loop with its `fileNumber` and `offset` accumulators computes `ReadTable` from file number 0 and offset 0 |
| Binary2Gmad.ReadHeaderAndTable | GmadSharp/Converters/Binary2Gmad.cs:36-91 | the sequential parse up to the contents block computes `ReadLayout` |
| Binary2Gmad.AttachEntries | GmadSharp/Converters/Binary2Gmad.cs:96-114 | the loop over the entries, with its range and CRC checks, computes `AttachFrom` |
| Binary2Gmad.Binary2Gmad.constructor | GmadSharp/Converters/Binary2Gmad.cs:13 | a new converter does not check CRCs |
| Binary2Gmad.Binary2Gmad.Initialize | GmadSharp/Converters/Binary2Gmad.cs:15-25 | a missing flag turns checking off, as `false` does |
| Binary2Gmad.Binary2Gmad.CheckTrailer | GmadSharp/Converters/Binary2Gmad.cs:116-131 | seeking to the trailer, hashing what precedes it and reading the stored `uint` decides `TrailerOk` and leaves the stream at its end |
| Binary2Gmad.Binary2Gmad.Convert | GmadSharp/Converters/Binary2Gmad.cs:27-136 | the converter returns `Decode` of the stream from its position with the converter's flag, and leaves the position at 0 on success |
| DecoderProperties.MagicBytes | GmadSharp/Converters/Binary2Gmad.cs:39 | the byte-by-byte magic test and the slice test agree |
| DecoderProperties.CheckMagicMeaning | GmadSharp/Converters/Binary2Gmad.cs:39-42 | the magic check passes exactly on `G`,`M`,`A`,`D` and then moves four bytes on; four other bytes give the header error |
| DecoderProperties.VersionGate | GmadSharp/Converters/Binary2Gmad.cs:44-52 | the fixed header is read exactly when 21 bytes are there, the magic matches and the version is at most 3; a larger version gives the version error |
| DecoderProperties.MagicRequired | GmadSharp/Converters/Binary2Gmad.cs:39-42 | decoding succeeds only on a stream starting with the magic, and fails with the header error on four other bytes |
| DecoderProperties.VersionRequired | GmadSharp/Converters/Binary2Gmad.cs:44-49 | decoding succeeds only with a version of at most 3, and fails with the version error on a larger one |
| DecoderProperties.ReadStringMeaning | GmadSharp/Converters/Binary2Gmad.cs:64-66 | a string is read exactly where the stream holds its NUL-free bytes and a NUL |
| DecoderProperties.SkipLegacyFirstEmpty | GmadSharp/Converters/Binary2Gmad.cs:54-62 | the legacy list ends just after its first empty string, and fails at the end of the stream when there is none |
| DecoderProperties.MetadataStartMeaning | GmadSharp/Converters/Binary2Gmad.cs:54-64 | for versions up to 1 the name starts 21 bytes in; for later versions it starts after the first empty legacy string |
| DecoderProperties.NumberedAppend | GmadSharp/Converters/Binary2Gmad.cs:82-88 | an entry numbered `|entries|` at the running offset keeps the table numbered, and adds its size to the total |
| DecoderProperties.ReadTableInvariant | GmadSharp/Converters/Binary2Gmad.cs:70-89 | the table read numbers entry k as k, gives it the sum of the earlier sizes as its offset, leaves no '/' in names, and ends just after a zero index |
| DecoderProperties.EntryNameSlashFree | GmadSharp/Converters/Binary2Gmad.cs:79-83 | an entry's name holds no '/' and carries the file number and offset given |
| DecoderProperties.NumberedChain | GmadSharp/Converters/Binary2Gmad.cs:83-85 | each entry starts where the previous one ends |
| DecoderProperties.LayoutTable | GmadSharp/Converters/Binary2Gmad.cs:70-91 | a parsed layout's table is numbered, '/'-free and ends with a zero index just before the contents block |
| DecoderProperties.Content | GmadSharp/Converters/Binary2Gmad.cs:98 | an entry's sub-stream is as long as its declared size |
| DecoderProperties.Child | GmadSharp/Converters/Binary2Gmad.cs:113 | the child made of an entry is a file named after the entry, under the root |
| DecoderProperties.AttachFromAccepts | GmadSharp/Converters/Binary2Gmad.cs:96-114 | attaching succeeds exactly when every entry's range is inside the stream and, when checking, its CRC matches |
| DecoderProperties.AttachFromChildren | GmadSharp/Converters/Binary2Gmad.cs:96-114 | on success one child per entry is appended in table order, holding that entry's bytes |
| DecoderProperties.AttachFromFirstFailure | GmadSharp/Converters/Binary2Gmad.cs:96-111 | attaching fails with the error of the first entry not accepted |
| DecoderProperties.DecodeAccepts | GmadSharp/Converters/Binary2Gmad.cs:27-136 | decoding succeeds exactly when the layout parses, every entry is accepted and, when checking, the trailer matches |
| DecoderProperties.AttachAll | GmadSharp/Converters/Binary2Gmad.cs:96-114 | attaching all entries gives exactly one child per entry, in table order |
| DecoderProperties.DecodeChildren | GmadSharp/Converters/Binary2Gmad.cs:96-114 | a decoded addon has the strings read, no CRC flag, and as k-th root child the file named after entry k holding bytes `[filesBlock+offset, filesBlock+offset+size)` |
| DecoderProperties.FirstCrcMismatchFails | GmadSharp/Converters/Binary2Gmad.cs:100-110 | with checking on, the first entry whose CRC differs makes decoding fail with that entry's CRC error |
| DecoderProperties.TrailerMismatchFails | GmadSharp/Converters/Binary2Gmad.cs:116-130 | with checking on and all entries accepted, a wrong trailer makes decoding fail with the trailer error |
| DecoderProperties.UncheckedNeverFailsOnChecksum | GmadSharp/Converters/Binary2Gmad.cs:100 | with checking off, no CRC comparison can make decoding fail |
| DecoderProperties.AttachFromCheckedUnchecked | GmadSharp/Converters/Binary2Gmad.cs:100-113 | where checked attaching succeeds, unchecked attaching gives the same children |
| DecoderProperties.CheckedAgreesWithUnchecked | GmadSharp/Converters/Binary2Gmad.cs:100-131 | wherever checked decoding succeeds, unchecked decoding gives the same addon |
| DecoderProperties.FirstRejected | GmadSharp/Converters/Binary2Gmad.cs:96-111 | the first entry the loop rejects: not accepted, with every earlier one accepted |
| DecoderIgnoredFields.OwnerAndTimestampIgnored | GmadSharp/Converters/Binary2Gmad.cs:51-52 | unchecked decoding does not depend on the owner id and timestamp bytes |
| DecoderIgnoredFields.AddonVersionIgnored | GmadSharp/Converters/Binary2Gmad.cs:68 | unchecked decoding does not depend on the four addon-version bytes |
| Gmad2Binary.Files | GmadSharp/Converters/Gmad2Binary.cs:47-52 | container nodes are skipped; there are at most as many files as nodes |
| Gmad2Binary.FileName | GmadSharp/Converters/Gmad2Binary.cs:63 | a file's listed name is no longer than its path |
| Gmad2Binary.CrcField | GmadSharp/Converters/Gmad2Binary.cs:68-79 | the CRC field is a `uint`, zero when checksums are off |
| Gmad2Binary.Header | GmadSharp/Converters/Gmad2Binary.cs:32-40 | the header and metadata take 22 fixed bytes, the three strings with their NULs, and four bytes |
| Gmad2Binary.EntryBytes | GmadSharp/Converters/Gmad2Binary.cs:61-79 | a table row takes 17 bytes besides its name |
| Gmad2Binary.Table | GmadSharp/Converters/Gmad2Binary.cs:46-83 | the rows of the files, the k-th (from 1) indexed k as a wrapping `uint`; its layout is proved in `EncoderProperties.TablePrefix` and `TableRow` |
| Gmad2Binary.Contents | GmadSharp/Converters/Gmad2Binary.cs:87-102 | the files' bytes one after the other; their places are proved in `EncoderProperties.ContentsPrefix` and `ContentsOf` |
| Gmad2Binary.Body | GmadSharp/Converters/Gmad2Binary.cs:32-102 | everything before the trailer starts with the header, and the table is closed by a zero index |
| Gmad2Binary.Encode | GmadSharp/Converters/Gmad2Binary.cs:24-118 | encoding succeeds exactly when no file is empty, and then gives at least 37 bytes opening with the magic (`EncoderProperties.EncodeFailsOnEmptyFile` names the failing file) |
| Gmad2Binary.ArchiveOpens | GmadSharp/Converters/Gmad2Binary.cs:32-115 | an archive opens with the magic and is at least 37 bytes long |
| Gmad2Binary.Archive | GmadSharp/Converters/Gmad2Binary.cs:104-115 | the archive is the body followed by a four-byte trailer holding the CRC field of the body |
| Gmad2Binary.FirstEmpty | GmadSharp/Converters/Gmad2Binary.cs:54-58 | the first file with no bytes, every earlier one having some; none when no file is empty |
| Gmad2Binary.FirstEmptyAt | GmadSharp/Converters/Gmad2Binary.cs:54-58 | an empty file after files with bytes is the first empty file |
| Gmad2Binary.EmptyFileAt | GmadSharp/Converters/Gmad2Binary.cs:54-58 | the empty file the first pass meets is the first empty file of the tree |
| Gmad2Binary.NoEmptyFile | GmadSharp/Converters/Gmad2Binary.cs:94-101 | once the first pass has passed, every file written in the second pass adds at least one byte |
| Gmad2Binary.UIntIncrement | GmadSharp/Converters/Gmad2Binary.cs:60 | proof step for `WriteTable`: the modular identity behind `fileNum++`; the `uint` wrap itself is modelled by `Table`'s index |
| Gmad2Binary.TableAppend | GmadSharp/Converters/Gmad2Binary.cs:60-79 | proof step for `WriteTable` and `TablePrefix`: one unfolding of `Table` |
| Gmad2Binary.TableStep | GmadSharp/Converters/Gmad2Binary.cs:60-79 | one more row keeps the first pass's invariant: the stream holds the table of the files so far, none of them empty |
| Gmad2Binary.WriteHeader | GmadSharp/Converters/Gmad2Binary.cs:32-40 | the first writes produce `Header` |
| Gmad2Binary.WriteEntry | GmadSharp/Converters/Gmad2Binary.cs:61-79 | the writes for one file append its row |
| Gmad2Binary.WriteNextRow | GmadSharp/Converters/Gmad2Binary.cs:60-79 | incrementing the index and writing the row extends the table by one file |
| Gmad2Binary.WriteTable | GmadSharp/Converters/Gmad2Binary.cs:46-80 | the first pass fails exactly when some file is empty, naming the first one, and leaves the rows of the files before it written; otherwise it appends the table of all files |
| Gmad2Binary.WriteContents | GmadSharp/Converters/Gmad2Binary.cs:87-102 | the second pass appends the files' bytes in the same order; its write check never fails |
| Gmad2Binary.Gmad2Binary.constructor | GmadSharp/Converters/Gmad2Binary.cs:13 | a new converter does not log |
| Gmad2Binary.Gmad2Binary.Initialize | GmadSharp/Converters/Gmad2Binary.cs:15-22 | a reporter turns logging on; a missing one leaves the converter as it was |
| Gmad2Binary.Gmad2Binary.Convert | GmadSharp/Converters/Gmad2Binary.cs:24-118 | the converter returns `Encode` of the addon at the given timestamp |
| EncoderProperties.FilesMembers | GmadSharp/Converters/Gmad2Binary.cs:47-52 | the listed files are exactly the nodes that are not containers |
| EncoderProperties.EncodeFailsOnEmptyFile | GmadSharp/Converters/Gmad2Binary.cs:54-58 | encoding fails exactly when some file node has no bytes, naming the first such file; otherwise it gives the archive |
| EncoderProperties.FileNameForm | GmadSharp/Converters/Gmad2Binary.cs:63 | a listed name holds no '\' and no upper-case ASCII letter, and no NUL when the path has none |
| EncoderProperties.FileNameOfRelative | GmadSharp/Converters/Gmad2Binary.cs:63 | a file at a relative path below the root is listed under that path, lowered, with '/' separators |
| EncoderProperties.FileNameRemovesEveryOccurrence | GmadSharp/Converters/Gmad2Binary.cs:63 | the root-path deletion is not anchored at the start: `/r/a/r/b` under `/r` is listed as `ab` |
| EncoderProperties.TablePrefix | GmadSharp/Converters/Gmad2Binary.cs:46-80 | the rows of the first k files start the table |
| EncoderProperties.TableRow | GmadSharp/Converters/Gmad2Binary.cs:60-79 | row k carries index k+1 and the name, size and CRC field of file k, right after the earlier rows |
| EncoderProperties.ContentsPrefix | GmadSharp/Converters/Gmad2Binary.cs:87-102 | the bytes of the first k files start the contents |
| EncoderProperties.ContentsOf | GmadSharp/Converters/Gmad2Binary.cs:87-102 | file k's bytes follow those of the earlier files, at an offset equal to their total size |
| EncoderProperties.ArchiveStart | GmadSharp/Converters/Gmad2Binary.cs:32-40 | an archive opens with `GMAD`, the version 3, eight zero bytes, the timestamp, a zero byte, the three strings and the addon version 1 |
| EncoderProperties.ArchiveTrailer | GmadSharp/Converters/Gmad2Binary.cs:104-115 | with checksums on, the trailer is the CRC-32 of everything before it and passes the decoder's trailer check; with them off it is four zero bytes |
| EncoderProperties.ArchiveAsWritten | GmadSharp/Converters/Gmad2Binary.cs:104-110 | with the hash taken from the writer's end position, the archive ends in four zero bytes after the body |
| EncoderProperties.AsWrittenTrailerRejected | GmadSharp/Converters/Binary2Gmad.cs:116-130 | with checksums on, the checked decoder rejects the archive as written whenever the body's CRC-32 is not zero |
| RoundTrip.ReadFixedHeader | GmadSharp/Converters/Binary2Gmad.cs:39-62 | the encoder's fixed header passes the magic and version checks as version 3, and its zero byte reads as an empty legacy list |
| RoundTrip.ReadWrittenMetadata | GmadSharp/Converters/Binary2Gmad.cs:64-68 | three NUL-free strings and four bytes, as written, read back as the metadata |
| RoundTrip.ReadEncodedHeader | GmadSharp/Converters/Binary2Gmad.cs:38-68 | the encoder's header reads back with the addon's name, description and author, and the table starts right after it |
| RoundTrip.ReadEncodedRow | GmadSharp/Converters/Binary2Gmad.cs:75-83 | row k of the encoded table reads back as index k+1 and the entry with the listed name, '/' read as '\', the size and the CRC field |
| RoundTrip.ReadEncodedTable | GmadSharp/Converters/Binary2Gmad.cs:70-89 | the encoded table and its zero index read back as the expected entries, numbered from 0 with offsets equal to the earlier files' total size |
| RoundTrip.ReadEncodedLayout | GmadSharp/Converters/Binary2Gmad.cs:36-91 | an encoded body parses up to the contents block as version 3 with the addon's strings and entries |
| RoundTrip.EncodedEntryOk | GmadSharp/Converters/Binary2Gmad.cs:98-111 | each encoded entry's range holds its file's bytes and, when checksums were written, passes the CRC check |
| RoundTrip.AttachEncoded | GmadSharp/Converters/Binary2Gmad.cs:96-114 | the entries of an encoded archive attach as one child per file, in order, each holding that file's bytes |
| RoundTrip.DecodeEncodedWith | GmadSharp/Converters/Binary2Gmad.cs:27-136 | decoding an encoded archive, checked when checksums were written or unchecked, gives back the addon's strings and files |
| RoundTrip.DecodeEncode | GmadSharp/Converters/Gmad2Binary.cs:24-118 | decoding what the encoder produced gives back the name, description and author, and for each file in iteration order a root child under its listed name ('/' read as '\') holding exactly its bytes; with checksums written, checked decoding agrees |

## Left out

- Binary2Gmad.ReadTable: the running offset and the file number are unbounded integers. Declared sizes can make the C# `long` sum overflow even in a small stream, but that does not change the outcome: `AttachFrom` meets first the entry whose range leaves the stream, and fails there before any wrapped offset is used. The `int` file number wraps only after 2^31 entries, a table of more than 34 GiB, which the model does not bound.
- Binary2Gmad.CheckMagic: the first magic byte is read by `ReadChar`, which the model reads as one byte, as it is for ASCII input.
- Binary2Gmad.EntryNode: the stream library's sub-stream range check is taken as `0 <= offset`, `0 <= size` and `offset + size <= length`.
- Binary2Gmad.ReadString: a string that reaches the end of the stream without a NUL is a failure.
- Binary2Gmad.Decode: the root path of a freshly made addon comes from the tree library and is a parameter. Adding a child never replaces a sibling of the same name, and node names are not validated: the root's children are an ordered list.
- Binary2Gmad.Decode: a `null` source (`ArgumentNullException`) has no counterpart, since Dafny values are never null.
- Gmad2Binary.Gmad2Binary.Convert: the timestamp (`DateTimeOffset.Now`) is a parameter.
- Gmad2Binary.Gmad2Binary.Convert: the trailer is the CRC of everything written before it. Read as written, `Gmad2Binary.cs:106` hashes the writer's stream from its end, which would make the trailer the CRC-32 of no bytes (zero) and make the checked decoder reject the archive; see "## Findings". `EncoderProperties.ArchiveTrailer` and the checked half of `RoundTrip.DecodeEncode` hold for the corrected trailer only.
- Gmad2Binary.Gmad2Binary.Convert: the empty-file error carries the file's path in place of the exception message.
- Gmad2Binary.FileName: lowering is ASCII-only. Culture-sensitive `ToLower` and the UTF-8 encoding of strings are not modelled; strings are byte sequences.
- Gmad2Binary.Gmad2Binary.Initialize: the progress reporter and `ReportAction` messages are not modelled; only the `log` flag is.
- Binary2Gmad.ReadEntry: the index on disk is written from 1 (`Gmad2Binary.cs:60-61`), but the decoder sets `FileNumber` from its own counter starting at 0 (`Binary2Gmad.cs:70,82`), and the model follows the code.
- RoundTrip.DecodeEncode: it requires NUL-free strings and paths, fewer than 2^32 files and files shorter than 2^63 bytes (`RoundTrip.Encodable`). Its one-root-child-per-file result rests on the rule above that a child never replaces a sibling: two files whose listed names coincide after lowering (`A.txt` and `a.txt`) would leave only one child in the source.
- Binary2Gmad.Binary2Gmad.Convert: when a read fails within the header or the table, the stream's position stays where decoding began; the source leaves it where its reader stopped.
- `Gmad.FromFileList` and `Gmad.GenerateJson` (file-system enumeration and JSON mapping) are not part of this model.
- The CRC-32 hash library's byte order (most significant byte first) is modelled, not its implementation.

## Findings

| source | as written | input that shows it | evidently intended | confidence | as-written member | corrected member |
|---|---|---|---|---|---|---|
| GmadSharp/Converters/Gmad2Binary.cs:106 | `ComputeHash(writer.Stream)` hashes the stream from its current position, which the writes have left at the end, so the trailer is the CRC-32 of no bytes, zero | any addon with `DoCRC` whose body has a non-zero CRC-32: the checked decoder (`Binary2Gmad.cs:116-130`) rejects its archive | the CRC-32 of everything written before the trailer, which the checked decoder accepts (`EncoderProperties.ArchiveTrailer`) | medium: rests on the stream library leaving the position at the end after writing and on `ComputeHash` reading from the position; not executed | EncoderProperties.AsWrittenTrailerRejected | Gmad2Binary.Archive |

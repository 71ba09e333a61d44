# SimTools archive core, modelled in Dafny

SimTools reads the archives of SimCity 4. A DBPF archive starts with a
96-byte header. The header gives the archive's version and the index
version, and places two tables in the file: the index table and the hole
table. Each index entry names one stored file by type, group and instance
id, with its location and size. Entries may be compressed with QFS, a
byte-oriented LZ77 variant. A special directory entry, type id `0xE86B1EEF`,
lists the compressed entries, and opening the archive marks them. Record
formats are declared once as a field list over a `struct` format, in a
small `BaseStruct` base class. Two further formats are read with the same
base class: FSH textures and S3D models. The repository holds two
generations of this code: the `simtools` package, and the older `dbpf`
package with its own header, index and QFS modules.

The model follows the code module by module:

| Dafny module | models |
|---|---|
| `Bytes` | little-endian and two's-complement readings; `file.read`, which clips at the end of the file |
| `Versions` | `unicode(int)`, `int(str)`, `str.split('.')` and the `version` property pattern (getter and setter) |
| `BaseStruct` | `simtools/util.py`: records as a field list, an ordered `_data` dictionary and the attributes set outside it; `parse`, `raw`, `__getattr__`, `__setattr__` |
| `Qfs` | `simtools/qfs.py`: the frame header and the opcode loop |
| `MagicTable` | `simtools/magic.py`: the type-id table and `magic_index` |
| `Dbpf` | `simtools/dbpf.py`: record layouts, version dispatch, `equals_index`, `IndexBaseStruct.open` |
| `Tables`, `TableReads` | `_extract_indices` and `_extract_holes` of `simtools/__init__.py` |
| `MarkPass` | `_mark_compressed` of `simtools/__init__.py` |
| `Container` | the `DBPF` class of `simtools/__init__.py`, as a Dafny class |
| `Fsh`, `S3d` | `simtools/fsh.py`, `simtools/s3d.py` |
| `Legacy`, `LegacyQfs` | the older `dbpf` package: `dbpf/header.py`, `dbpf/__init__.py`, `dbpf/qfs.py` |

A file is a `seq<byte>`. Reads take an explicit cursor and return the
position after them. An exception is an `Err` of the `Wrappers.Error`
datatype, named after the Python exception (`struct.error` is
`StructError`; `assert` is `AssertionFailed`). A record is a value. The
archive classes hold their records in sequences that their methods
reassign. Python 2 semantics are written out wherever they matter:
- `/` on integers is floor division;
- `|` on possibly negative integers is two's-complement or (`PyOr`);
- `& 0xff` is `% 256`;
- a `bool` reads as 0 or 1 in arithmetic and comparisons.

Where a plain reading of the archive format would expect something else,
the model follows the code:
- the uncompressed size of a QFS header is computed with the last byte
  shifted by 8, so its low byte is always zero (see Findings);
- a QFS loop that stops because its budget ran out, before the declared size
  was reached, is not an error: `decompress` returns what it produced;
- the mark pass does not stop at the first matching entry. It goes on
  through the pool, and it may mark the directory entry itself;
- `equals_index` is compared as written, so a 7.1 directory record raises
  AttributeError on an index entry whose first three ids it shares (see
  Findings);
- the errors are the exceptions the code raises: `ValueError`,
  `NotImplementedError`, `struct.error`, `AssertionError`, `AttributeError`;
- the older package's header has no `index_version`, so its archive object
  fails on every header that announces index entries (see Findings).

The main exception to following the code is the mark pass; the smaller
ones are listed under Left out. In the model of the archive
object of `simtools/__init__.py`, an entry a directory record has matched
leaves the search pool, and only that entry. The code calls
`indices.remove(index)` instead. That removes the first pool entry which is
the same object or holds different data, and the iteration then skips the
next element. The pass exactly as written is modelled beside
it, in `MarkPass`: what it marks is proved to be listed by a directory
record, and an example shows a listed entry it leaves unmarked (see
Findings and Left out).

## Model

| member | source | states |
|---|---|---|
| Bytes.LittleEndianRoundTrip | simtools/util.py:24 | encoding the little-endian reading of some bytes, at their own length, gives the bytes back |
| Bytes.SignedRoundTrip | dbpf/header.py:67 | for an unsigned value below 256^n, the unsigned reading of its two's-complement signed reading is the value again |
| Bytes.Read | simtools/util.py:22 | `read(n)` gives the next `min(n, remaining)` bytes of the file, and nothing at or past the end |
| Versions.ParseIntOfIntToString | simtools/dbpf.py:24-30 | `int(unicode(i)) == i` for every integer |
| Versions.IntToStringInjective | simtools/dbpf.py:24-26 | distinct integers render as distinct strings |
| Versions.SplitJoin | simtools/dbpf.py:30 | `split('.')` of `a + '.' + b` gives `[a, b]` when neither piece holds a dot |
| Versions.SetThenGet | simtools/dbpf.py:24-30 | setting `"a.b"` stores the integers `a` and `b`, and the getter then returns `"a.b"` |
| Versions.GetThenSet | simtools/dbpf.py:24-30 | writing back the version just read leaves both integer fields as they were |
| Versions.JoinInjective | simtools/dbpf.py:24-26 | the getter's `major.minor` text determines both numbers |
| Versions.VersionTextIs | simtools/dbpf.py:24-26 | the texts `"a.b"` and `"x.y"` of integer pairs are equal iff the pairs are |
| Versions.SetVersionTooMany | simtools/dbpf.py:28-30 | three integer pieces joined by dots fail with "too many values to unpack" |
| Versions.SetVersionTooFew | simtools/dbpf.py:28-30 | a single integer without a dot fails with "need more than 1 value to unpack" |
| Versions.SetVersionNotANumber | simtools/dbpf.py:28-30 | a piece that `int()` refuses makes the setter raise ValueError |
| Versions.ParseSignSpace | simtools/dbpf.py:30 | `int()` accepts whitespace between the sign and the digits: a sign, any run of whitespace and the digits of `n` read as `±n` |
| Versions.ParseSignAlone | simtools/dbpf.py:30 | a sign followed only by whitespace is refused |
| BaseStruct.EncodeDecodeField | simtools/util.py:24-28 | encoding a decoded field gives back its bytes |
| BaseStruct.DecodeEncodeField | simtools/util.py:24-28 | decoding an encoded value gives the value, for every value the format accepts |
| BaseStruct.PackOfUnpack | simtools/util.py:24-28 | `pack(*unpack(bs)) == bs` for every byte string of the struct's size |
| BaseStruct.UnpackOfPack | simtools/util.py:24-28 | `unpack(pack(*vals)) == vals` when every value fits its field |
| BaseStruct.PackRefuses | simtools/util.py:26-28 | one value that its field refuses makes `raw` raise `struct.error` |
| BaseStruct.EncodeFieldError | simtools/util.py:26-28 | packing fails only with `struct.error` |
| BaseStruct.AssignLookup | simtools/util.py:15-16 | after `d[k] = v`, `d[k]` is `v` and every other key reads as before |
| BaseStruct.AssignDistinct | simtools/util.py:15-16 | assignment keeps the keys of the ordered dictionary distinct |
| BaseStruct.ZipLongestAt | simtools/util.py:15 | `izip_longest` pairs position `i` of both lists and pads the shorter with None |
| BaseStruct.Build | simtools/util.py:10-16 | the constructor's loop builds exactly the record that binds the fields to the arguments, padded with None |
| BaseStruct.ConstructExact | simtools/util.py:10-16 | with one argument per field, the dictionary maps each field to its argument, in declaration order |
| BaseStruct.Parse | simtools/util.py:18-24 | `parse` succeeds exactly when the struct fits in the rest of the file, fails with `struct.error` otherwise, and moves the cursor by the struct's size |
| BaseStruct.ParsedFields | simtools/util.py:18-24 | a parsed record's values are the decoded bytes, in field order, under distinct keys |
| BaseStruct.RawOfParsed | simtools/util.py:18-28 | an unmodified parsed record re-encodes to exactly the bytes it was parsed from |
| BaseStruct.GetAttr | simtools/util.py:30-34 | an undeclared name that was never set raises AttributeError; a declared field reads from `_data` |
| BaseStruct.SetAttr | simtools/util.py:36-40 | the name then reads as the value; a declared field changes `_data` only, any other name changes only the attributes outside it |
| BaseStruct.SetAttrFrame | simtools/util.py:36-40 | setting one name leaves every other name reading as before |
| BaseStruct.SetUndeclaredKeepsRaw | simtools/util.py:26-40 | setting an undeclared name leaves `raw` unchanged |
| BaseStruct.SetFieldKeepsOrder | simtools/util.py:36-38 | setting a declared field keeps the order of `_data`, so `raw` packs the fields in declaration order |
| Qfs.DeclaredSize | simtools/qfs.py:15 | the size as written is a multiple of 256 below 2^24, at least `b6*65536 + b7*256` |
| Qfs.DeclaredSizeCounterexample | simtools/qfs.py:15 | a header for 300 bytes (00 01 2C) claims 0x2D00 as written |
| Qfs.IntendedSizeRoundTrip | simtools/qfs.py:15 | every size below 2^24 has exactly one big-endian encoding, which the intended reading recovers |
| Qfs.ParseFrameHeader | simtools/qfs.py:11-15 | the header parse succeeds exactly when 9 bytes are there and the magic is 0xFB10; it gives the little-endian compressed size and the declared size |
| Qfs.DecodeCommand | simtools/qfs.py:28-59 | the literal count, copy length and offset each opcode class allows |
| Qfs.CopyBack | simtools/qfs.py:65-69 | a copy appends `n` bytes and keeps the output before them |
| Qfs.CopyBackRepeats | simtools/qfs.py:65-69 | each copied byte equals the byte `offset` positions before it, so an overlapping copy repeats itself |
| Qfs.Step | simtools/qfs.py:24-69 | one iteration moves the cursor forward, uses at least one unit of budget, only appends to the output, and fails at the end of the input |
| Qfs.StepResult | simtools/qfs.py:24-69 | an iteration's output is the old output, the literal bytes read, then the copied bytes |
| Qfs.Run | simtools/qfs.py:21-71 | the output only grows, and a run that ends normally has used up its budget or reached the declared size |
| Qfs.DecompressStream | simtools/qfs.py:21-71 | the loop with its cursor, budget and result variables computes the specification function `Run` |
| Qfs.Decompress | simtools/qfs.py:7-18 | the method computes `Decompressed`: the frame header, then the loop with a budget of `compressed_size - 9` |
| Qfs.Decompressed | simtools/qfs.py:7-18 | a success carries the parsed frame header |
| Qfs.DecompressChecksMagic | simtools/qfs.py:14 | a frame whose magic is not 0xFB10 fails the assertion |
| Qfs.DecompressStops | simtools/qfs.py:24 | a successful decompression has used up its budget or produced at least the declared size |
| Qfs.RunBudgetMonotone | simtools/qfs.py:24 | a larger budget runs the same iterations for longer: the smaller run succeeds and its output is a prefix |
| Qfs.OverlapExample | simtools/qfs.py:56-69 | one literal 'A' and a six-byte copy at offset 1 decode to seven 'A's |
| MagicTable.DictOfAgrees | simtools/magic.py:9-25 | a dictionary display maps each key to its last value in the display |
| MagicTable.TidDuplicateKey | simtools/magic.py:10-12 | 0x1ABE787D and 0x1abe787d are one key, and the later entry wins |
| MagicTable.TidTagsAgree | simtools/magic.py:9-25 | every table entry's tag agrees with its handler class |
| MagicTable.MagicIndexLookup | simtools/magic.py:29-33 | a known type id selects its entry, and any other value selects the `data` fallback |
| MagicTable.MagicIndexOnlyTypeId | simtools/magic.py:29-33 | the lookup depends on `type_id` alone |
| MagicTable.MagicIndex | simtools/magic.py:29-33 | a missing `type_id` propagates its AttributeError |
| Dbpf.HeaderShape | simtools/dbpf.py:9-22 | the header struct is 96 bytes: a 4-byte magic, 17 distinct signed 32-bit fields and 24 reserved bytes |
| Dbpf.IndexShape | simtools/dbpf.py:75-90 | index entries are 20 bytes for 7.0 and 24 for 7.1, with distinct field names and no field called `compressed` |
| Dbpf.HoleShape | simtools/dbpf.py:103-106 | a hole is 8 bytes of two distinct fields |
| Dbpf.DirShape | simtools/dbpf.py:114-127 | directory records are 16 bytes for 7.0 and 20 for 7.1 |
| Dbpf.HeaderVersionsRoundTrip | simtools/dbpf.py:24-46 | each of the three version properties returns the `"a.b"` it was set to |
| Dbpf.Index | simtools/dbpf.py:92-101 | 7.0 selects Index70, 7.1 selects Index71, and any other version raises NotImplementedError; a header argument stands for its index version |
| Dbpf.Dir | simtools/dbpf.py:129-138 | the same dispatch for DIR70 and DIR71 |
| Dbpf.DispatchAgrees | simtools/dbpf.py:92-138 | `index` and `dir` succeed on the same versions, and pick the classes of one version |
| Dbpf.IndexOfHeader | simtools/dbpf.py:92-101 | a header with integer index version fields selects Index70 iff they are 7 and 0, Index71 iff 7 and 1, and fails otherwise |
| Dbpf.IndexOfText | simtools/dbpf.py:92-101 | the same for the text `"major.minor"`: Index70 iff 7 and 0, Index71 iff 7 and 1, NotImplementedError otherwise |
| Dbpf.ResolveHeader | simtools/dbpf.py:93-94 | a header argument is replaced by the text of its index version |
| Dbpf.NewIndex | simtools/dbpf.py:49-53 | a new index entry is a valid record that starts with `compressed` False |
| Dbpf.ParseAs | simtools/util.py:18-24 | `cls.parse` succeeds exactly when the class's struct fits, and moves the cursor by its size |
| Dbpf.ParsedIndex | simtools/dbpf.py:49-90 | a parsed index entry holds the decoded fields in order, is uncompressed, and re-encodes to its bytes |
| Dbpf.IntAttr | simtools/__init__.py:38 | reading a field as an integer propagates AttributeError and gives integer fields unchanged |
| Dbpf.AllEqualMeaning | simtools/dbpf.py:109-111 | `all(...)` over the compared fields is the conjunction of the pairwise comparisons |
| Dbpf.AlignedFields | simtools/dbpf.py:109-111 | on aligned records, the paired reads are the two `_data` values at each position |
| Dbpf.EqualsIndex70 | simtools/dbpf.py:108-119 | as written, a 7.0 directory record equals an index entry iff type, group and instance ids agree |
| Dbpf.EqualsIndex71Fails | simtools/dbpf.py:121-127 | as written, a 7.1 comparison raises AttributeError on `instance_id2` when the first three ids agree, and is False otherwise |
| Dbpf.EqualsIndexCorrectedMeaning | simtools/dbpf.py:108-127 | the corrected comparison is True iff all fields but `size` agree pairwise, for both versions |
| Dbpf.EqualsIndexAsCorrected | simtools/dbpf.py:108-127 | without `instance_id2` among the compared names, the comparison as written is the corrected one |
| Dbpf.OpenFitting | simtools/dbpf.py:55-64 | an entry whose bytes fit in the file opens to their payload, with the handler its type id selects, or fails as the payload fails |
| Dbpf.OpenUncompressed | simtools/dbpf.py:55-64 | an uncompressed entry opens to the bytes `[location, location + size)`, with the handler its type id selects |
| Dbpf.OpenCompressed | simtools/dbpf.py:55-64 | a compressed entry opens to the decompressed stored bytes, and fails as decompression fails |
| Dbpf.OpenNegativeLocation | simtools/dbpf.py:56 | a negative location fails in `seek` before anything is read |
| Tables.ReadRecordsMeaning | simtools/__init__.py:43-44 | reading `n` fixed-width records succeeds iff they fit; it gives the records stored from the cursor on, and the cursor ends after the last one |
| Tables.ReadTableMeaning | simtools/__init__.py:41-47 | a table read succeeds iff the offset is not negative, the records fit, and the size field is `count` widths; it then holds the stored records |
| Tables.ReadTablePastEnd | simtools/__init__.py:43-44 | a table that runs past the end of the file raises `struct.error` |
| Tables.ExtractNothing | simtools/__init__.py:38-50 | a count below one reads no table |
| Tables.ExtractIndicesMeaning | simtools/__init__.py:37-47 | with a positive count and version 7.0 or 7.1, the index table is read iff it fits and its size is `count` entries of 20 or 24 bytes |
| Tables.ExtractHolesMeaning | simtools/__init__.py:49-57 | the same for the hole table, in 8-byte records |
| TableReads.ReadRecordsLoop | simtools/__init__.py:43-44 | the `for _ in xrange(count)` loop computes the specification function `ReadRecords` |
| MarkPass.MarkKeeps | simtools/__init__.py:76 | `index.compressed = True` sets the flag and changes nothing else |
| MarkPass.MarkIdempotent | simtools/__init__.py:76 | marking twice is marking once |
| MarkPass.Remove | simtools/__init__.py:77 | `list.remove(v)` takes the first pool element that is `v` or that `__cmp__` calls equal, i.e. whose data DIFFER from `v`'s. No earlier element qualifies, the result is the pool with exactly that element taken out, and ValueError is raised iff no element qualifies |
| MarkPass.ScanKeeps | simtools/__init__.py:74-77 | a scan over the pool only sets `compressed` flags, whichever search it runs |
| MarkPass.ScanDropMeaning | simtools/__init__.py:74-77 | when each matched entry leaves the pool, the search marks exactly the pool entries the record matches, and leaves the others in the pool, in order |
| MarkPass.ScanDropHit | simtools/__init__.py:74-77 | the same, from a pool position whose entry matches |
| MarkPass.ScanDropMiss | simtools/__init__.py:74-77 | the same, from a pool position whose entry does not match |
| MarkPass.ScanMarksMatched | simtools/__init__.py:74-77 | either search, `list.remove` as written or dropping each match, marks only entries the record's `equals_index` accepts, and sets nothing but their flag |
| MarkPass.ScanHitMarksMatched | simtools/__init__.py:74-77 | the same, from a pool position whose entry matches |
| MarkPass.MissesMember | simtools/__init__.py:74-77 | an entry stays in the pool iff it was there and the record does not match it |
| MarkPass.AsWrittenMissesListed | simtools/__init__.py:74-77 | as written, two directory records that list both entries leave one entry unmarked |
| MarkPass.CorrectedMarksListed | simtools/__init__.py:74-77 | dropping exactly the matched entry from the pool, the same two-entry example has both entries marked |
| MarkPass.CompareMark | simtools/dbpf.py:109-111 | the comparison ignores the `compressed` flag of the index entry |
| MarkPass.DirTableKeeps | simtools/__init__.py:71-77 | a directory table only sets `compressed` flags |
| MarkPass.DirTableDropMeaning | simtools/__init__.py:68-77 | when each matched entry leaves the pool, a directory table marks exactly the entries that one of its records lists, with either comparison |
| MarkPass.DirTableMarksListed | simtools/__init__.py:68-77 | with every pass, the one as written included, a directory table marks only entries one of its records lists |
| MarkPass.DirectoryOfBlind | simtools/__init__.py:61-66 | which entries are directories, and their record counts, do not depend on the flags being set |
| MarkPass.DirectoryOfFields | simtools/__init__.py:61-66 | what an entry says of a directory depends only on its `type_id`, `size` and `location` |
| MarkPass.MarkFromKeeps | simtools/__init__.py:59-77 | the whole pass only sets `compressed` flags |
| MarkPass.MarkFromDropMeaning | simtools/__init__.py:59-77 | when each matched entry leaves the pool, a successful pass marks exactly the entries listed in any directory table, with either comparison |
| MarkPass.MarkFromMarksListed | simtools/__init__.py:59-77 | with every pass, the one as written included, a successful `_mark_compressed` marks only entries that some directory record's `equals_index` accepts |
| MarkPass.AsWrittenMarksListed | simtools/__init__.py:59-77 | `_mark_compressed` exactly as written changes an entry only by setting its flag, and only when some directory record's `equals_index` accepts it |
| MarkPass.NoDirectoryNoMarks | simtools/__init__.py:60-61 | without a directory entry the pass changes nothing |
| Container.OpenedShort | simtools/__init__.py:28 | a file shorter than the 96-byte header fails with `struct.error` |
| Container.HeaderChecksMeaning | simtools/__init__.py:28-31 | a header is accepted iff its magic is `DBPF` and its version 1.0; a wrong magic is reported first |
| Container.ExtractedUnmarked | simtools/__init__.py:37-47 | freshly read index entries are all uncompressed |
| Container.OpenedFromMeaning | simtools/__init__.py:33-35 | past the header checks, the archive holds the hole table and the index table. Marked in it are exactly the entries some directory record's `equals_index`, as written, accepts, when each matched entry leaves the pool |
| Container.OpenedMeaning | simtools/__init__.py:27-35 | an opened archive holds the checked header, its hole table, and its index table marked as `Container.OpenedFromMeaning` says |
| Container.OpenedFlags | simtools/__init__.py:59-77 | when each matched entry leaves the pool, an entry of an opened archive is compressed iff some directory record's `equals_index`, as written, accepts it |
| Container.ReadTableLoop | simtools/__init__.py:41-47 | seek, the read loop and the `tell` check compute the specification function `ReadTable` |
| Container.DBPF.constructor | simtools/__init__.py:9-14 | the fields start empty |
| Container.DBPF.Open | simtools/__init__.py:9-18 | `DBPF(fileobj)` gives the archive `Opened` describes, or raises its exception; `Opened` runs the mark pass with `equals_index` as written and each matched entry leaving the pool |
| Container.DBPF.ParseFile | simtools/__init__.py:27-35 | `_parse_file` leaves the header and tables of `Opened`, or its exception |
| Container.DBPF.ReadHeader | simtools/__init__.py:28-31 | the header read and both checks, with the tables untouched |
| Container.DBPF.ReadTables | simtools/__init__.py:33-35 | the index table, the hole table, then `_mark_compressed` (each matched entry leaving the pool), giving the archive `OpenedFrom` describes or its exception |
| Container.DBPF.ExtractIndices | simtools/__init__.py:37-47 | appends the index table the header describes, or raises; on a raise the table is left as it was, where Python keeps the records read before it (Left out) |
| Container.DBPF.ExtractHoles | simtools/__init__.py:49-57 | appends the hole table the header describes, or raises; on a raise the table is left as it was, where Python keeps the holes read before it (Left out) |
| Container.DBPF.ScanPool | simtools/__init__.py:74-77 | the inner loop over the pool marks the matched entries in place, as the specification `Scan` says |
| Container.DBPF.MarkTable | simtools/__init__.py:68-77 | the records of one directory entry, read by the directory record class, each searched for in one shared pool, leave the entries `DirTable` describes |
| Container.DBPF.MarkRecord | simtools/__init__.py:71-77 | one record read and searched for: the rest of the table from the new cursor and pool gives what the whole table would |
| Container.DBPF.MarkCompressed | simtools/__init__.py:59-77 | `_mark_compressed`, with the pass given, leaves the entries `MarkFrom` describes, and only sets flags |
| Container.DBPF.Iter | simtools/__init__.py:82-84 | `__iter__` restarts the iteration and changes nothing else |
| Container.DBPF.Next | simtools/__init__.py:86-89 | `next` gives the entries in order, then raises StopIteration |
| Fsh.HeaderShape | simtools/fsh.py:6-11 | the file header is 16 bytes of four distinct fields |
| Fsh.DirectoryShape | simtools/fsh.py:14-17 | a directory record is 8 bytes |
| Fsh.EntryShape | simtools/fsh.py:20-31 | an entry header is 16 bytes: four signed bytes, then six 16-bit fields |
| Fsh.SetSize | simtools/fsh.py:37-41 | the setter keeps the record valid and its layout |
| Fsh.SetSizeFields | simtools/fsh.py:37-41 | the setter stores `v >> 16`, `(v >> 8) & 0xff` and `v & 0xff` |
| Fsh.SizeRoundTrip | simtools/fsh.py:33-41 | reading the size after setting it gives the value set, for every integer |
| Fsh.SizeOfParts | simtools/fsh.py:33-35 | fields holding the top part and the two low bytes of `v` read as size `v` |
| Fsh.SetSizeFrame | simtools/fsh.py:37-41 | the setter changes nothing but the three size fields |
| Fsh.ParsedRecordId | simtools/fsh.py:21-22 | a parsed entry's `record_id` is its first byte read as signed |
| Fsh.ParsedSize | simtools/fsh.py:20-35 | as written, a parsed entry's size comes from the three size bytes read as signed; without top bits it is their 24-bit big-endian number |
| Fsh.CorrectedParsedSize | simtools/fsh.py:20-35 | with unsigned size bytes, the parsed size is always the 24-bit big-endian number |
| Fsh.ResizeRoundTrip | simtools/fsh.py:20-41 | parsing, setting size `v`, packing and parsing again gives size `v` when the stored parts fit |
| Fsh.EntryResize | simtools/fsh.py:20-41 | as written, `raw` after the setter succeeds iff the parts fit signed bytes; the size reads back, and otherwise `struct.error` |
| Fsh.SignedSizeCounterexample | simtools/fsh.py:21-41 | size bytes 00 00 80 read as -128, and setting size 128 leaves a record that cannot be packed |
| Fsh.CorrectedResize | simtools/fsh.py:20-41 | with unsigned size bytes, every size below 2^24 is set, packed and parsed back unchanged |
| S3d.HeaderShape | simtools/s3d.py:6-9 | the file header is an 8-byte magic and size |
| S3d.HeadShape | simtools/s3d.py:12-17 | the `HEAD` chunk is 12 bytes |
| S3d.VertShape | simtools/s3d.py:28-35 | the vertex-block header is 20 bytes of six distinct fields |
| S3d.HeadVersionRoundTrip | simtools/s3d.py:19-25 | setting the version to `"a.b"` stores `a` and `b`, and the getter returns `"a.b"` |
| S3d.HeadVersionMalformed | simtools/s3d.py:23-25 | a single integer, or three integer pieces joined by dots, raise the unpacking ValueError |
| S3d.ParsedHeadVersion | simtools/s3d.py:12-21 | a parsed `HEAD` chunk's version renders the 16-bit numbers at offsets 8 and 10 |
| Legacy.IndexShape | dbpf/header.py:66-81 | legacy index entries are 20 or 24 bytes of signed 32-bit fields |
| Legacy.HoleShape | dbpf/header.py:92-95 | a legacy hole is 8 bytes of two signed fields |
| Legacy.SignedTwins | dbpf/header.py:66-95 | the legacy layouts are the newer ones with every unsigned field made signed |
| Legacy.SignedTypeId | dbpf/header.py:66-81 | the legacy `type_id` is the signed reading of the four bytes: ids from 2^31 come out negative, 2^32 less |
| Legacy.IndexMeaning | dbpf/header.py:83-89 | 7.0 and 7.1 select the two classes, anything else (a header too) raises NotImplementedError; strings and numbers dispatch as in the newer package |
| Legacy.HeaderChecksMeaning | dbpf/__init__.py:24-31 | with `ignore_magic` off a header is accepted iff its magic is `DBPF` and its version 1.0; with it on, iff its version is 1.0 |
| Legacy.IgnoreMagicWeaker | dbpf/__init__.py:26-28 | switching the magic check off accepts every header that passes it |
| Legacy.OpenedShort | dbpf/__init__.py:24 | a file shorter than the header fails with `struct.error`, as written and corrected |
| Legacy.ExtractNothing | dbpf/__init__.py:33-44 | a count below one reads no table |
| Legacy.ExtractIndicesMeaning | dbpf/__init__.py:33-42 | with the index version supplied, the index table is read iff it fits and its size field is `count` entries of 20 or 24 bytes |
| Legacy.ExtractHolesMeaning | dbpf/__init__.py:44-51 | the hole table is read iff it fits and its size field is `count` 8-byte records |
| Legacy.IndexBranchFails | dbpf/__init__.py:33-34 | as written, every archive that passes the checks and announces an index entry fails on `index_version` |
| Legacy.AsWrittenWithoutIndex | dbpf/__init__.py:33-51 | without index entries, the pass as written and the corrected one open the same archive |
| Legacy.OpenedAsWrittenMeaning | dbpf/__init__.py:23-51 | as written, an archive opens iff its header passes the checks, announces no index entry, and its hole table is read; it then holds no index entries |
| Legacy.OpenedMeaning | dbpf/__init__.py:23-51 | with the index version read from its two fields, an archive opens iff the header passes its checks and both tables are read; it holds them, in file order |
| Legacy.DBPF.constructor | dbpf/__init__.py:6-11 | the fields start empty, with `ignore_magic` as given |
| Legacy.DBPF.Open | dbpf/__init__.py:6-14 | without a file the archive is empty; with one it is what `OpenedAsWritten` describes, or its exception |
| Legacy.DBPF.ParseFile | dbpf/__init__.py:23-51 | as written: the header is replaced and the tables are appended to what the archive held, or the pass raises what `OpenedAsWritten` raises |
| Legacy.DBPF.ReadHeader | dbpf/__init__.py:24-31 | the header read and the checks, with the tables untouched |
| Legacy.DBPF.AppendIndices | dbpf/__init__.py:33-42 | given what reading `index_version` gives, appends the index table, or raises the first error on the way |
| Legacy.DBPF.AppendHoles | dbpf/__init__.py:44-51 | appends the hole table, or raises |
| LegacyQfs.FileHeader | dbpf/qfs.py:4-10 | a negative position fails in `seek`, a short read fails to unpack; otherwise the fields are read little endian and the magic is not checked |
| LegacyQfs.DecompressFile | dbpf/qfs.py:4-12 | the header at `position`, then the loop from `position + 9` with the whole `compressed_size` as budget |
| LegacyQfs.RunSame | dbpf/qfs.py:15-65 | the loop reads nothing before its cursor |
| LegacyQfs.MagicIgnored | dbpf/qfs.py:9 | whatever the two magic bytes hold, the frame decompresses to the same result |
| LegacyQfs.MagicIgnoredExample | dbpf/qfs.py:7-12 | nine zero bytes: the newer decompressor refuses them and this one returns nothing |
| LegacyQfs.LargerBudget | dbpf/qfs.py:12 | on a frame with the right magic, a success here means the newer package succeeds too, with a prefix of this output |

## Left out

- `simtools/file.py`, `simtools/ext/squish*` and `dbpf/file.py` are not part of this model; `IndexBaseStruct.open` stops at the handler class and the bytes it would be given.
- `DBPF.open(path)`, `close`, `__enter__`/`__exit__` and the `basestring` branch of the legacy `parse_file`: file-system I/O. A file is the byte sequence it holds.
- `__cmp__`, `__hash__` and `__repr__`: only the part of `__cmp__` that `list.remove` relies on is modelled (in `MarkPass.Remove`); hashing and printing are not.
- `enforce` is not defined in `simtools/util.py`; it is modelled as raising the given exception with its message unless the condition holds.
- Formats without a byte-order prefix (`simtools/fsh.py`, `simtools/s3d.py`, `dbpf/qfs.py`) are read little endian; none of them needs alignment padding.
- The file cursor is not part of the archive's state: each read takes its position explicitly, and the header is always read at position 0.
- Records are values, not shared objects. The index pool of the mark pass holds positions in the index table, which stand in for object identity.
- Python 2 comparisons between values of different types are modelled only where the code compares them: bools against integers, strings against strings.
- Qfs.Step: a copy whose offset reaches before the start of the output fails with CopyOutOfRange. In Python a negative index wraps to the end of the string.
- Container.DBPF.ParseFile: requires empty tables, as the constructor leaves them. A second call on a filled archive is not modelled.
- Container.DBPF.ExtractIndices: on a failed read, the records appended before the failure are dropped. Python appends them one by one, and the exception leaves them in the list.
- Container.DBPF.ExtractHoles: the same partial-append simplification as Container.DBPF.ExtractIndices. A failed `Hole.parse` leaves the holes read before it, and a failed `tell` check leaves all of them.
- Legacy.DBPF.AppendIndices: the same partial-append simplification as Container.DBPF.ExtractIndices.
- Versions.ParseInt: `int()` is modelled on ASCII text: the digits `0` to `9` and the six C whitespace characters. On a unicode string Python 2 also accepts the other Unicode decimal digits and whitespace (`int(u'\u0661') == 1`); the model refuses them.
- Versions.SetVersionNotANumber: its premise uses the ASCII `int()` of Versions.ParseInt, so it also covers pieces of non-ASCII decimal digits that Python 2 accepts in a unicode string.
- Container.DBPF.Open: the mark pass drops each matched entry from the search pool, as the search evidently intends. The code's `indices.remove(index)` removes the first entry with different data and skips the next element, so on a 7.0 archive whose directory lists entries out of table order it can leave a listed entry unmarked that this model marks. That pass is `MarkPass.AsWritten`; `MarkPass.AsWrittenMarksListed` and `MarkPass.AsWrittenMissesListed` state what it does. The same holds for Container.Opened, Container.OpenedFrom, Container.DBPF.ParseFile and Container.DBPF.ReadTables.
- MarkPass.MarkFromDropMeaning: characterizes the result when the pass succeeds; failures are characterized only through MarkPass.MarkFromKeeps.
- The legacy record plumbing of `dbpf/header.py` cannot construct a record as written. Its `parse` is a static method taking the class, the class is called with one tuple, and `__setattr__` calls its super without the value. The legacy open pass is modelled as if `parse` decoded the layout as in the newer package.
- Writing an archive and compressing a payload are not part of this model: no modelled source file does either.
- `magic = hex(data[1])` in `dbpf/qfs.py` is computed and unused; the model does not compute it.
- Python 2 raises RuntimeError at the recursion limit; the model calls that error RecursionError.

## Findings

| source | as written | input that shows it | evidently intended | confidence | as-written member | corrected member |
|---|---|---|---|---|---|---|
| simtools/qfs.py:15 | `header[4] << 8` shifts the last size byte like the middle one, so the low byte of the size is lost and or-ed into bits 8..15 | size bytes 00 01 2C (300) give 0x2D00 | shift `header[2]` by 16 and `header[3]` by 8, and or in `header[4]` unshifted | high, not executed | Qfs.DeclaredSizeCounterexample | Qfs.IntendedSizeRoundTrip |
| simtools/dbpf.py:126 | DIR71 names its fourth field `instance_id2`, but the index entry calls it `instance2_id`; `equals_index` raises AttributeError once the first three ids match | a 7.1 directory record and index entry with equal type, group and instance ids | compare the second instance ids | high, not executed | Dbpf.EqualsIndex71Fails | Dbpf.EqualsIndexCorrectedMeaning |
| simtools/__init__.py:74-77 | `indices.remove(index)` compares through `__cmp__`, which returns True for equal records and so means "different"; it removes the first entry that is the same object or holds different data. Removing while iterating also skips the next entry | two entries and two directory records, the first listing entry 2 and the second entry 1: entry 1 is removed unmarked | mark the matched entry and drop exactly it from the pool | medium, not executed | MarkPass.AsWrittenMissesListed | MarkPass.CorrectedMarksListed |
| simtools/fsh.py:21-41 | the size bytes are declared signed (`b3b`), while the setter stores 0..255 and the getter treats them as unsigned bytes | size bytes 00 00 80 read as size -128; setting size 128 makes `raw` raise `struct.error` | unsigned size bytes (`B3B`) | medium, not executed | Fsh.SignedSizeCounterexample | Fsh.CorrectedResize |
| dbpf/__init__.py:34 | the legacy Header has no `index_version`, so `__getattr__` hands the name to `super(Header, self).__getattr__`, which is itself, until the recursion limit | any header that passes the checks with `index_count` >= 1 | read the index version from `index_version_major` and `index_version_minor`, as the newer package does | high, not executed | Legacy.IndexBranchFails | Legacy.ExtractIndicesMeaning |

/**
 * Reading the index and hole tables of a DBPF archive: `count` records of
 * one class, one after another from a table offset, followed by the check
 * that the file cursor landed exactly at `offset + size`.
 */
module Tables {
  import opened Wrappers
  import opened Bytes
  import opened FieldNames
  import opened BaseStruct
  import opened Versions
  import opened Dbpf

  /** `cls.parse` bound to a file: reads one record at a cursor, giving the record and the new cursor. */
  type Reader = nat -> Result<(Record, nat)>

  function ClassReader(cls: RecordClass, file: seq<byte>): Reader
  {
    p => ParseAs(cls, file, p)
  }

  /** `for _ in xrange(n): table.append(cls.parse(fileobj))`, starting at cursor `pos`. */
  function ReadRecords(parse: Reader, pos: nat, n: nat): Result<(seq<Record>, nat)>
    decreases n
  {
    if n == 0 then Ok(([], pos))
    else
      var (rec, next) :- parse(pos);
      var (rest, end) :- ReadRecords(parse, next, n - 1);
      Ok(([rec] + rest, end))
  }

  /**
   * `parse` reads records of `w` bytes from a file of `size` bytes the way
   * `struct.unpack` does: it succeeds exactly when a whole record is left,
   * moves the cursor past it, and otherwise fails with `struct.error`.
   */
  ghost predicate FixedWidth(parse: Reader, w: nat, size: nat)
  {
    forall p: nat :: (parse(p).Ok? <==> p + w <= size) &&
      (parse(p).Ok? ==> parse(p).value.1 == p + w) && (parse(p).Err? ==> parse(p).error == StructError)
  }

  lemma {:induction false} ClassReaderFixedWidth(cls: RecordClass, file: seq<byte>)
    requires StructSize(cls.layout) > 0
    ensures FixedWidth(ClassReader(cls, file), StructSize(cls.layout), |file|)
  {
  }

  /** `rs` are the `n` records of width `w` stored one after another from `pos`. */
  predicate TableAt(parse: Reader, w: nat, pos: nat, n: nat, rs: seq<Record>)
  {
    |rs| == n && forall k :: 0 <= k < n ==> parse(pos + k * w).Ok? && rs[k] == parse(pos + k * w).value.0
  }

  lemma {:induction false} StepOffsets(pos: nat, w: nat, n: nat)
    requires n > 0
    ensures (pos + w) + (n - 1) * w == pos + n * w
  {
    assert n * w == (n - 1) * w + w;
  }

  /** A record followed by a table of `n - 1` records is a table of `n`. */
  lemma {:induction false} TableAtCons(parse: Reader, w: nat, pos: nat, n: nat, first: Record, rest: seq<Record>)
    requires n > 0 && parse(pos).Ok? && parse(pos).value.0 == first
    requires TableAt(parse, w, pos + w, n - 1, rest)
    ensures TableAt(parse, w, pos, n, [first] + rest)
  {
    var rs := [first] + rest;
    forall k | 0 <= k < n
      ensures parse(pos + k * w).Ok? && rs[k] == parse(pos + k * w).value.0
    {
      if k > 0 {
        StepOffsets(pos, w, k);
        assert rs[k] == rest[k - 1];
      }
    }
  }

  /**
   * Reading `n` records of positive width succeeds exactly when there are
   * none or they all fit in the file; then they are the records stored from
   * `pos` on, and the cursor ends just after the last one. Otherwise
   * `struct.unpack` fails on the short read.
   */
  lemma {:induction false} ReadRecordsMeaning(parse: Reader, w: nat, size: nat, pos: nat, n: nat)
    requires w > 0 && FixedWidth(parse, w, size)
    ensures ReadRecords(parse, pos, n).Ok? <==> n == 0 || pos + n * w <= size
    ensures ReadRecords(parse, pos, n).Err? ==> ReadRecords(parse, pos, n).error == StructError
    ensures ReadRecords(parse, pos, n).Ok? ==>
      ReadRecords(parse, pos, n).value.1 == pos + n * w && TableAt(parse, w, pos, n, ReadRecords(parse, pos, n).value.0)
    decreases n
  {
    if n > 0 {
      StepOffsets(pos, w, n);
      FirstFits(pos, w, n, size);
      var first := parse(pos);
      if first.Ok? {
        var rest := ReadRecords(parse, pos + w, n - 1);
        ReadRecordsMeaning(parse, w, size, pos + w, n - 1);
        if rest.Ok? {
          assert ReadRecords(parse, pos, n) == Ok(([first.value.0] + rest.value.0, rest.value.1));
          TableAtCons(parse, w, pos, n, first.value.0, rest.value.0);
        } else {
          assert ReadRecords(parse, pos, n) == Err(rest.error);
        }
      }
    } else {
      assert TableAt(parse, w, pos, 0, []);
    }
  }

  lemma {:induction false} FirstFits(pos: nat, w: nat, n: nat, size: nat)
    requires n > 0
    ensures pos + n * w <= size ==> pos + w <= size
  {
    assert n * w == (n - 1) * w + w;
  }

  /**
   * A table read after the count check: seek to the table offset, read
   * `count` records, then demand that the cursor is at the offset plus the
   * table size. `offset` and `size` are the header fields as read, the
   * size only once the records are in.
   */
  function ReadTable(parse: Reader, offset: Result<int>, size: Result<int>, count: nat): Result<seq<Record>>
  {
    var start :- offset;
    if start < 0 then Err(SeekError)
    else
      var (rs, end) :- ReadRecords(parse, start, count);
      var length :- size;
      if end != start + length then Err(ValueError("incorrect amount of data read, file to small?"))
      else Ok(rs)
  }

  /**
   * With integer offset and size fields, a table read succeeds exactly when
   * the offset is not negative, the records (if any) fit in the file and the size
   * field is `count` record widths; then it holds the records stored there.
   */
  lemma {:induction false} ReadTableMeaning(cls: RecordClass, file: seq<byte>, count: nat, offset: int, size: int)
    requires StructSize(cls.layout) > 0
    ensures ReadTable(ClassReader(cls, file), Ok(offset), Ok(size), count).Ok? <==>
      0 <= offset && (count == 0 || offset + count * StructSize(cls.layout) <= |file|) && size == count * StructSize(cls.layout)
    ensures ReadTable(ClassReader(cls, file), Ok(offset), Ok(size), count).Ok? ==>
      offset >= 0 &&
      TableAt(ClassReader(cls, file), StructSize(cls.layout), offset, count, ReadTable(ClassReader(cls, file), Ok(offset), Ok(size), count).value)
  {
    if offset >= 0 {
      ClassReaderFixedWidth(cls, file);
      ReadRecordsMeaning(ClassReader(cls, file), StructSize(cls.layout), |file|, offset, count);
    }
  }

  /** A short table is refused: its records run past the end of the file. */
  lemma {:induction false} ReadTablePastEnd(cls: RecordClass, file: seq<byte>, count: nat, offset: nat, size: Result<int>)
    requires StructSize(cls.layout) > 0
    requires count > 0 && offset + count * StructSize(cls.layout) > |file|
    ensures ReadTable(ClassReader(cls, file), Ok(offset), size, count) == Err(StructError)
  {
    ClassReaderFixedWidth(cls, file);
    ReadRecordsMeaning(ClassReader(cls, file), StructSize(cls.layout), |file|, offset, count);
  }

  const HoleClass := RecordClass(HoleLayout, false)

  /** `_extract_indices`: nothing when `index_count < 1`, else the table of the header's index class. */
  function ExtractIndices(file: seq<byte>, h: Record): Result<seq<Record>>
  {
    var count :- IntAttr(h, IndexCount);
    if count < 1 then Ok([])
    else
      var v :- Dbpf.IndexVersion(h);
      var c :- Index(Text(v));
      ReadTable(ClassReader(IndexRecordClass(c), file), IntAttr(h, IndexOffset), IntAttr(h, IndexSize), count)
  }

  /** `_extract_holes`: nothing when `holes_count < 1`, else the hole table. */
  function ExtractHoles(file: seq<byte>, h: Record): Result<seq<Record>>
  {
    var count :- IntAttr(h, HolesCount);
    if count < 1 then Ok([])
    else ReadTable(ClassReader(HoleClass, file), IntAttr(h, HolesOffset), IntAttr(h, HolesSize), count)
  }

  /** A count below one reads nothing. */
  lemma {:induction false} ExtractNothing(file: seq<byte>, h: Record, count: int)
    requires count < 1
    ensures IntAttr(h, IndexCount) == Ok(count) ==> ExtractIndices(file, h) == Ok([])
    ensures IntAttr(h, HolesCount) == Ok(count) ==> ExtractHoles(file, h) == Ok([])
  {
  }

  /**
   * With a positive count and integer table fields, the index table of a
   * header whose index version is 7.0 or 7.1 is read iff it fits and its
   * size field is `count` entries of that version's width, 20 or 24 bytes.
   */
  lemma {:induction false} ExtractIndicesMeaning(file: seq<byte>, h: Record, c: IndexClass,
                                                 count: int, offset: int, size: int)
    requires IntAttr(h, IndexCount) == Ok(count) && count >= 1
    requires Dbpf.IndexVersion(h).Ok? && Index(Text(Dbpf.IndexVersion(h).value)) == Ok(c)
    requires IntAttr(h, IndexOffset) == Ok(offset) && IntAttr(h, IndexSize) == Ok(size)
    ensures var w := if c == Index70 then 20 else 24;
      ExtractIndices(file, h).Ok? <==> 0 <= offset && offset + count * w <= |file| && size == count * w
    ensures ExtractIndices(file, h).Ok? ==>
      offset >= 0 && TableAt(ClassReader(IndexRecordClass(c), file), if c == Index70 then 20 else 24, offset, count, ExtractIndices(file, h).value)
  {
    IndexShape(c);
    ReadTableMeaning(IndexRecordClass(c), file, count, offset, size);
  }

  /** What an index table read gives: the records stored one after another from `offset`. */
  lemma {:induction false} ExtractIndicesTable(file: seq<byte>, h: Record, c: IndexClass, count: int, offset: int)
    requires IntAttr(h, IndexCount) == Ok(count) && count >= 1
    requires Dbpf.IndexVersion(h).Ok? && Index(Text(Dbpf.IndexVersion(h).value)) == Ok(c)
    requires IntAttr(h, IndexOffset) == Ok(offset)
    ensures ExtractIndices(file, h).Ok? ==>
      offset >= 0 && TableAt(ClassReader(IndexRecordClass(c), file), if c == Index70 then 20 else 24, offset, count, ExtractIndices(file, h).value)
  {
    if ExtractIndices(file, h).Ok? {
      ExtractIndicesMeaning(file, h, c, count, offset, IntAttr(h, IndexSize).value);
    }
  }

  /** The same for the hole table, of 8-byte records. */
  lemma {:induction false} ExtractHolesMeaning(file: seq<byte>, h: Record, count: int, offset: int, size: int)
    requires IntAttr(h, HolesCount) == Ok(count) && count >= 1
    requires IntAttr(h, HolesOffset) == Ok(offset) && IntAttr(h, HolesSize) == Ok(size)
    ensures ExtractHoles(file, h).Ok? <==> 0 <= offset && offset + count * 8 <= |file| && size == count * 8
    ensures ExtractHoles(file, h).Ok? ==>
      offset >= 0 && TableAt(ClassReader(HoleClass, file), 8, offset, count, ExtractHoles(file, h).value)
  {
    HoleShape();
    ReadTableMeaning(HoleClass, file, count, offset, size);
  }
}

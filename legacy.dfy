/**
 * The older `dbpf` package: its record layouts (dbpf/header.py) and the open
 * pass of its archive object (dbpf/__init__.py).
 *
 * The legacy header has the same 96-byte layout as the newer one, but its
 * index and hole records are signed. Its archive checks the magic only
 * when `ignore_magic` is off, requires version 1.0, and reads the two
 * tables with the same cursor checks; it has no directory pass.
 */
module Legacy {
  import opened Wrappers
  import opened Bytes
  import opened FieldNames
  import opened BaseStruct
  import opened Versions
  import Dbpf
  import Tables
  import Container

  // ----- dbpf/header.py: layouts -----

  /** `'<4s17i24s'`, field for field the header of the newer package. */
  const HeaderClass := Dbpf.RecordClass(Dbpf.HeaderLayout, false)

  /** `'<5i'` and `'<6i'`: signed 32-bit fields. */
  function IndexLayout(c: Dbpf.IndexClass): Layout
  {
    match c
    case Index70 =>
      [Field(TypeId, I32), Field(GroupId, I32), Field(InstanceId, I32), Field(Location, I32), Field(Size, I32)]
    case Index71 =>
      [Field(TypeId, I32), Field(GroupId, I32), Field(InstanceId, I32), Field(Instance2Id, I32),
       Field(Location, I32), Field(Size, I32)]
  }

  /** `'<2i'`. */
  const HoleLayout: Layout := [Field(Location, I32), Field(Size, I32)]

  /** The legacy records carry no `compressed` flag. */
  function IndexClass(c: Dbpf.IndexClass): Dbpf.RecordClass
  {
    Dbpf.RecordClass(IndexLayout(c), false)
  }

  const HoleClass := Dbpf.RecordClass(HoleLayout, false)

  lemma {:induction false} Index70Size() ensures StructSize(IndexLayout(Dbpf.Index70)) == 20 {}
  lemma {:induction false} Index71Size() ensures StructSize(IndexLayout(Dbpf.Index71)) == 24 {}
  lemma {:induction false} Index70WellFormed() ensures WellFormed(IndexLayout(Dbpf.Index70)) {}
  lemma {:induction false} Index71WellFormed() ensures WellFormed(IndexLayout(Dbpf.Index71)) {}

  /** Legacy index entries are 20 bytes for 7.0 and 24 for 7.1, of distinct fields, `type_id` first. */
  lemma {:induction false} IndexShape(c: Dbpf.IndexClass)
    ensures StructSize(IndexLayout(c)) == (if c == Dbpf.Index70 then 20 else 24) && WellFormed(IndexLayout(c))
    ensures IndexLayout(c)[0] == Field(TypeId, I32)
  {
    if c == Dbpf.Index70 {
      Index70Size();
      Index70WellFormed();
    } else {
      Index71Size();
      Index71WellFormed();
    }
  }

  /** A legacy hole record is 8 bytes of two signed numbers. */
  lemma {:induction false} HoleShape()
    ensures StructSize(HoleLayout) == 8 && WellFormed(HoleLayout)
    ensures forall i :: 0 <= i < |HoleLayout| ==> HoleLayout[i].kind == I32
  {}

  /** The legacy records have the layouts of the newer ones with every u32 read as an i32. */
  lemma {:induction false} SignedTwins(c: Dbpf.IndexClass)
    ensures |IndexLayout(c)| == |Dbpf.IndexLayout(c)| && |HoleLayout| == |Dbpf.HoleLayout|
    ensures forall i :: 0 <= i < |IndexLayout(c)| ==>
      IndexLayout(c)[i] == Field(Dbpf.IndexLayout(c)[i].name, I32) && Dbpf.IndexLayout(c)[i].kind == U32
    ensures forall i :: 0 <= i < |HoleLayout| ==>
      HoleLayout[i] == Field(Dbpf.HoleLayout[i].name, I32) && Dbpf.HoleLayout[i].kind == U32
  {}

  // ----- Signed type ids -----

  /** A parsed record's first field holds the value decoded from its first four bytes. */
  lemma {:induction false} ParsedFirstWord(l: Layout, file: seq<byte>, pos: nat)
    requires WellFormed(l) && pos + StructSize(l) <= |file| && 0 < |l| && BaseStruct.Width(l[0].kind) == 4
    ensures Parse(l, file, pos).Ok?
    ensures GetAttr(Parse(l, file, pos).value.0, l[0].name) == Ok(DecodeField(l[0].kind, file[pos..pos + 4]))
  {
    var bs := file[pos..pos + StructSize(l)];
    ParsedFields(l, file, pos);
    DecodeAllAt(l, bs, 0);
    assert l[..0] == [];
    assert bs[0..4] == file[pos..pos + 4];
    FieldValue(Parse(l, file, pos).value.0, 0);
  }

  /**
   * The legacy `type_id` is the two's-complement reading of the four bytes
   * the newer package reads as unsigned: ids of 2^31 and above come out
   * negative, 2^32 less than the newer reading.
   */
  lemma {:induction false} SignedTypeId(c: Dbpf.IndexClass, file: seq<byte>, pos: nat)
    requires pos + StructSize(IndexLayout(c)) <= |file|
    ensures var u := LittleEndian(file[pos..pos + 4]);
      Tables.ClassReader(IndexClass(c), file)(pos).Ok? &&
      GetAttr(Tables.ClassReader(IndexClass(c), file)(pos).value.0, TypeId) ==
        Ok(Int(if u < 0x8000_0000 then u else u - 0x1_0000_0000))
    ensures LittleEndian(file[pos..pos + 4]) >= 0x8000_0000 ==>
      GetAttr(Tables.ClassReader(IndexClass(c), file)(pos).value.0, TypeId).value.i < 0
  {
    IndexShape(c);
    SignedFirst(IndexClass(c), file, pos);
  }

  /** A legacy record whose first field is a signed `type_id` reads it in two's complement. */
  lemma {:induction false} SignedFirst(cls: Dbpf.RecordClass, file: seq<byte>, pos: nat)
    requires WellFormed(cls.layout) && !cls.indexEntry && 0 < |cls.layout| && cls.layout[0] == Field(TypeId, I32)
    requires pos + StructSize(cls.layout) <= |file|
    ensures var u := LittleEndian(file[pos..pos + 4]);
      Dbpf.ParseAs(cls, file, pos).Ok? &&
      GetAttr(Dbpf.ParseAs(cls, file, pos).value.0, TypeId) == Ok(Int(if u < 0x8000_0000 then u else u - 0x1_0000_0000))
  {
    ParsedFirstWord(cls.layout, file, pos);
    DecodeI32(file[pos..pos + 4]);
  }

  lemma {:induction false} DecodeI32(bs: seq<byte>)
    requires |bs| == 4
    ensures var u := LittleEndian(bs);
      DecodeField(I32, bs) == Int(if u < 0x8000_0000 then u else u - 0x1_0000_0000)
  {
    assert Pow256(4) == 0x1_0000_0000;
  }

  // ----- index() -----

  /**
   * `index(version)`: `version in (7.0, '7.0')` and `version in (7.1, '7.1')`;
   * a header is never equal to these, so unlike the newer dispatcher this
   * one does not look through a header to its index version.
   */
  function Index(v: Dbpf.VersionArg): (r: Result<Dbpf.IndexClass>)
  {
    if Dbpf.Is70(v) then Ok(Dbpf.Index70)
    else if Dbpf.Is71(v) then Ok(Dbpf.Index71)
    else Err(NotImplemented)
  }

  /**
   * 7.0 and 7.1, as strings or numbers, select the two index classes; every
   * other argument, a header included, is NotImplementedError. On a string
   * or a number both dispatchers agree.
   */
  lemma {:induction false} IndexMeaning(v: Dbpf.VersionArg)
    ensures Index(v) == Ok(Dbpf.Index70) <==> v == Dbpf.Number(7.0) || v == Dbpf.Text("7.0")
    ensures Index(v) == Ok(Dbpf.Index71) <==> v == Dbpf.Number(7.1) || v == Dbpf.Text("7.1")
    ensures Index(v).Err? <==> !Dbpf.Is70(v) && !Dbpf.Is71(v)
    ensures Index(v).Err? ==> Index(v).error == NotImplemented
    ensures v.HeaderArg? ==> Index(v) == Err(NotImplemented)
    ensures !v.HeaderArg? ==> Index(v) == Dbpf.Index(v)
  {
  }

  // ----- dbpf/__init__.py: the open pass -----

  /** The checks `_parse_file` makes on the header: the magic unless `ignore_magic`, then the version. */
  function HeaderChecks(h: Record, ignoreMagic: bool): Result<Record>
  {
    var magicOk :- if ignoreMagic then Ok(true) else
      var magic :- GetAttr(h, Magic);
      Ok(PyEq(magic, Str(Container.DbpfMagic)));
    if !magicOk then Err(ValueError("This is not a valid DBPF file."))
    else
      var version :- Dbpf.Version(h);
      if version != "1.0" then Err(ValueError("DBPF Version not supported"))
      else Ok(h)
  }

  /** `Header.parse(fileobj)` on a fresh file, then the checks. */
  function CheckedHeader(file: seq<byte>, ignoreMagic: bool): Result<Record>
  {
    var (h, _) :- Dbpf.ParseAs(HeaderClass, file, 0);
    HeaderChecks(h, ignoreMagic)
  }

  /**
   * `self.header.index_version` as written: the legacy header declares no
   * such field or property, so `__getattr__` hands the name to
   * `super(Header, self).__getattr__`, which is `BaseStruct.__getattr__`
   * on the same name again, until the interpreter's recursion limit.
   */
  function IndexVersionAsWritten(h: Record): Result<string>
  {
    Err(RecursionError)
  }

  /**
   * The index-table branch of `_parse_file`, given what reading the header's
   * index version gave.
   */
  function ReadIndices(file: seq<byte>, h: Record, version: Result<string>): Result<seq<Record>>
  {
    var count :- Dbpf.IntAttr(h, IndexCount);
    if count < 1 then Ok([])
    else
      var v :- version;
      var c :- Index(Dbpf.Text(v));
      Tables.ReadTable(Tables.ClassReader(IndexClass(c), file), Dbpf.IntAttr(h, IndexOffset), Dbpf.IntAttr(h, IndexSize), count)
  }

  /** The index-table read of `_parse_file` as written. */
  function ExtractIndicesAsWritten(file: seq<byte>, h: Record): Result<seq<Record>>
  {
    ReadIndices(file, h, IndexVersionAsWritten(h))
  }

  /**
   * The index-table read with the index version rendered from the header's
   * `index_version_major` and `index_version_minor`, as the newer header's
   * property does.
   */
  function ExtractIndices(file: seq<byte>, h: Record): Result<seq<Record>>
  {
    ReadIndices(file, h, Dbpf.IndexVersion(h))
  }

  /** The hole-table read of `_parse_file`. */
  function ExtractHoles(file: seq<byte>, h: Record): Result<seq<Record>>
  {
    var count :- Dbpf.IntAttr(h, HolesCount);
    if count < 1 then Ok([])
    else Tables.ReadTable(Tables.ClassReader(HoleClass, file), Dbpf.IntAttr(h, HolesOffset), Dbpf.IntAttr(h, HolesSize), count)
  }

  /** `_parse_file` as written on a fresh file. */
  function OpenedAsWritten(file: seq<byte>, ignoreMagic: bool): Result<Container.Archive>
  {
    var h :- CheckedHeader(file, ignoreMagic);
    var indices :- ExtractIndicesAsWritten(file, h);
    var holes :- ExtractHoles(file, h);
    Ok(Container.Archive(h, indices, holes))
  }

  /**
   * `_parse_file` on a fresh file with the index version read from its two
   * fields, as the newer package reads it: what the code evidently means.
   */
  function Opened(file: seq<byte>, ignoreMagic: bool): Result<Container.Archive>
  {
    var h :- CheckedHeader(file, ignoreMagic);
    var indices :- ExtractIndices(file, h);
    var holes :- ExtractHoles(file, h);
    Ok(Container.Archive(h, indices, holes))
  }

  /**
   * With `ignore_magic` off a header is accepted exactly when its magic is
   * `DBPF` and its version 1.0; with it on, exactly when its version is
   * 1.0, whatever the magic.
   */
  lemma {:induction false} HeaderChecksMeaning(h: Record, ignoreMagic: bool)
    ensures HeaderChecks(h, ignoreMagic).Ok? <==>
      (ignoreMagic || (GetAttr(h, Magic).Ok? && PyEq(GetAttr(h, Magic).value, Str(Container.DbpfMagic)))) &&
      Dbpf.Version(h) == Ok("1.0")
    ensures HeaderChecks(h, ignoreMagic).Ok? ==> HeaderChecks(h, ignoreMagic).value == h
    ensures !ignoreMagic && GetAttr(h, Magic).Ok? && !PyEq(GetAttr(h, Magic).value, Str(Container.DbpfMagic)) ==>
      HeaderChecks(h, ignoreMagic) == Err(ValueError("This is not a valid DBPF file."))
    ensures (Dbpf.Version(h).Ok? && Dbpf.Version(h).value != "1.0" &&
             (ignoreMagic || (GetAttr(h, Magic).Ok? && PyEq(GetAttr(h, Magic).value, Str(Container.DbpfMagic))))) ==>
      HeaderChecks(h, ignoreMagic) == Err(ValueError("DBPF Version not supported"))
  {
  }

  /** Switching the magic check off accepts every header that passes it, and more. */
  lemma {:induction false} IgnoreMagicWeaker(h: Record)
    ensures HeaderChecks(h, false).Ok? ==> HeaderChecks(h, true) == HeaderChecks(h, false)
    ensures Dbpf.Version(h) == Ok("1.0") ==> HeaderChecks(h, true) == Ok(h)
  {
  }

  /** A file shorter than the 96-byte header is refused by `struct.unpack`, whatever the switch. */
  lemma {:induction false} OpenedShort(file: seq<byte>, ignoreMagic: bool)
    requires |file| < 96
    ensures Opened(file, ignoreMagic) == Err(StructError)
    ensures OpenedAsWritten(file, ignoreMagic) == Err(StructError)
  {
    Dbpf.HeaderSize();
    assert CheckedHeader(file, ignoreMagic) == Err(StructError);
  }

  /** A count below one reads nothing, and neither table is looked for. */
  lemma {:induction false} ExtractNothing(file: seq<byte>, h: Record, count: int)
    requires count < 1
    ensures Dbpf.IntAttr(h, IndexCount) == Ok(count) ==>
      ExtractIndices(file, h) == Ok([]) && ExtractIndicesAsWritten(file, h) == Ok([])
    ensures Dbpf.IntAttr(h, HolesCount) == Ok(count) ==> ExtractHoles(file, h) == Ok([])
  {
  }

  /**
   * With a positive count, integer table fields and index version 7.0 or
   * 7.1, the index table is read iff it fits in the file and the size field
   * is `count` entries of 20 or 24 bytes; it then holds the records stored
   * from the offset on.
   */
  lemma {:induction false} ExtractIndicesMeaning(file: seq<byte>, h: Record, c: Dbpf.IndexClass,
                                                 count: int, offset: int, size: int)
    requires Dbpf.IntAttr(h, IndexCount) == Ok(count) && count >= 1
    requires Dbpf.IndexVersion(h).Ok? && Index(Dbpf.Text(Dbpf.IndexVersion(h).value)) == Ok(c)
    requires Dbpf.IntAttr(h, IndexOffset) == Ok(offset) && Dbpf.IntAttr(h, IndexSize) == Ok(size)
    ensures var w := if c == Dbpf.Index70 then 20 else 24;
      ExtractIndices(file, h).Ok? <==> 0 <= offset && offset + count * w <= |file| && size == count * w
    ensures ExtractIndices(file, h).Ok? ==>
      offset >= 0 &&
      Tables.TableAt(Tables.ClassReader(IndexClass(c), file), if c == Dbpf.Index70 then 20 else 24, offset, count, ExtractIndices(file, h).value)
  {
    IndexShape(c);
    Tables.ReadTableMeaning(IndexClass(c), file, count, offset, size);
  }

  /** The same for the hole table, of 8-byte records. */
  lemma {:induction false} ExtractHolesMeaning(file: seq<byte>, h: Record, count: int, offset: int, size: int)
    requires Dbpf.IntAttr(h, HolesCount) == Ok(count) && count >= 1
    requires Dbpf.IntAttr(h, HolesOffset) == Ok(offset) && Dbpf.IntAttr(h, HolesSize) == Ok(size)
    ensures ExtractHoles(file, h).Ok? <==> 0 <= offset && offset + count * 8 <= |file| && size == count * 8
    ensures ExtractHoles(file, h).Ok? ==>
      offset >= 0 && Tables.TableAt(Tables.ClassReader(HoleClass, file), 8, offset, count, ExtractHoles(file, h).value)
  {
    HoleShape();
    Tables.ReadTableMeaning(HoleClass, file, count, offset, size);
  }

  /**
   * As written, every archive whose header passes the checks and announces
   * at least one index entry fails to open: the index version it asks for
   * does not exist.
   */
  lemma {:induction false} IndexBranchFails(file: seq<byte>, ignoreMagic: bool, count: int)
    requires CheckedHeader(file, ignoreMagic).Ok?
    requires Dbpf.IntAttr(CheckedHeader(file, ignoreMagic).value, IndexCount) == Ok(count) && count >= 1
    ensures OpenedAsWritten(file, ignoreMagic) == Err(RecursionError)
  {
  }

  /** Without index entries, the pass as written and the corrected one open the same archive. */
  lemma {:induction false} AsWrittenWithoutIndex(file: seq<byte>, ignoreMagic: bool)
    requires CheckedHeader(file, ignoreMagic).Ok? ==>
      Dbpf.IntAttr(CheckedHeader(file, ignoreMagic).value, IndexCount).Ok? &&
      Dbpf.IntAttr(CheckedHeader(file, ignoreMagic).value, IndexCount).value < 1
    ensures OpenedAsWritten(file, ignoreMagic) == Opened(file, ignoreMagic)
  {
  }

  /**
   * As written, an archive opens exactly when its header passes the checks,
   * it announces no index entry, and its hole table is read; it then holds
   * no index entries and that hole table.
   */
  lemma {:induction false} OpenedAsWrittenMeaning(file: seq<byte>, ignoreMagic: bool, a: Container.Archive)
    ensures OpenedAsWritten(file, ignoreMagic) == Ok(a) <==>
      CheckedHeader(file, ignoreMagic) == Ok(a.header) &&
      Dbpf.IntAttr(a.header, IndexCount).Ok? && Dbpf.IntAttr(a.header, IndexCount).value < 1 &&
      a.indices == [] && ExtractHoles(file, a.header) == Ok(a.holes)
  {
    var h := CheckedHeader(file, ignoreMagic);
    if h.Ok? {
      AsWrittenIndices(file, h.value);
      var i := ExtractIndicesAsWritten(file, h.value);
      var o := ExtractHoles(file, h.value);
      if i.Ok? && o.Ok? {
        assert OpenedAsWritten(file, ignoreMagic) == Ok(Container.Archive(h.value, i.value, o.value));
      } else {
        assert OpenedAsWritten(file, ignoreMagic).Err?;
      }
    } else {
      assert OpenedAsWritten(file, ignoreMagic).Err?;
    }
  }

  /** As written, the index table reads only when it is announced empty, and then holds nothing. */
  lemma {:induction false} AsWrittenIndices(file: seq<byte>, h: Record)
    ensures ExtractIndicesAsWritten(file, h).Ok? <==> Dbpf.IntAttr(h, IndexCount).Ok? && Dbpf.IntAttr(h, IndexCount).value < 1
    ensures ExtractIndicesAsWritten(file, h).Ok? ==> ExtractIndicesAsWritten(file, h).value == []
  {
  }

  /**
   * With the index version read from its fields, an opened archive holds
   * the checked header and the two tables that header describes, in file
   * order.
   */
  lemma {:induction false} OpenedMeaning(file: seq<byte>, ignoreMagic: bool, a: Container.Archive)
    ensures Opened(file, ignoreMagic) == Ok(a) <==>
      CheckedHeader(file, ignoreMagic) == Ok(a.header) &&
      ExtractIndices(file, a.header) == Ok(a.indices) && ExtractHoles(file, a.header) == Ok(a.holes)
  {
    var h := CheckedHeader(file, ignoreMagic);
    if h.Ok? {
      var i := ExtractIndices(file, h.value);
      var o := ExtractHoles(file, h.value);
      if i.Ok? && o.Ok? {
        assert Opened(file, ignoreMagic) == Ok(Container.Archive(h.value, i.value, o.value));
      } else {
        assert Opened(file, ignoreMagic).Err?;
      }
    } else {
      assert Opened(file, ignoreMagic).Err?;
    }
  }

  // ----- The legacy archive object -----

  class DBPF {
    const ignoreMagic: bool
    var header: Option<Record>
    var indices: seq<Record>
    var holes: seq<Record>

    /** `DBPF(file=None, ignore_magic)`: nothing parsed yet. */
    constructor(ignoreMagic: bool)
      ensures this.ignoreMagic == ignoreMagic && header == None && indices == [] && holes == []
    {
      this.ignoreMagic := ignoreMagic;
      header := None;
      indices := [];
      holes := [];
    }

    /** `DBPF(file, ignore_magic)`: with a file, the archive `_parse_file` as written leaves, or its exception. */
    static method Open(file: Option<seq<byte>>, ignoreMagic: bool) returns (r: Result<DBPF>)
      ensures file.None? ==>
        r.Ok? && fresh(r.value) && r.value.ignoreMagic == ignoreMagic &&
        r.value.header == None && r.value.indices == [] && r.value.holes == []
      ensures file.Some? ==> (r.Ok? <==> OpenedAsWritten(file.value, ignoreMagic).Ok?)
      ensures file.Some? && r.Err? ==> r.error == OpenedAsWritten(file.value, ignoreMagic).error
      ensures file.Some? && r.Ok? ==>
        fresh(r.value) && r.value.ignoreMagic == ignoreMagic &&
        r.value.header == Some(OpenedAsWritten(file.value, ignoreMagic).value.header) &&
        r.value.indices == OpenedAsWritten(file.value, ignoreMagic).value.indices &&
        r.value.holes == OpenedAsWritten(file.value, ignoreMagic).value.holes
    {
      var d := new DBPF(ignoreMagic);
      if file.Some? {
        var o := d.ParseFile(file.value);
        if o.Fail? {
          return Err(o.error);
        }
      }
      return Ok(d);
    }

    /**
     * `_parse_file(fileobj)` on a freshly opened file, as written: the
     * header replaces the old one and the tables are appended to what the
     * archive held.
     */
    method ParseFile(file: seq<byte>) returns (o: Outcome)
      modifies this
      ensures o.Pass? <==> OpenedAsWritten(file, ignoreMagic).Ok?
      ensures o.Fail? ==> o.error == OpenedAsWritten(file, ignoreMagic).error
      ensures o.Pass? ==>
        header == Some(OpenedAsWritten(file, ignoreMagic).value.header) &&
        indices == old(indices) + OpenedAsWritten(file, ignoreMagic).value.indices &&
        holes == old(holes) + OpenedAsWritten(file, ignoreMagic).value.holes
    {
      o := ReadHeader(file);
      if o.Fail? {
        return;
      }
      o := AppendIndices(file, IndexVersionAsWritten(header.value));
      if o.Fail? {
        return;
      }
      o := AppendHoles(file);
    }

    /** `self.header = Header.parse(fileobj)` and the two checks. */
    method ReadHeader(file: seq<byte>) returns (o: Outcome)
      modifies this
      ensures indices == old(indices) && holes == old(holes)
      ensures o.Pass? <==> CheckedHeader(file, ignoreMagic).Ok?
      ensures o.Fail? ==> o.error == CheckedHeader(file, ignoreMagic).error
      ensures o.Pass? ==> header == Some(CheckedHeader(file, ignoreMagic).value)
    {
      var parsed := Dbpf.ParseAs(HeaderClass, file, 0);
      if parsed.Err? {
        return Fail(parsed.error);
      }
      var h := parsed.value.0;
      header := Some(h);
      if !ignoreMagic {
        var magic := GetAttr(h, Magic);
        if magic.Err? {
          return Fail(magic.error);
        }
        if !PyEq(magic.value, Str(Container.DbpfMagic)) {
          return Fail(ValueError("This is not a valid DBPF file."));
        }
      }
      var version := Dbpf.Version(h);
      if version.Err? {
        return Fail(version.error);
      }
      if version.value != "1.0" {
        return Fail(ValueError("DBPF Version not supported"));
      }
      return Pass;
    }

    /**
     * The `index_count >= 1` branch: read `self.header.index_version`
     * (`version` is what that attribute read gives), pick the index class,
     * seek, append `index_count` entries, check the cursor.
     */
    method AppendIndices(file: seq<byte>, version: Result<string>) returns (o: Outcome)
      requires header.Some?
      modifies this
      ensures header == old(header) && holes == old(holes)
      ensures o.Pass? <==> ReadIndices(file, header.value, version).Ok?
      ensures o.Fail? ==> o.error == ReadIndices(file, header.value, version).error
      ensures o.Pass? ==> indices == old(indices) + ReadIndices(file, header.value, version).value
    {
      var h := header.value;
      var count := Dbpf.IntAttr(h, IndexCount);
      if count.Err? {
        return Fail(count.error);
      }
      if count.value < 1 {
        assert indices == old(indices) + [];
        return Pass;
      }
      var v := version;
      if v.Err? {
        return Fail(v.error);
      }
      var c := Index(Dbpf.Text(v.value));
      if c.Err? {
        return Fail(c.error);
      }
      var table := Container.ReadTableLoop(Tables.ClassReader(IndexClass(c.value), file),
        Dbpf.IntAttr(h, IndexOffset), Dbpf.IntAttr(h, IndexSize), count.value);
      if table.Err? {
        return Fail(table.error);
      }
      indices := indices + table.value;
      return Pass;
    }

    /** The `holes_count >= 1` branch: seek, append `holes_count` holes, check the cursor. */
    method AppendHoles(file: seq<byte>) returns (o: Outcome)
      requires header.Some?
      modifies this
      ensures header == old(header) && indices == old(indices)
      ensures o.Pass? <==> ExtractHoles(file, header.value).Ok?
      ensures o.Fail? ==> o.error == ExtractHoles(file, header.value).error
      ensures o.Pass? ==> holes == old(holes) + ExtractHoles(file, header.value).value
    {
      var h := header.value;
      var count := Dbpf.IntAttr(h, HolesCount);
      if count.Err? {
        return Fail(count.error);
      }
      if count.value < 1 {
        assert holes == old(holes) + [];
        return Pass;
      }
      var table := Container.ReadTableLoop(Tables.ClassReader(HoleClass, file),
        Dbpf.IntAttr(h, HolesOffset), Dbpf.IntAttr(h, HolesSize), count.value);
      if table.Err? {
        return Fail(table.error);
      }
      holes := holes + table.value;
      return Pass;
    }
  }
}

/**
 * The DBPF archive object: opening a file parses its header, checks the
 * magic and the version, reads the index and hole tables and flags the
 * compressed entries; the archive then iterates over its index entries.
 *
 * The archive is a class whose fields the passes update in place, as in
 * the source. The file is the immutable byte string behind the file
 * object; every read starts at the position the source seeks to.
 */
module Container {
  import opened Wrappers
  import opened Bytes
  import opened FieldNames
  import opened BaseStruct
  import opened Versions
  import opened Dbpf
  import opened Tables
  import opened MarkPass
  import opened TableReads

  const HeaderClass := RecordClass(HeaderLayout, false)

  /** The magic `'DBPF'` as bytes. */
  const DbpfMagic: seq<byte> := [0x44, 0x42, 0x50, 0x46]

  /** The state an archive holds once its file is parsed. */
  datatype Archive = Archive(header: Record, indices: seq<Record>, holes: seq<Record>)

  /** The two `enforce` checks `_parse_file` makes on the header it read. */
  function HeaderChecks(h: Record): Result<Record>
  {
    var magic :- GetAttr(h, Magic);
    if !PyEq(magic, Str(DbpfMagic)) then Err(ValueError("This is not a valid DBPF file."))
    else
      var version :- Dbpf.Version(h);
      if version != "1.0" then Err(ValueError("DBPF Version not supported"))
      else Ok(h)
  }

  /** The header read from the start of the file, once it has passed the checks. */
  function CheckedHeader(file: seq<byte>): Result<Record>
  {
    var (h, _) :- ParseAs(HeaderClass, file, 0);
    HeaderChecks(h)
  }

  /** A header that does not parse is refused as it fails; one that does is checked. */
  lemma {:induction false} CheckedHeaderCases(file: seq<byte>)
    ensures ParseAs(HeaderClass, file, 0).Err? ==> CheckedHeader(file) == Err(ParseAs(HeaderClass, file, 0).error)
    ensures ParseAs(HeaderClass, file, 0).Ok? ==> CheckedHeader(file) == HeaderChecks(ParseAs(HeaderClass, file, 0).value.0)
  {
  }

  /** `_parse_file` on a fresh archive: the checked header, then the rest. */
  function Opened(file: seq<byte>): Result<Archive>
  {
    var h :- CheckedHeader(file);
    OpenedFrom(file, h)
  }

  /** Opening fails with the header checks, or goes on from the checked header. */
  lemma {:induction false} OpenedCases(file: seq<byte>)
    ensures CheckedHeader(file).Err? ==> Opened(file) == Err(CheckedHeader(file).error)
    ensures CheckedHeader(file).Ok? ==> Opened(file) == OpenedFrom(file, CheckedHeader(file).value)
  {
  }

  /**
   * What `_parse_file` does after the header checks: the two tables, then
   * `_mark_compressed` with `equals_index` as written and each matched
   * entry leaving the pool (`Opening`).
   */
  function OpenedFrom(file: seq<byte>, h: Record): Result<Archive>
  {
    var indices :- ExtractIndices(file, h);
    var holes :- ExtractHoles(file, h);
    var marked :- MarkFrom(Opening, file, Dbpf.IndexVersion(h), indices, 0);
    Ok(Archive(h, marked, holes))
  }

  /**
   * The positions of the index entries of header `h` that some record of
   * the directory tables lists: the entries the pass flags.
   */
  ghost function Listing(file: seq<byte>, h: Record): set<nat>
  {
    match ExtractIndices(file, h)
    case Err(_) => {}
    case Ok(entries) =>
      match Directories(file, Dbpf.IndexVersion(h), entries, 0)
      case Err(_) => {}
      case Ok(dirs) => Listed(MatchersOf(Opening.comparison, dirs), entries, Positions(|entries|))
  }

  // ----- What opening gives -----

  /** A file shorter than the 96-byte header is refused by `struct.unpack`. */
  lemma {:induction false} OpenedShort(file: seq<byte>)
    requires |file| < 96
    ensures Opened(file) == Err(StructError)
  {
    HeaderSize();
    assert CheckedHeader(file) == Err(StructError);
  }

  /**
   * A header is accepted exactly when its magic is `DBPF` and its version
   * 1.0; a wrong magic is reported before a wrong version.
   */
  lemma {:induction false} HeaderChecksMeaning(h: Record)
    ensures HeaderChecks(h).Ok? <==>
      GetAttr(h, Magic).Ok? && PyEq(GetAttr(h, Magic).value, Str(DbpfMagic)) && Dbpf.Version(h) == Ok("1.0")
    ensures HeaderChecks(h).Ok? ==> HeaderChecks(h).value == h
    ensures GetAttr(h, Magic).Ok? && !PyEq(GetAttr(h, Magic).value, Str(DbpfMagic)) ==>
      HeaderChecks(h) == Err(ValueError("This is not a valid DBPF file."))
    ensures (GetAttr(h, Magic).Ok? && PyEq(GetAttr(h, Magic).value, Str(DbpfMagic)) &&
             Dbpf.Version(h).Ok? && Dbpf.Version(h).value != "1.0") ==>
      HeaderChecks(h) == Err(ValueError("DBPF Version not supported"))
  {
  }

  /** The entries of an index table start uncompressed. */
  lemma {:induction false} ParsedIndexUnmarked(c: IndexClass, file: seq<byte>, pos: nat)
    ensures ParseAs(IndexRecordClass(c), file, pos).Ok? ==>
      GetAttr(ParseAs(IndexRecordClass(c), file, pos).value.0, Compressed) == Ok(Bool(false))
  {
    IndexShape(c);
  }

  /** A table of index entries holds only uncompressed entries. */
  lemma {:induction false} TableUnmarked(c: IndexClass, file: seq<byte>, w: nat, offset: nat, count: nat, rs: seq<Record>)
    requires TableAt(ClassReader(IndexRecordClass(c), file), w, offset, count, rs)
    ensures forall p :: 0 <= p < |rs| ==> GetAttr(rs[p], Compressed) == Ok(Bool(false))
  {
    forall p | 0 <= p < |rs|
      ensures GetAttr(rs[p], Compressed) == Ok(Bool(false))
    {
      ParsedIndexUnmarked(c, file, offset + p * w);
    }
  }

  lemma {:induction false} ExtractedUnmarked(file: seq<byte>, h: Record)
    ensures ExtractIndices(file, h).Ok? ==>
      forall p :: 0 <= p < |ExtractIndices(file, h).value| ==> GetAttr(ExtractIndices(file, h).value[p], Compressed) == Ok(Bool(false))
  {
    var count := IntAttr(h, IndexCount);
    if ExtractIndices(file, h).Ok? && count.value >= 1 {
      var rs := ExtractIndices(file, h).value;
      var offset := IntAttr(h, IndexOffset).value;
      var c := Index(Text(Dbpf.IndexVersion(h).value)).value;
      ExtractIndicesTable(file, h, c, count.value, offset);
      TableUnmarked(c, file, if c == Index70 then 20 else 24, offset, count.value, rs);
    }
  }

  /**
   * Past the header checks, an opened archive holds its hole table and its
   * index table with exactly the listed entries marked.
   */
  lemma {:induction false} OpenedFromMeaning(file: seq<byte>, h: Record, a: Archive)
    ensures OpenedFrom(file, h) == Ok(a) ==>
      a.header == h && ExtractHoles(file, h) == Ok(a.holes) && ExtractIndices(file, h).Ok? &&
      a.indices == MarkSet(ExtractIndices(file, h).value, Listing(file, h))
  {
    if OpenedFrom(file, h) == Ok(a) {
      MarkFromDropMeaning(Opening.comparison, file, Dbpf.IndexVersion(h), ExtractIndices(file, h).value, 0);
    }
  }

  /**
   * An opened archive holds the checked header, its hole table, and its
   * index table with exactly the listed entries marked.
   */
  lemma {:induction false} OpenedMeaning(file: seq<byte>, a: Archive)
    ensures Opened(file) == Ok(a) ==>
      CheckedHeader(file) == Ok(a.header) && ExtractHoles(file, a.header) == Ok(a.holes) &&
      ExtractIndices(file, a.header).Ok? &&
      a.indices == MarkSet(ExtractIndices(file, a.header).value, Listing(file, a.header))
  {
    if Opened(file) == Ok(a) {
      OpenedFromMeaning(file, CheckedHeader(file).value, a);
    }
  }

  /** Flags from unflagged entries: True exactly at the marked positions. */
  lemma {:induction false} MarkSetFlags(entries: seq<Record>, s: set<nat>)
    requires forall p :: 0 <= p < |entries| ==> GetAttr(entries[p], Compressed) == Ok(Bool(false))
    ensures |MarkSet(entries, s)| == |entries|
    ensures forall p :: 0 <= p < |entries| ==> GetAttr(MarkSet(entries, s)[p], Compressed) == Ok(Bool(p in s))
  {
    forall p | 0 <= p < |entries|
      ensures GetAttr(MarkSet(entries, s)[p], Compressed) == Ok(Bool(p in s))
    {
      MarkKeeps(entries[p]);
    }
  }

  /**
   * In an opened archive, an index entry's `compressed` flag is True when a
   * directory record lists it, and False otherwise.
   */
  lemma {:induction false} OpenedFlags(file: seq<byte>, a: Archive)
    ensures Opened(file) == Ok(a) ==>
      forall p :: 0 <= p < |a.indices| ==> GetAttr(a.indices[p], Compressed) == Ok(Bool(p in Listing(file, a.header)))
  {
    if Opened(file) == Ok(a) {
      OpenedMeaning(file, a);
      ExtractedUnmarked(file, a.header);
      MarkSetFlags(ExtractIndices(file, a.header).value, Listing(file, a.header));
    }
  }

  // ----- Reading a table -----

  /**
   * `_extract_indices` and `_extract_holes` after the count check: seek to
   * the offset field, read the records, then compare the file position
   * with offset plus size.
   */
  method ReadTableLoop(parse: Reader, offset: Result<int>, size: Result<int>, count: nat) returns (r: Result<seq<Record>>)
    ensures r == ReadTable(parse, offset, size, count)
  {
    if offset.Err? {
      return Err(offset.error);
    }
    if offset.value < 0 {
      return Err(SeekError);
    }
    var read := ReadRecordsLoop(parse, offset.value, count);
    if read.Err? {
      return Err(read.error);
    }
    if size.Err? {
      return Err(size.error);
    }
    if read.value.1 != offset.value + size.value {
      return Err(ValueError("incorrect amount of data read, file to small?"));
    }
    return Ok(read.value.0);
  }

  // ----- The archive -----

  class DBPF {
    /** The bytes behind the archive's file object. */
    const file: seq<byte>
    var header: Option<Record>
    var indices: seq<Record>
    var holes: seq<Record>
    /** Where the iterator over `indices` stands. */
    var iterPos: nat

    /** The fields `__init__` sets before parsing. */
    constructor(file: seq<byte>)
      ensures this.file == file && header == None && indices == [] && holes == [] && iterPos == 0
    {
      this.file := file;
      header := None;
      indices := [];
      holes := [];
      iterPos := 0;
    }

    /** `DBPF(fileobj)`: the archive, or the exception `_parse_file` raised. */
    static method Open(file: seq<byte>) returns (r: Result<DBPF>)
      ensures r.Ok? <==> Opened(file).Ok?
      ensures r.Err? ==> r.error == Opened(file).error
      ensures r.Ok? ==>
        fresh(r.value) && r.value.file == file && r.value.iterPos == 0 &&
        r.value.header == Some(Opened(file).value.header) &&
        r.value.indices == Opened(file).value.indices && r.value.holes == Opened(file).value.holes
    {
      var d := new DBPF(file);
      var o := d.ParseFile();
      if o.Fail? {
        return Err(o.error);
      }
      return Ok(d);
    }

    /** `_parse_file`, as the constructor calls it on empty tables. */
    method ParseFile() returns (o: Outcome)
      requires indices == [] && holes == [] && iterPos == 0
      modifies this
      ensures o.Pass? <==> Opened(file).Ok?
      ensures o.Fail? ==> o.error == Opened(file).error
      ensures o.Pass? ==>
        header == Some(Opened(file).value.header) &&
        indices == Opened(file).value.indices && holes == Opened(file).value.holes && iterPos == 0
    {
      OpenedCases(file);
      o := ReadHeader();
      if o.Pass? {
        o := ReadTables();
      }
    }

    /** What `_parse_file` does once the header passed its checks. */
    method ReadTables() returns (o: Outcome)
      requires header.Some? && indices == [] && holes == []
      modifies this
      ensures header == old(header) && iterPos == old(iterPos)
      ensures o.Pass? <==> OpenedFrom(file, header.value).Ok?
      ensures o.Fail? ==> o.error == OpenedFrom(file, header.value).error
      ensures o.Pass? ==>
        indices == OpenedFrom(file, header.value).value.indices && holes == OpenedFrom(file, header.value).value.holes
      ensures o.Pass? ==> OpenedFrom(file, header.value).value.header == header.value
    {
      o := ExtractIndices();
      if o.Fail? {
        return;
      }
      assert [] + Tables.ExtractIndices(file, header.value).value == Tables.ExtractIndices(file, header.value).value;
      o := ExtractHoles();
      if o.Fail? {
        return;
      }
      assert [] + Tables.ExtractHoles(file, header.value).value == Tables.ExtractHoles(file, header.value).value;
      o := MarkCompressed(Opening);
    }

    /** The header read of `_parse_file` and its two `enforce` checks. */
    method ReadHeader() returns (o: Outcome)
      modifies this
      ensures indices == old(indices) && holes == old(holes) && iterPos == old(iterPos)
      ensures o.Pass? <==> CheckedHeader(file).Ok?
      ensures o.Fail? ==> o.error == CheckedHeader(file).error
      ensures o.Pass? ==> header == Some(CheckedHeader(file).value)
    {
      var parsed := ParseAs(HeaderClass, file, 0);
      CheckedHeaderCases(file);
      if parsed.Err? {
        return Fail(parsed.error);
      }
      var h := parsed.value.0;
      header := Some(h);
      var checked := HeaderChecks(h);
      if checked.Err? {
        return Fail(checked.error);
      }
      HeaderChecksMeaning(h);
      return Pass;
    }

    /** `_extract_indices`: appends the index table the header describes. */
    method ExtractIndices() returns (o: Outcome)
      requires header.Some?
      modifies this
      ensures header == old(header) && holes == old(holes) && iterPos == old(iterPos)
      ensures o.Pass? <==> Tables.ExtractIndices(file, header.value).Ok?
      ensures o.Fail? ==> o.error == Tables.ExtractIndices(file, header.value).error
      ensures o.Pass? ==> indices == old(indices) + Tables.ExtractIndices(file, header.value).value
      ensures o.Fail? ==> indices == old(indices)
    {
      var h := header.value;
      var count := IntAttr(h, IndexCount);
      if count.Err? {
        return Fail(count.error);
      }
      if count.value < 1 {
        return Pass;
      }
      var v := Dbpf.IndexVersion(h);
      if v.Err? {
        return Fail(v.error);
      }
      var c := Index(Text(v.value));
      if c.Err? {
        return Fail(c.error);
      }
      var table := ReadTableLoop(ClassReader(IndexRecordClass(c.value), file), IntAttr(h, IndexOffset), IntAttr(h, IndexSize), count.value);
      if table.Err? {
        return Fail(table.error);
      }
      indices := indices + table.value;
      return Pass;
    }

    /** `_extract_holes`: appends the hole table the header describes. */
    method ExtractHoles() returns (o: Outcome)
      requires header.Some?
      modifies this
      ensures header == old(header) && indices == old(indices) && iterPos == old(iterPos)
      ensures o.Pass? <==> Tables.ExtractHoles(file, header.value).Ok?
      ensures o.Fail? ==> o.error == Tables.ExtractHoles(file, header.value).error
      ensures o.Pass? ==> holes == old(holes) + Tables.ExtractHoles(file, header.value).value
      ensures o.Fail? ==> holes == old(holes)
    {
      var h := header.value;
      var count := IntAttr(h, HolesCount);
      if count.Err? {
        return Fail(count.error);
      }
      if count.value < 1 {
        return Pass;
      }
      var table := ReadTableLoop(ClassReader(HoleClass, file), IntAttr(h, HolesOffset), IntAttr(h, HolesSize), count.value);
      if table.Err? {
        return Fail(table.error);
      }
      holes := holes + table.value;
      return Pass;
    }

    /**
     * `for index in indices: if parsed.equals_index(index): ...` over the
     * pool from its `j`-th element: marks the matched entries in place and
     * gives the pool that is left.
     */
    method ScanPool(pass: Pass, d: Record, pool: seq<nat>) returns (r: Result<seq<nat>>)
      requires InRange(pool, |indices|)
      modifies this
      ensures r.Ok? <==> Scan(pass.removal, EqualsIndexOf(pass.comparison, d), old(indices), pool, 0).Ok?
      ensures r.Err? ==> r.error == Scan(pass.removal, EqualsIndexOf(pass.comparison, d), old(indices), pool, 0).error
      ensures r.Ok? ==>
        indices == Scan(pass.removal, EqualsIndexOf(pass.comparison, d), old(indices), pool, 0).value.0 &&
        r.value == Scan(pass.removal, EqualsIndexOf(pass.comparison, d), old(indices), pool, 0).value.1
      ensures MarkedOnly(old(indices), indices)
      ensures header == old(header) && holes == old(holes) && iterPos == old(iterPos)
    {
      ghost var target := Scan(pass.removal, EqualsIndexOf(pass.comparison, d), indices, pool, 0);
      var cur := pool;
      var j: nat := 0;
      while j < |cur|
        invariant InRange(cur, |indices|) && |indices| == |old(indices)|
        invariant Scan(pass.removal, EqualsIndexOf(pass.comparison, d), indices, cur, j) == target
        invariant MarkedOnly(old(indices), indices)
        invariant header == old(header) && holes == old(holes) && iterPos == old(iterPos)
        decreases |cur| + 1 - j
      {
        var q := cur[j];
        var hit := Compare(pass.comparison, d, indices[q]);
        if hit.Err? {
          return Err(hit.error);
        }
        if hit.value {
          ghost var before := indices;
          indices := indices[q := Mark(indices[q])];
          MarkedOnlyStep(old(indices), before, q);
          match pass.removal
          case ListRemove =>
            var rest := Remove(indices, cur, q);
            if rest.Err? {
              assert false;
            }
            cur := rest.value;
            j := j + 1;
          case DropMatch =>
            DropInRange(cur, j, |indices|);
            cur := cur[..j] + cur[j + 1..];
        } else {
          j := j + 1;
        }
      }
      return Ok(cur);
    }

    /**
     * The table of one directory entry: `n` directory records read by
     * `parse` from `location`, each followed by its search over one shared
     * pool.
     */
    method MarkTable(pass: Pass, parse: Reader, location: nat, n: nat) returns (o: Outcome)
      modifies this
      ensures o.Pass? <==> DirTable(pass, parse, location, n, old(indices), Positions(|old(indices)|)).Ok?
      ensures o.Fail? ==> o.error == DirTable(pass, parse, location, n, old(indices), Positions(|old(indices)|)).error
      ensures o.Pass? ==> indices == DirTable(pass, parse, location, n, old(indices), Positions(|old(indices)|)).value
      ensures MarkedOnly(old(indices), indices)
      ensures header == old(header) && holes == old(holes) && iterPos == old(iterPos)
    {
      var pool := Positions(|indices|);
      var pos := location;
      var left := n;
      ghost var target := DirTable(pass, parse, pos, left, indices, pool);
      assert target == DirTable(pass, parse, location, n, old(indices), Positions(|old(indices)|));
      assert MarkedOnly(old(indices), indices);
      while left > 0
        invariant InRange(pool, |indices|) && |indices| == |old(indices)|
        invariant DirTable(pass, parse, pos, left, indices, pool) == target
        invariant MarkedOnly(old(indices), indices)
        invariant header == old(header) && holes == old(holes) && iterPos == old(iterPos)
      {
        ghost var before := indices;
        var more := left - 1;
        var step := MarkRecord(pass, parse, pos, left, more, pool);
        MarkedOnlyTrans(old(indices), before, indices);
        if step.Err? {
          return Fail(step.error);
        }
        pos, pool, left := step.value.0, step.value.1, more;
      }
      return Pass;
    }

    /**
     * One record of a directory table: read it at `pos` and search the pool
     * for it, giving the cursor after it and the pool left for the `more`
     * records after it.
     */
    method MarkRecord(pass: Pass, parse: Reader, pos: nat, ghost left: nat, ghost more: nat, pool: seq<nat>)
      returns (r: Result<(nat, seq<nat>)>)
      requires left == more + 1 && InRange(pool, |indices|)
      modifies this
      ensures r.Err? ==> DirTable(pass, parse, pos, left, old(indices), pool) == Err(r.error)
      ensures r.Ok? ==>
        |indices| == |old(indices)| && InRange(r.value.1, |indices|) &&
        DirTable(pass, parse, pos, left, old(indices), pool) == DirTable(pass, parse, r.value.0, more, indices, r.value.1)
      ensures MarkedOnly(old(indices), indices)
      ensures header == old(header) && holes == old(holes) && iterPos == old(iterPos)
    {
      DirTableUnfold(pass, parse, pos, left, indices, pool);
      var step := parse(pos);
      if step.Err? {
        return Err(step.error);
      }
      var rest := ScanPool(pass, step.value.0, pool);
      if rest.Err? {
        return Err(rest.error);
      }
      return Ok((step.value.1, rest.value));
    }

    /** `_mark_compressed` with the search of `pass`. */
    method MarkCompressed(pass: Pass) returns (o: Outcome)
      requires header.Some?
      modifies this
      ensures header == old(header) && holes == old(holes) && iterPos == old(iterPos)
      ensures o.Pass? <==> MarkFrom(pass, file, Dbpf.IndexVersion(header.value), old(indices), 0).Ok?
      ensures o.Fail? ==> o.error == MarkFrom(pass, file, Dbpf.IndexVersion(header.value), old(indices), 0).error
      ensures o.Pass? ==> indices == MarkFrom(pass, file, Dbpf.IndexVersion(header.value), old(indices), 0).value
      ensures MarkedOnly(old(indices), indices)
    {
      var iv := Dbpf.IndexVersion(header.value);
      ghost var target := MarkFrom(pass, file, iv, indices, 0);
      var t: nat := 0;
      assert MarkedOnly(old(indices), indices);
      while t < |indices|
        invariant |indices| == |old(indices)|
        invariant MarkFrom(pass, file, iv, indices, t) == target
        invariant MarkedOnly(old(indices), indices)
        invariant header == old(header) && holes == old(holes) && iterPos == old(iterPos)
        decreases |indices| - t
      {
        var dir := DirectoryOf(iv, indices[t]);
        if dir.Err? {
          return Fail(dir.error);
        }
        if dir.value.Some? {
          var (c, location, n) := dir.value.value;
          ghost var before := indices;
          o := MarkTable(pass, ClassReader(DirRecordClass(c), file), location, n);
          MarkedOnlyTrans(old(indices), before, indices);
          if o.Fail? {
            return;
          }
        }
        t := t + 1;
      }
      return Pass;
    }

    /** `__iter__`: a fresh iterator over the index entries. */
    method Iter()
      modifies this
      ensures iterPos == 0
      ensures header == old(header) && indices == old(indices) && holes == old(holes)
    {
      iterPos := 0;
    }

    /** `next`: the next index entry, or StopIteration once they are all given. */
    method Next() returns (r: Result<Record>)
      modifies this
      ensures old(iterPos) < |indices| ==> r == Ok(indices[old(iterPos)]) && iterPos == old(iterPos) + 1
      ensures old(iterPos) >= |indices| ==> r == Err(StopIteration) && iterPos == old(iterPos)
      ensures header == old(header) && indices == old(indices) && holes == old(holes)
    {
      if iterPos < |indices| {
        r := Ok(indices[iterPos]);
        iterPos := iterPos + 1;
      } else {
        r := Err(StopIteration);
      }
    }
  }

  lemma {:induction false} MarkedOnlyStep(a: seq<Record>, b: seq<Record>, q: nat)
    requires MarkedOnly(a, b) && q < |b|
    ensures MarkedOnly(a, b[q := Mark(b[q])])
  {
    MarkIdempotent(a[q]);
  }
}

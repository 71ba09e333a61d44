/**
 * The DBPF record shapes: the 96-byte header with its version properties,
 * the index entries of index versions 7.0 and 7.1 with their `compressed`
 * flag and payload `open`, the hole records, the compression-directory
 * records, and the `index()`/`dir()` dispatch on the index version.
 */
module Dbpf {
  import opened Wrappers
  import opened FieldNames
  import opened Bytes
  import opened BaseStruct
  import opened Versions
  import Qfs
  import MagicTable

  // ----- Layouts -----

  /**
   * `'<4s17i24s'`: a 4-byte magic, seventeen signed 32-bit integers and 24
   * reserved bytes, written here in four consecutive groups.
   */
  const HeaderLayout: Layout := HeaderVersions + HeaderStamps + HeaderTables + HeaderTail

  const HeaderVersions: Layout := [Field(Magic, Chars(4)), Field(VersionMajor, I32), Field(VersionMinor, I32),
    Field(UserVersionMajor, I32), Field(UserVersionMinor, I32)]
  const HeaderStamps: Layout := [Field(Flags, I32), Field(Ctime, I32), Field(Mtime, I32),
    Field(IndexVersionMajor, I32), Field(IndexCount, I32)]
  const HeaderTables: Layout := [Field(IndexOffset, I32), Field(IndexSize, I32), Field(HolesCount, I32),
    Field(HolesOffset, I32), Field(HolesSize, I32)]
  const HeaderTail: Layout := [Field(IndexVersionMinor, I32), Field(IndexOfffset2, I32), Field(Unknown, I32),
    Field(Reserved, Chars(24))]

  datatype IndexClass = Index70 | Index71
  datatype DirClass = Dir70 | Dir71

  /** `'<5I'` and `'<6I'`: unsigned 32-bit fields. */
  function IndexLayout(c: IndexClass): Layout
  {
    match c
    case Index70 =>
      [Field(TypeId, U32), Field(GroupId, U32), Field(InstanceId, U32), Field(Location, U32), Field(Size, U32)]
    case Index71 =>
      [Field(TypeId, U32), Field(GroupId, U32), Field(InstanceId, U32), Field(Instance2Id, U32),
       Field(Location, U32), Field(Size, U32)]
  }

  /** `'<2I'`. */
  const HoleLayout: Layout := [Field(Location, U32), Field(Size, U32)]

  /** `'<4I'` and `'<5I'`; the 7.1 record spells its fourth field `instance_id2`. */
  function DirLayout(c: DirClass): Layout
  {
    match c
    case Dir70 =>
      [Field(TypeId, U32), Field(GroupId, U32), Field(InstanceId, U32), Field(Size, U32)]
    case Dir71 =>
      [Field(TypeId, U32), Field(GroupId, U32), Field(InstanceId, U32), Field(InstanceId2, U32), Field(Size, U32)]
  }

  // Each fact about a literal layout gets its own small lemma: proved together
  // they cost the solver far more than separately.

  lemma {:induction false} HeaderVersionsSize() ensures StructSize(HeaderVersions) == 20 {}
  lemma {:induction false} HeaderStampsSize() ensures StructSize(HeaderStamps) == 20 {}
  lemma {:induction false} HeaderTablesSize() ensures StructSize(HeaderTables) == 20 {}
  lemma {:induction false} HeaderTailSize() ensures StructSize(HeaderTail) == 36 {}
  lemma {:induction false} HeaderVersionsWellFormed() ensures WellFormed(HeaderVersions) {}
  lemma {:induction false} HeaderStampsWellFormed() ensures WellFormed(HeaderStamps) {}
  lemma {:induction false} HeaderTablesWellFormed() ensures WellFormed(HeaderTables) {}
  lemma {:induction false} HeaderTailWellFormed() ensures WellFormed(HeaderTail) {}
  lemma {:induction false} HeaderStampsAfterVersions() ensures Disjoint(HeaderVersions, HeaderStamps) {}
  lemma {:induction false} HeaderTablesAfterStamps() ensures Disjoint(HeaderVersions + HeaderStamps, HeaderTables) {}
  lemma {:induction false} HeaderTailAfterTables()
    ensures Disjoint(HeaderVersions + HeaderStamps + HeaderTables, HeaderTail)
  {}

  lemma {:induction false} HeaderSize()
    ensures StructSize(HeaderLayout) == 96
  {
    HeaderVersionsSize();
    HeaderStampsSize();
    HeaderTablesSize();
    HeaderTailSize();
    var a := HeaderVersions + HeaderStamps;
    var b := a + HeaderTables;
    StructSizeConcat(HeaderVersions, HeaderStamps);
    StructSizeConcat(a, HeaderTables);
    StructSizeConcat(b, HeaderTail);
  }

  lemma {:induction false} HeaderWellFormed()
    ensures WellFormed(HeaderLayout)
  {
    HeaderVersionsWellFormed();
    HeaderStampsWellFormed();
    HeaderTablesWellFormed();
    HeaderTailWellFormed();
    HeaderStampsAfterVersions();
    HeaderTablesAfterStamps();
    HeaderTailAfterTables();
    var a := HeaderVersions + HeaderStamps;
    var b := a + HeaderTables;
    WellFormedConcat(HeaderVersions, HeaderStamps);
    WellFormedConcat(a, HeaderTables);
    WellFormedConcat(b, HeaderTail);
  }

  lemma {:induction false} HeaderFields()
    ensures |HeaderLayout| == 19
    ensures HeaderLayout[0] == Field(Magic, Chars(4)) && HeaderLayout[18] == Field(Reserved, Chars(24))
    ensures forall i :: 1 <= i < 18 ==> HeaderLayout[i].kind == I32
  {}

  /** The header is 96 bytes of nineteen distinct fields: magic, seventeen integers, reserved. */
  lemma {:induction false} HeaderShape()
    ensures StructSize(HeaderLayout) == 96 && |HeaderLayout| == 19 && WellFormed(HeaderLayout)
    ensures HeaderLayout[0] == Field(Magic, Chars(4)) && HeaderLayout[18] == Field(Reserved, Chars(24))
    ensures forall i :: 1 <= i < 18 ==> HeaderLayout[i].kind == I32
  {
    HeaderSize();
    HeaderWellFormed();
    HeaderFields();
  }

  lemma {:induction false} Index70Size() ensures StructSize(IndexLayout(Index70)) == 20 {}
  lemma {:induction false} Index71Size() ensures StructSize(IndexLayout(Index71)) == 24 {}
  lemma {:induction false} Index70WellFormed() ensures WellFormed(IndexLayout(Index70)) {}
  lemma {:induction false} Index71WellFormed() ensures WellFormed(IndexLayout(Index71)) {}
  lemma {:induction false} Index70Undeclared()
    ensures forall i :: 0 <= i < |IndexLayout(Index70)| ==> IndexLayout(Index70)[i].name != Compressed
  {}
  lemma {:induction false} Index71Undeclared()
    ensures forall i :: 0 <= i < |IndexLayout(Index71)| ==> IndexLayout(Index71)[i].name != Compressed
  {}

  /** Index entries are 20 bytes for 7.0 and 24 bytes for 7.1, of distinct fields. */
  lemma {:induction false} IndexShape(c: IndexClass)
    ensures StructSize(IndexLayout(c)) == (if c == Index70 then 20 else 24) && WellFormed(IndexLayout(c))
    ensures Compressed !in Names(IndexLayout(c))
  {
    if c == Index70 {
      Index70Size();
      Index70WellFormed();
      Index70Undeclared();
      NotAmongNames(IndexLayout(Index70), Compressed);
    } else {
      Index71Size();
      Index71WellFormed();
      Index71Undeclared();
      NotAmongNames(IndexLayout(Index71), Compressed);
    }
  }

  lemma {:induction false} HoleSize() ensures StructSize(HoleLayout) == 8 {}
  lemma {:induction false} HoleWellFormed() ensures WellFormed(HoleLayout) {}
  lemma {:induction false} HoleUndeclared()
    ensures forall i :: 0 <= i < |HoleLayout| ==> HoleLayout[i].name != Compressed
  {}

  /** A hole record is 8 bytes. */
  lemma {:induction false} HoleShape()
    ensures StructSize(HoleLayout) == 8 && WellFormed(HoleLayout) && Compressed !in Names(HoleLayout)
  {
    HoleSize();
    HoleWellFormed();
    HoleUndeclared();
    NotAmongNames(HoleLayout, Compressed);
  }

  lemma {:induction false} Dir70Size() ensures StructSize(DirLayout(Dir70)) == 16 {}
  lemma {:induction false} Dir71Size() ensures StructSize(DirLayout(Dir71)) == 20 {}
  lemma {:induction false} Dir70WellFormed() ensures WellFormed(DirLayout(Dir70)) {}
  lemma {:induction false} Dir71WellFormed() ensures WellFormed(DirLayout(Dir71)) {}
  lemma {:induction false} Dir70Undeclared()
    ensures forall i :: 0 <= i < |DirLayout(Dir70)| ==> DirLayout(Dir70)[i].name != Compressed
  {}
  lemma {:induction false} Dir71Undeclared()
    ensures forall i :: 0 <= i < |DirLayout(Dir71)| ==> DirLayout(Dir71)[i].name != Compressed
  {}

  /** Directory records are 16 bytes for 7.0 and 20 bytes for 7.1, of distinct fields. */
  lemma {:induction false} DirShape(c: DirClass)
    ensures StructSize(DirLayout(c)) == (if c == Dir70 then 16 else 20) && WellFormed(DirLayout(c))
    ensures Compressed !in Names(DirLayout(c))
  {
    if c == Dir70 {
      Dir70Size();
      Dir70WellFormed();
      Dir70Undeclared();
      NotAmongNames(DirLayout(Dir70), Compressed);
    } else {
      Dir71Size();
      Dir71WellFormed();
      Dir71Undeclared();
      NotAmongNames(DirLayout(Dir71), Compressed);
    }
  }

  // ----- The header's version properties -----

  function Version(h: Record): Result<string>
  {
    GetVersion(h, VersionMajor, VersionMinor)
  }

  function UserVersion(h: Record): Result<string>
  {
    GetVersion(h, UserVersionMajor, UserVersionMinor)
  }

  function IndexVersion(h: Record): Result<string>
  {
    GetVersion(h, IndexVersionMajor, IndexVersionMinor)
  }

  /** Each of the three setters stores `"a.b"` in its own pair of fields, and its getter returns it. */
  lemma {:induction false} HeaderVersionsRoundTrip(h: Record, a: int, b: int)
    requires Valid(h)
    ensures var s := IntToString(a) + "." + IntToString(b);
      SetVersion(h, VersionMajor, VersionMinor, s).Ok? &&
      Version(SetVersion(h, VersionMajor, VersionMinor, s).value) == Ok(s) &&
      SetVersion(h, UserVersionMajor, UserVersionMinor, s).Ok? &&
      UserVersion(SetVersion(h, UserVersionMajor, UserVersionMinor, s).value) == Ok(s) &&
      SetVersion(h, IndexVersionMajor, IndexVersionMinor, s).Ok? &&
      IndexVersion(SetVersion(h, IndexVersionMajor, IndexVersionMinor, s).value) == Ok(s)
  {
    SetThenGet(h, VersionMajor, VersionMinor, a, b);
    SetThenGet(h, UserVersionMajor, UserVersionMinor, a, b);
    SetThenGet(h, IndexVersionMajor, IndexVersionMinor, a, b);
  }

  // ----- `index()` and `dir()` -----

  /**
   * What `index()`/`dir()` accept: a header (replaced by its index version),
   * a string, or a number; floats are taken as exact decimals.
   */
  datatype VersionArg = HeaderArg(h: Record) | Text(s: string) | Number(x: real)

  function ResolveVersion(arg: VersionArg): (r: Result<VersionArg>)
    ensures r.Ok? ==> !r.value.HeaderArg?
  {
    if arg.HeaderArg? then
      var v :- IndexVersion(arg.h);
      Ok(Text(v))
    else Ok(arg)
  }

  /** `version in (7.0, '7.0')` and `version in (7.1, '7.1')`. */
  predicate Is70(v: VersionArg)
  {
    v == Number(7.0) || v == Text("7.0")
  }

  predicate Is71(v: VersionArg)
  {
    v == Number(7.1) || v == Text("7.1")
  }

  /** `index(version)`. */
  function Index(arg: VersionArg): (r: Result<IndexClass>)
    ensures ResolveVersion(arg).Ok? ==>
      (r == Ok(Index70) <==> Is70(ResolveVersion(arg).value)) &&
      (r == Ok(Index71) <==> Is71(ResolveVersion(arg).value)) &&
      (r.Err? <==> !Is70(ResolveVersion(arg).value) && !Is71(ResolveVersion(arg).value))
    ensures r.Err? ==> ResolveVersion(arg).Err? || r.error == NotImplemented
  {
    var v :- ResolveVersion(arg);
    if Is70(v) then Ok(Index70) else if Is71(v) then Ok(Index71) else Err(NotImplemented)
  }

  /** `dir(version)`. */
  function Dir(arg: VersionArg): (r: Result<DirClass>)
    ensures ResolveVersion(arg).Ok? ==>
      (r == Ok(Dir70) <==> Is70(ResolveVersion(arg).value)) &&
      (r == Ok(Dir71) <==> Is71(ResolveVersion(arg).value)) &&
      (r.Err? <==> !Is70(ResolveVersion(arg).value) && !Is71(ResolveVersion(arg).value))
    ensures r.Err? ==> ResolveVersion(arg).Err? || r.error == NotImplemented
  {
    var v :- ResolveVersion(arg);
    if Is70(v) then Ok(Dir70) else if Is71(v) then Ok(Dir71) else Err(NotImplemented)
  }

  /** The directory class for the same index version has the matching shape. */
  function DirFor(c: IndexClass): DirClass
  {
    match c
    case Index70 => Dir70
    case Index71 => Dir71
  }

  /** Both dispatchers agree on every argument. */
  lemma {:induction false} DispatchAgrees(arg: VersionArg)
    ensures Index(arg).Ok? <==> Dir(arg).Ok?
    ensures Index(arg).Ok? ==> Dir(arg).value == DirFor(Index(arg).value)
    ensures Index(arg).Err? ==> Dir(arg) == Err(Index(arg).error)
  {
  }

  lemma {:induction false} VersionText70() ensures IntToString(7) + "." + IntToString(0) == "7.0" {}
  lemma {:induction false} VersionText71() ensures IntToString(7) + "." + IntToString(1) == "7.1" {}

  /** A header argument stands for the text of its index version. */
  lemma {:induction false} ResolveHeader(h: Record, major: int, minor: int)
    requires IntFields(h, IndexVersionMajor, IndexVersionMinor, major, minor)
    ensures ResolveVersion(HeaderArg(h)) == Ok(Text(IntToString(major) + "." + IntToString(minor)))
  {
    GetVersionOfInts(h, IndexVersionMajor, IndexVersionMinor, major, minor);
  }

  /**
   * A header with integer index-version fields selects Index70 exactly when
   * they are 7 and 0, Index71 exactly when they are 7 and 1, and otherwise
   * raises NotImplementedError.
   */
  lemma {:induction false} IndexOfHeader(h: Record, major: int, minor: int)
    requires IntFields(h, IndexVersionMajor, IndexVersionMinor, major, minor)
    ensures Index(HeaderArg(h)) == Ok(Index70) <==> major == 7 && minor == 0
    ensures Index(HeaderArg(h)) == Ok(Index71) <==> major == 7 && minor == 1
    ensures Index(HeaderArg(h)).Err? <==> !(major == 7 && (minor == 0 || minor == 1))
    ensures Index(HeaderArg(h)).Err? ==> Index(HeaderArg(h)).error == NotImplemented
  {
    var v := IntToString(major) + "." + IntToString(minor);
    ResolveHeader(h, major, minor);
    IndexOfText(major, minor);
    assert Index(HeaderArg(h)) == Index(Text(v));
  }

  /** The same for the text `"major.minor"` itself. */
  lemma {:induction false} IndexOfText(major: int, minor: int)
    ensures var v := Text(IntToString(major) + "." + IntToString(minor));
      (Index(v) == Ok(Index70) <==> major == 7 && minor == 0) &&
      (Index(v) == Ok(Index71) <==> major == 7 && minor == 1) &&
      (Index(v).Err? <==> !(major == 7 && (minor == 0 || minor == 1))) &&
      (Index(v).Err? ==> Index(v).error == NotImplemented)
  {
    var v := IntToString(major) + "." + IntToString(minor);
    VersionText70();
    VersionText71();
    VersionTextIs(major, minor, 7, 0);
    VersionTextIs(major, minor, 7, 1);
    assert Is70(Text(v)) <==> v == "7.0";
    assert Is71(Text(v)) <==> v == "7.1";
  }

  // ----- Index entries -----

  /** A record class: its layout, and whether its constructor sets `compressed = False`. */
  datatype RecordClass = RecordClass(layout: Layout, indexEntry: bool)

  function IndexRecordClass(c: IndexClass): RecordClass
  {
    RecordClass(IndexLayout(c), true)
  }

  /** `IndexBaseStruct.__init__`: the codec's constructor, then `self.compressed = False`. */
  function NewIndex(c: IndexClass, args: seq<Value>): (r: Record)
    ensures Valid(r) && r.layout == IndexLayout(c)
    ensures GetAttr(r, Compressed) == Ok(Bool(false))
  {
    SetAttr(Construct(IndexLayout(c), args), Compressed, Bool(false))
  }

  /** `cls.parse(fileobj)` for a record class. */
  function ParseAs(cls: RecordClass, file: seq<byte>, pos: nat): (r: Result<(Record, nat)>)
    ensures r.Ok? <==> Parse(cls.layout, file, pos).Ok?
    ensures r.Err? ==> r.error == StructError
    ensures r.Ok? ==> Valid(r.value.0) && r.value.0.layout == cls.layout
    ensures r.Ok? ==> r.value.1 == pos + StructSize(cls.layout)
  {
    var (rec, next) :- Parse(cls.layout, file, pos);
    Ok((if cls.indexEntry then SetAttr(rec, Compressed, Bool(false)) else rec, next))
  }

  /**
   * A parsed index entry holds the decoded fields in order, starts
   * uncompressed, and re-encodes to the bytes it came from.
   */
  lemma {:induction false} ParsedIndex(c: IndexClass, file: seq<byte>, pos: nat)
    requires pos + StructSize(IndexLayout(c)) <= |file|
    ensures ParseAs(IndexRecordClass(c), file, pos).Ok?
    ensures var e := ParseAs(IndexRecordClass(c), file, pos).value.0;
      Shaped(e) &&
      Values(e.dict) == DecodeAll(IndexLayout(c), file[pos..pos + StructSize(IndexLayout(c))]) &&
      GetAttr(e, Compressed) == Ok(Bool(false)) &&
      Raw(e) == Ok(file[pos..pos + StructSize(IndexLayout(c))])
  {
    IndexShape(c);
    var layout := IndexLayout(c);
    ParsedFields(layout, file, pos);
    RawOfParsed(layout, file, pos);
    var rec := Parse(layout, file, pos).value.0;
    SetUndeclaredKeepsRaw(rec, Compressed, Bool(false));
  }

  /** A parsed record of any class has the shape of its layout. */
  lemma {:induction false} ParsedShaped(cls: RecordClass, file: seq<byte>, pos: nat)
    requires WellFormed(cls.layout) && Compressed !in Names(cls.layout)
    requires pos + StructSize(cls.layout) <= |file|
    ensures ParseAs(cls, file, pos).Ok?
    ensures var e := ParseAs(cls, file, pos).value.0;
      Shaped(e) && Values(e.dict) == DecodeAll(cls.layout, file[pos..pos + StructSize(cls.layout)])
  {
    ParsedFields(cls.layout, file, pos);
  }

  /** A field read as a number: a bool counts as 0 or 1, anything else is a TypeError. */
  function IntAttr(r: Record, name: Name): (v: Result<int>)
    ensures GetAttr(r, name).Err? ==> v == Err(GetAttr(r, name).error)
    ensures GetAttr(r, name).Ok? && GetAttr(r, name).value.Int? ==> v == Ok(GetAttr(r, name).value.i)
  {
    var x :- GetAttr(r, name);
    match x
    case Int(i) => Ok(i)
    case Bool(b) => Ok(if b then 1 else 0)
    case _ => Err(TypeError)
  }

  // ----- equals_index -----

  /** `getattr(r, n)` for each name in turn. */
  function Reads(r: Record, names: seq<Name>): (rs: seq<Result<Value>>)
    ensures |rs| == |names|
  {
    if names == [] then [] else [GetAttr(r, names[0])] + Reads(r, names[1..])
  }

  lemma {:induction false} ReadsAt(r: Record, names: seq<Name>, k: nat)
    requires k < |names|
    ensures Reads(r, names)[k] == GetAttr(r, names[k])
  {
    if k > 0 {
      ReadsAt(r, names[1..], k - 1);
    }
  }

  /**
   * The `all(a == b for ...)` generator over paired reads, left to right: the
   * first unequal pair stops it, and a failed read raises before that.
   */
  function AllEqualReads(xs: seq<Result<Value>>, ys: seq<Result<Value>>): Result<bool>
    requires |xs| == |ys|
  {
    if xs == [] then Ok(true)
    else
      var a :- xs[0];
      var b :- ys[0];
      if PyEq(a, b) then AllEqualReads(xs[1..], ys[1..]) else Ok(false)
  }

  /**
   * Over a prefix of successful reads the comparison either finds an unequal
   * pair and is false, or goes on with the rest.
   */
  lemma {:induction false} AllEqualReadsPrefix(xs: seq<Result<Value>>, ys: seq<Result<Value>>, m: nat)
    requires |xs| == |ys| && m <= |xs|
    requires forall k :: 0 <= k < m ==> xs[k].Ok? && ys[k].Ok?
    ensures AllEqualReads(xs, ys) ==
      if forall k :: 0 <= k < m ==> PyEq(xs[k].value, ys[k].value) then AllEqualReads(xs[m..], ys[m..])
      else Ok(false)
  {
    if m > 0 {
      AllEqualReadsPrefix(xs[1..], ys[1..], m - 1);
      assert forall k :: 1 <= k < |xs| ==> xs[k] == xs[1..][k - 1] && ys[k] == ys[1..][k - 1];
      assert xs[1..][m - 1..] == xs[m..] && ys[1..][m - 1..] == ys[m..];
    }
  }

  /** The first `n` values of both sequences are pairwise equal under Python `==`. */
  predicate SameValues(dv: seq<Value>, ev: seq<Value>, n: nat)
    requires n <= |dv| && n <= |ev|
  {
    forall k :: 0 <= k < n ==> PyEq(dv[k], ev[k])
  }

  /** When every read succeeds, the comparison is the conjunction of the pairs. */
  lemma {:induction false} AllEqualReadsMeaning(xs: seq<Result<Value>>, ys: seq<Result<Value>>,
                                                dv: seq<Value>, ev: seq<Value>)
    requires |xs| == |ys| <= |dv| && |xs| <= |ev|
    requires forall k :: 0 <= k < |xs| ==> xs[k] == Ok(dv[k]) && ys[k] == Ok(ev[k])
    ensures AllEqualReads(xs, ys) == Ok(SameValues(dv, ev, |xs|))
  {
    var m := |xs|;
    AllEqualReadsPrefix(xs, ys, m);
    assert xs[m..] == [];
    assert (forall k :: 0 <= k < m ==> PyEq(xs[k].value, ys[k].value)) == SameValues(dv, ev, m);
  }

  /** `all(getattr(d, f) == getattr(e, g) for ...)` over paired field names. */
  function AllEqual(d: Record, e: Record, dirNames: seq<Name>, indexNames: seq<Name>): Result<bool>
    requires |dirNames| == |indexNames|
  {
    AllEqualReads(Reads(d, dirNames), Reads(e, indexNames))
  }

  /**
   * When the compared fields read as the values `dv` and `ev`, the
   * comparison is the conjunction of the pairs.
   */
  lemma {:induction false} AllEqualMeaning(d: Record, e: Record, dirNames: seq<Name>, indexNames: seq<Name>,
                                           dv: seq<Value>, ev: seq<Value>)
    requires |dirNames| == |indexNames| <= |dv| && |dirNames| <= |ev|
    requires forall k :: 0 <= k < |dirNames| ==> GetAttr(d, dirNames[k]) == Ok(dv[k]) && GetAttr(e, indexNames[k]) == Ok(ev[k])
    ensures AllEqual(d, e, dirNames, indexNames) == Ok(SameValues(dv, ev, |dirNames|))
  {
    var xs, ys := Reads(d, dirNames), Reads(e, indexNames);
    forall k | 0 <= k < |dirNames|
      ensures xs[k] == Ok(dv[k]) && ys[k] == Ok(ev[k])
    {
      ReadsAt(d, dirNames, k);
      ReadsAt(e, indexNames, k);
    }
    AllEqualReadsMeaning(xs, ys, dv, ev);
  }

  /** The comparison reads the index entry only through `getattr` of the compared names. */
  lemma {:induction false} AllEqualFrame(d: Record, e: Record, e': Record, dirNames: seq<Name>, indexNames: seq<Name>)
    requires |dirNames| == |indexNames|
    requires forall k :: 0 <= k < |indexNames| ==> GetAttr(e', indexNames[k]) == GetAttr(e, indexNames[k])
    ensures AllEqual(d, e', dirNames, indexNames) == AllEqual(d, e, dirNames, indexNames)
  {
    forall k | 0 <= k < |indexNames|
      ensures Reads(e', indexNames)[k] == Reads(e, indexNames)[k]
    {
      ReadsAt(e, indexNames, k);
      ReadsAt(e', indexNames, k);
    }
    assert Reads(e', indexNames) == Reads(e, indexNames);
  }

  /** `self._fields[:-1]`: every directory field but the final `size`. */
  function ComparedNames(d: Record): (ns: seq<Name>)
    ensures |ns| == if |d.layout| == 0 then 0 else |d.layout| - 1
  {
    if |d.layout| == 0 then [] else Names(d.layout)[..|d.layout| - 1]
  }

  /** `DIRBaseStruct.equals_index`, as written: the same name is read on both records. */
  function EqualsIndex(d: Record, e: Record): Result<bool>
  {
    AllEqual(d, e, ComparedNames(d), ComparedNames(d))
  }

  /** The index field a directory field stands for: `instance_id2` is the entry's `instance2_id`. */
  function IndexFieldFor(n: Name): Name
  {
    if n == InstanceId2 then Instance2Id else n
  }

  function IndexNames(ns: seq<Name>): (ms: seq<Name>)
    ensures |ms| == |ns| && forall k :: 0 <= k < |ns| ==> ms[k] == IndexFieldFor(ns[k])
  {
    if ns == [] then [] else [IndexFieldFor(ns[0])] + IndexNames(ns[1..])
  }

  /** `equals_index` as evidently intended: each directory field against the entry field it stands for. */
  function EqualsIndexCorrected(d: Record, e: Record): Result<bool>
  {
    AllEqual(d, e, ComparedNames(d), IndexNames(ComparedNames(d)))
  }

  /**
   * Each compared directory field stands for the index field at the same
   * position: the pairing the corrected comparison relies on.
   */
  predicate Aligned(d: Layout, e: Layout)
  {
    1 <= |d| <= |e| + 1 && forall k :: 0 <= k < |d| - 1 ==> IndexFieldFor(d[k].name) == e[k].name
  }

  lemma {:induction false} Aligned70() ensures Aligned(DirLayout(Dir70), IndexLayout(Index70)) {}
  lemma {:induction false} Aligned71() ensures Aligned(DirLayout(Dir71), IndexLayout(Index71)) {}

  /** A directory record and an index entry of matching version, both holding their declared fields. */
  predicate Matching(c: IndexClass, d: Record, e: Record)
  {
    d.layout == DirLayout(DirFor(c)) && Shaped(d) && e.layout == IndexLayout(c) && Shaped(e)
  }

  /** The paired reads of aligned shaped records are their `_data` values position by position. */
  lemma {:induction false} AlignedFields(d: Record, e: Record)
    requires Shaped(d) && Shaped(e) && Aligned(d.layout, e.layout)
    ensures |ComparedNames(d)| == |d.layout| - 1
    ensures forall k :: 0 <= k < |d.layout| - 1 ==>
      GetAttr(d, ComparedNames(d)[k]) == Ok(Values(d.dict)[k]) &&
      GetAttr(e, IndexNames(ComparedNames(d))[k]) == Ok(Values(e.dict)[k])
  {
    var ns := ComparedNames(d);
    forall k | 0 <= k < |d.layout| - 1
      ensures GetAttr(d, ns[k]) == Ok(Values(d.dict)[k])
      ensures GetAttr(e, IndexNames(ns)[k]) == Ok(Values(e.dict)[k])
    {
      assert ns[k] == d.layout[k].name;
      FieldValue(d, k);
      FieldValue(e, k);
    }
  }

  lemma {:induction false} MatchingAligned(c: IndexClass, d: Record, e: Record)
    requires Matching(c, d, e)
    ensures Shaped(d) && Shaped(e) && Aligned(d.layout, e.layout)
    ensures |d.layout| == (if c == Index70 then 4 else 5)
  {
    if c == Index70 { Aligned70(); } else { Aligned71(); }
  }

  /**
   * The corrected comparison is true exactly when the leading fields agree
   * pairwise: type, group and instance ids, and for 7.1 the second instance id.
   */
  lemma {:induction false} EqualsIndexCorrectedMeaning(c: IndexClass, d: Record, e: Record)
    requires Matching(c, d, e)
    ensures EqualsIndexCorrected(d, e) ==
      Ok(SameValues(Values(d.dict), Values(e.dict), |d.layout| - 1))
  {
    MatchingAligned(c, d, e);
    AlignedCorrectedMeaning(d, e);
  }

  lemma {:induction false} AlignedCorrectedMeaning(d: Record, e: Record)
    requires Shaped(d) && Shaped(e) && Aligned(d.layout, e.layout)
    ensures EqualsIndexCorrected(d, e) ==
      Ok(SameValues(Values(d.dict), Values(e.dict), |d.layout| - 1))
  {
    AlignedFields(d, e);
    AllEqualMeaning(d, e, ComparedNames(d), IndexNames(ComparedNames(d)), Values(d.dict), Values(e.dict));
  }

  /** Without `instance_id2` among the compared names, the comparison as written is the corrected one. */
  lemma {:induction false} EqualsIndexAsCorrected(d: Record, e: Record)
    requires forall k :: 0 <= k < |ComparedNames(d)| ==> ComparedNames(d)[k] != InstanceId2
    ensures EqualsIndex(d, e) == EqualsIndexCorrected(d, e)
  {
    var ns := ComparedNames(d);
    assert IndexNames(ns) == ns;
  }

  lemma {:induction false} Dir70Compared(d: Record)
    requires d.layout == DirLayout(Dir70)
    ensures forall k :: 0 <= k < |ComparedNames(d)| ==> ComparedNames(d)[k] != InstanceId2
  {
    assert forall k :: 0 <= k < 3 ==> DirLayout(Dir70)[k].name != InstanceId2;
  }

  /** For 7.0 the comparison as written is true exactly when type, group and instance ids agree. */
  lemma {:induction false} EqualsIndex70(d: Record, e: Record)
    requires Matching(Index70, d, e)
    ensures EqualsIndex(d, e) == Ok(SameValues(Values(d.dict), Values(e.dict), 3))
  {
    Dir70Compared(d);
    EqualsIndexAsCorrected(d, e);
    EqualsIndexCorrectedMeaning(Index70, d, e);
    MatchingAligned(Index70, d, e);
  }

  /** A read that fails after equal pairs makes the comparison raise its error. */
  lemma {:induction false} AllEqualReadsStuck(xs: seq<Result<Value>>, ys: seq<Result<Value>>,
                                              dv: seq<Value>, ev: seq<Value>, m: nat)
    requires |xs| == |ys| && m < |xs| && m <= |dv| && m <= |ev|
    requires forall k :: 0 <= k < m ==> xs[k] == Ok(dv[k]) && ys[k] == Ok(ev[k])
    requires xs[m].Ok? && ys[m].Err?
    ensures SameValues(dv, ev, m) ==> AllEqualReads(xs, ys) == Err(ys[m].error)
    ensures !SameValues(dv, ev, m) ==> AllEqualReads(xs, ys) == Ok(false)
  {
    AllEqualReadsPrefix(xs, ys, m);
    assert (forall k :: 0 <= k < m ==> PyEq(xs[k].value, ys[k].value)) == SameValues(dv, ev, m);
    assert xs[m..][0] == xs[m] && ys[m..][0] == ys[m];
  }

  /** Reads of fields known to hold `vs` give `vs`. */
  lemma {:induction false} ReadsValues(r: Record, ns: seq<Name>, vs: seq<Value>, m: nat)
    requires m <= |ns| && m <= |vs|
    requires forall k :: 0 <= k < m ==> GetAttr(r, ns[k]) == Ok(vs[k])
    ensures forall k :: 0 <= k < m ==> Reads(r, ns)[k] == Ok(vs[k])
  {
    forall k | 0 <= k < m
      ensures Reads(r, ns)[k] == Ok(vs[k])
    {
      ReadsAt(r, ns, k);
    }
  }

  /** A 7.1 directory record: `instance_id2` is its fourth field and only that one. */
  lemma {:induction false} Dir71Spelling()
    ensures |DirLayout(Dir71)| == 5 && DirLayout(Dir71)[3].name == InstanceId2
    ensures forall k :: 0 <= k < 3 ==> DirLayout(Dir71)[k].name != InstanceId2
  {}

  /** The 7.1 index entry spells its second instance id `instance2_id`, never `instance_id2`. */
  lemma {:induction false} Index71Spelling()
    ensures forall i :: 0 <= i < |IndexLayout(Index71)| ==> IndexLayout(Index71)[i].name != InstanceId2
  {}

  /**
   * The comparison as written reads three ids on both sides, then
   * `instance_id2`, which only the directory record declares.
   */
  lemma {:induction false} ReadsStuck(d: Record, e: Record, ns: seq<Name>)
    requires Shaped(d) && Shaped(e) && Aligned(d.layout, e.layout) && |d.layout| == 5
    requires ns == ComparedNames(d) && ns[3] == InstanceId2 == d.layout[3].name
    requires forall k :: 0 <= k < 3 ==> ns[k] != InstanceId2
    requires InstanceId2 !in Names(e.layout) && InstanceId2 !in e.attrs
    ensures forall k :: 0 <= k < 3 ==> Reads(d, ns)[k] == Ok(Values(d.dict)[k]) && Reads(e, ns)[k] == Ok(Values(e.dict)[k])
    ensures Reads(d, ns)[3].Ok? && Reads(e, ns)[3] == Err(AttributeError(InstanceId2))
  {
    AlignedFields(d, e);
    forall k | 0 <= k < 3
      ensures GetAttr(e, ns[k]) == Ok(Values(e.dict)[k])
    {
      assert IndexNames(ns)[k] == ns[k];
    }
    ReadsValues(d, ns, Values(d.dict), 3);
    ReadsValues(e, ns, Values(e.dict), 3);
    ReadsAt(d, ns, 3);
    ReadsAt(e, ns, 3);
    FieldValue(d, 3);
  }

  /** The comparison as written, on records laid out like the 7.1 pair. */
  lemma {:induction false} EqualsIndexStuck(d: Record, e: Record)
    requires Shaped(d) && Shaped(e) && Aligned(d.layout, e.layout) && |d.layout| == 5
    requires d.layout[3].name == InstanceId2 && forall k :: 0 <= k < 3 ==> d.layout[k].name != InstanceId2
    requires InstanceId2 !in Names(e.layout) && InstanceId2 !in e.attrs
    ensures SameValues(Values(d.dict), Values(e.dict), 3) ==>
      EqualsIndex(d, e) == Err(AttributeError(InstanceId2))
    ensures !SameValues(Values(d.dict), Values(e.dict), 3) ==>
      EqualsIndex(d, e) == Ok(false)
  {
    var ns := ComparedNames(d);
    assert forall k :: 0 <= k < 4 ==> ns[k] == d.layout[k].name;
    ReadsStuck(d, e, ns);
    AllEqualReadsStuck(Reads(d, ns), Reads(e, ns), Values(d.dict), Values(e.dict), 3);
  }

  /**
   * For 7.1 the comparison as written fails with AttributeError on
   * `instance_id2` whenever the first three ids agree, and is false otherwise.
   */
  lemma {:induction false} EqualsIndex71Fails(d: Record, e: Record)
    requires Matching(Index71, d, e) && InstanceId2 !in e.attrs
    ensures SameValues(Values(d.dict), Values(e.dict), 3) ==>
      EqualsIndex(d, e) == Err(AttributeError(InstanceId2))
    ensures !SameValues(Values(d.dict), Values(e.dict), 3) ==>
      EqualsIndex(d, e) == Ok(false)
  {
    MatchingAligned(Index71, d, e);
    Dir71Spelling();
    Index71Spelling();
    NotAmongNames(e.layout, InstanceId2);
    EqualsIndexStuck(d, e);
  }

  // ----- IndexBaseStruct.open -----

  /**
   * `open()`: seek to `location`, read `size` bytes, decompress them when
   * `compressed` is truthy, and hand them to the class `magic_index` picks.
   */
  function OpenEntry(file: seq<byte>, e: Record): (r: Result<(MagicTable.Handler, seq<byte>)>)
  {
    var location :- IntAttr(e, Location);
    if location < 0 then Err(SeekError)
    else
      var size :- IntAttr(e, Size);
      var data := Read(file, location, size);
      var flag :- GetAttr(e, Compressed);
      var payload :- Payload(data, Truthy(flag));
      var t :- MagicTable.MagicIndex(e);
      Ok((t.cls, payload))
  }

  /** The stored bytes, or what `decompress` makes of them. */
  function Payload(data: seq<byte>, compressed: bool): (r: Result<seq<byte>>)
  {
    if compressed then
      var (h, out) :- Qfs.Decompressed(data);
      Ok(out)
    else Ok(data)
  }

  /**
   * An uncompressed entry that fits in the file opens to exactly the bytes
   * `[location, location + size)`, with the handler its type id selects.
   */
  lemma {:induction false} OpenUncompressed(file: seq<byte>, e: Record, location: nat, size: nat)
    requires IntAttr(e, Location) == Ok(location) && IntAttr(e, Size) == Ok(size)
    requires location + size <= |file|
    requires GetAttr(e, Compressed).Ok? && !Truthy(GetAttr(e, Compressed).value)
    requires MagicTable.MagicIndex(e).Ok?
    ensures OpenEntry(file, e) == Ok((MagicTable.MagicIndex(e).value.cls, file[location..location + size]))
  {
    ReadExact(file, location, size);
  }

  /** An entry that fits in the file opens to its payload, with the handler its type id selects. */
  lemma {:induction false} OpenFitting(file: seq<byte>, e: Record, location: nat, size: nat)
    requires IntAttr(e, Location) == Ok(location) && IntAttr(e, Size) == Ok(size)
    requires location + size <= |file|
    requires GetAttr(e, Compressed).Ok? && MagicTable.MagicIndex(e).Ok?
    ensures var p := Payload(file[location..location + size], Truthy(GetAttr(e, Compressed).value));
      OpenEntry(file, e) == if p.Ok? then Ok((MagicTable.MagicIndex(e).value.cls, p.value)) else Err(p.error)
  {
    ReadExact(file, location, size);
  }

  /** A compressed entry opens to the decompressed stored bytes, and fails when they do not decompress. */
  lemma {:induction false} OpenCompressed(file: seq<byte>, e: Record, location: nat, size: nat)
    requires IntAttr(e, Location) == Ok(location) && IntAttr(e, Size) == Ok(size)
    requires location + size <= |file|
    requires GetAttr(e, Compressed) == Ok(Bool(true))
    requires MagicTable.MagicIndex(e).Ok?
    ensures var stored := file[location..location + size];
      Qfs.Decompressed(stored).Ok? ==>
        OpenEntry(file, e) == Ok((MagicTable.MagicIndex(e).value.cls, Qfs.Decompressed(stored).value.1))
    ensures var stored := file[location..location + size];
      Qfs.Decompressed(stored).Err? ==> OpenEntry(file, e) == Err(Qfs.Decompressed(stored).error)
  {
    OpenFitting(file, e, location, size);
    assert Truthy(Bool(true));
  }

  /** A negative location makes `seek` fail before anything is read. */
  lemma {:induction false} OpenNegativeLocation(file: seq<byte>, e: Record, location: int)
    requires IntAttr(e, Location) == Ok(location) && location < 0
    ensures OpenEntry(file, e) == Err(SeekError)
  {
  }
}

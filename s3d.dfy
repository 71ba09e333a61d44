/**
 * The S3D model-file records of simtools/s3d.py: the file header, the `HEAD`
 * chunk with its `version` property, and the vertex-block header.
 *
 * As for the FSH records, the formats carry no byte-order prefix; none needs
 * alignment padding, and the model fixes the order as little endian.
 */
module S3d {
  import opened Wrappers
  import opened Bytes
  import opened BaseStruct
  import opened FieldNames
  import opened Versions

  /** `'4sI'`. */
  const HeaderLayout: Layout := [Field(Magic, Chars(4)), Field(Size, U32)]

  /** `'4sI2H'`. */
  const HeadLayout: Layout := [Field(Magic, Chars(4)), Field(Size, U32), Field(VersionMajor, U16), Field(VersionMinor, U16)]

  /** `'4s2I2HI'`. */
  const VertLayout: Layout := VertCounts + VertFormat

  const VertCounts: Layout := [Field(Magic, Chars(4)), Field(Size, U32), Field(VertexGroups, U32)]
  const VertFormat: Layout := [Field(Flags, U16), Field(VerticesPerGroup, U16), Field(Format, U32)]

  /** The header is an 8-byte magic and size. */
  lemma {:induction false} HeaderShape()
    ensures StructSize(HeaderLayout) == 8 && WellFormed(HeaderLayout)
  {}

  /** The `HEAD` chunk is 12 bytes: magic, size, then the two u16 version numbers. */
  lemma {:induction false} HeadShape()
    ensures StructSize(HeadLayout) == 12 && WellFormed(HeadLayout)
  {}

  lemma {:induction false} VertCountsShape()
    ensures StructSize(VertCounts) == 12 && WellFormed(VertCounts)
  {}

  lemma {:induction false} VertFormatShape()
    ensures StructSize(VertFormat) == 8 && WellFormed(VertFormat)
  {}

  lemma {:induction false} VertFormatAfterCounts()
    ensures Disjoint(VertCounts, VertFormat)
  {}

  /** The vertex-block header is 20 bytes of six distinct fields. */
  lemma {:induction false} VertShape()
    ensures StructSize(VertLayout) == 20 && WellFormed(VertLayout) && |VertLayout| == 6
  {
    VertCountsShape();
    VertFormatShape();
    VertFormatAfterCounts();
    StructSizeConcat(VertCounts, VertFormat);
    WellFormedConcat(VertCounts, VertFormat);
  }

  // ----- The `version` property of the HEAD chunk -----

  /** The getter: `u'.'.join([unicode(self.version_major), unicode(self.version_minor)])`. */
  function HeadVersion(h: Record): Result<string>
  {
    GetVersion(h, VersionMajor, VersionMinor)
  }

  /** The setter: `self.version_major, self.version_minor = map(int, version.split('.'))`. */
  function SetHeadVersion(h: Record, version: string): Result<Record>
    requires Valid(h)
  {
    SetVersion(h, VersionMajor, VersionMinor, version)
  }

  /** Setting `"a.b"` stores `a` and `b`, and the getter then returns `"a.b"`. */
  lemma {:induction false} HeadVersionRoundTrip(h: Record, a: int, b: int)
    requires Valid(h)
    ensures var s := IntToString(a) + "." + IntToString(b);
      SetHeadVersion(h, s).Ok? &&
      IntFields(SetHeadVersion(h, s).value, VersionMajor, VersionMinor, a, b) &&
      HeadVersion(SetHeadVersion(h, s).value) == Ok(s)
  {
    SetThenGet(h, VersionMajor, VersionMinor, a, b);
  }

  /** A version string without exactly one dot is refused, before any field changes. */
  lemma {:induction false} HeadVersionMalformed(h: Record, a: int, b: int, c: int)
    requires Valid(h)
    ensures SetHeadVersion(h, IntToString(a)) == Err(ValueError("need more than 1 value to unpack"))
    ensures SetHeadVersion(h, IntToString(a) + "." + IntToString(b) + "." + IntToString(c))
      == Err(ValueError("too many values to unpack"))
  {
    SetVersionTooFew(h, VersionMajor, VersionMinor, a);
    SetVersionTooMany(h, VersionMajor, VersionMinor, a, b, c);
  }

  // ----- HEAD chunks read from a file -----

  lemma {:induction false} VersionFieldsAt()
    ensures |HeadLayout| == 4 && HeadLayout[2] == Field(VersionMajor, U16) && HeadLayout[3] == Field(VersionMinor, U16)
    ensures FieldOffset(HeadLayout, 2) == 8 && FieldOffset(HeadLayout, 3) == 10
  {
    assert HeadLayout[..0] == [];
    FieldOffsetStep(HeadLayout, 0);
    FieldOffsetStep(HeadLayout, 1);
    FieldOffsetStep(HeadLayout, 2);
  }

  /** The two bytes at `pos`, least significant first, as an unsigned number. */
  function U16At(file: seq<byte>, pos: nat): nat
    requires pos + 2 <= |file|
  {
    file[pos] as nat + 256 * file[pos + 1] as nat
  }

  lemma {:induction false} DecodeU16(bs: seq<byte>)
    requires |bs| == 2
    ensures DecodeField(U16, bs) == Int(U16At(bs, 0))
  {
    assert bs[1..][1..] == [];
    assert LittleEndian(bs[1..]) == bs[1] + 256 * LittleEndian(bs[1..][1..]);
  }

  /** A parsed record's u16 field holds the two bytes at its offset. */
  lemma {:induction false} ParsedU16(l: Layout, file: seq<byte>, pos: nat, i: nat)
    requires WellFormed(l) && pos + StructSize(l) <= |file| && i < |l| && l[i].kind == U16
    ensures FieldOffset(l, i) + 2 <= StructSize(l)
    ensures Parse(l, file, pos).Ok?
    ensures GetAttr(Parse(l, file, pos).value.0, l[i].name) == Ok(Int(U16At(file, pos + FieldOffset(l, i))))
  {
    var bs := file[pos..pos + StructSize(l)];
    ParsedFields(l, file, pos);
    DecodedU16(l, bs, i);
    ShapedU16(Parse(l, file, pos).value.0, bs, i);
    var o := FieldOffset(l, i);
    assert bs[o] == file[pos + o] && bs[o + 1] == file[pos + o + 1];
    assert U16At(bs, o) == U16At(file, pos + o);
  }

  /** In a shaped record holding the decoded bytes, a u16 field reads as the two bytes at its offset. */
  lemma {:induction false} ShapedU16(e: Record, bs: seq<byte>, i: nat)
    requires Shaped(e) && |bs| == StructSize(e.layout) && i < |e.layout|
    requires Values(e.dict) == DecodeAll(e.layout, bs)
    requires FieldOffset(e.layout, i) + 2 <= |bs|
    requires DecodeAll(e.layout, bs)[i] == Int(U16At(bs, FieldOffset(e.layout, i)))
    ensures GetAttr(e, e.layout[i].name) == Ok(Int(U16At(bs, FieldOffset(e.layout, i))))
  {
    FieldValue(e, i);
  }

  lemma {:induction false} DecodedU16(l: Layout, bs: seq<byte>, i: nat)
    requires |bs| == StructSize(l) && i < |l| && l[i].kind == U16
    ensures FieldOffset(l, i) + 2 <= |bs|
    ensures DecodeAll(l, bs)[i] == Int(U16At(bs, FieldOffset(l, i)))
  {
    DecodeAllAt(l, bs, i);
    var o := FieldOffset(l, i);
    DecodeU16(bs[o..o + 2]);
  }

  /**
   * The version of a `HEAD` chunk parsed at `pos` renders the u16 numbers at
   * `pos + 8` and `pos + 10` as `"major.minor"`.
   */
  lemma {:induction false} ParsedHeadVersion(file: seq<byte>, pos: nat)
    requires pos + 12 <= |file|
    ensures Parse(HeadLayout, file, pos).Ok?
    ensures HeadVersion(Parse(HeadLayout, file, pos).value.0) ==
      Ok(IntToString(U16At(file, pos + 8)) + "." + IntToString(U16At(file, pos + 10)))
  {
    HeadShape();
    VersionFieldsAt();
    ParsedU16(HeadLayout, file, pos, 2);
    ParsedU16(HeadLayout, file, pos, 3);
    GetVersionOfInts(Parse(HeadLayout, file, pos).value.0, VersionMajor, VersionMinor,
      U16At(file, pos + 8), U16At(file, pos + 10));
  }
}

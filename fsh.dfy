/**
 * The FSH image-container records of simtools/fsh.py: the file header, the
 * directory entries, and the entry header whose 24-bit `size` property is
 * split over three one-byte fields.
 *
 * The source declares its formats without a byte-order prefix (native order
 * and alignment); none of these layouts needs alignment padding, and the
 * model fixes the order as little endian.
 */
module Fsh {
  import opened Wrappers
  import opened Bytes
  import opened BaseStruct
  import opened FieldNames
  import Dbpf

  // ----- Layouts -----

  /** `'4s2I4s'`. */
  const HeaderLayout: Layout :=
    [Field(Magic, Chars(4)), Field(FileSize, U32), Field(EntryCount, U32), Field(DirectoryId, Chars(4))]

  /** `'4sI'`. */
  const DirectoryLayout: Layout := [Field(EntryName, Chars(4)), Field(FieldNames.Offset, U32)]

  /** `'b3b6H'`: the record id and the three size bytes are signed. */
  const EntryLayout: Layout := EntrySizes(I8) + EntryGeometry

  /** The record id and the three size bytes, of the given byte kind. */
  function EntrySizes(k: Kind): Layout
  {
    [Field(RecordId, I8), Field(Size1, k), Field(Size2, k), Field(Size3, k)]
  }

  /** The six u16 fields after the size bytes, in two groups of three. */
  const EntryGeometry: Layout := EntryExtent + EntryPlacement

  const EntryExtent: Layout := [Field(FieldNames.Width, U16), Field(Height, U16), Field(XCenter, U16)]
  const EntryPlacement: Layout := [Field(YCenter, U16), Field(XLeft, U16), Field(YTop, U16)]

  lemma {:induction false} HeaderShape()
    ensures StructSize(HeaderLayout) == 16 && WellFormed(HeaderLayout)
  {}

  lemma {:induction false} DirectoryShape()
    ensures StructSize(DirectoryLayout) == 8 && WellFormed(DirectoryLayout)
  {}

  lemma {:induction false} EntrySizesShape(k: Kind)
    requires k == I8 || k == U8
    ensures StructSize(EntrySizes(k)) == 4 && WellFormed(EntrySizes(k))
  {}

  lemma {:induction false} EntryExtentSize() ensures StructSize(EntryExtent) == 6 {}
  lemma {:induction false} EntryPlacementSize() ensures StructSize(EntryPlacement) == 6 {}
  lemma {:induction false} EntryExtentWellFormed() ensures WellFormed(EntryExtent) {}
  lemma {:induction false} EntryPlacementWellFormed() ensures WellFormed(EntryPlacement) {}
  lemma {:induction false} EntryPlacementAfterExtent() ensures Disjoint(EntryExtent, EntryPlacement) {}

  lemma {:induction false} EntryGeometryShape()
    ensures StructSize(EntryGeometry) == 12 && WellFormed(EntryGeometry)
  {
    EntryExtentSize();
    EntryPlacementSize();
    EntryExtentWellFormed();
    EntryPlacementWellFormed();
    EntryPlacementAfterExtent();
    StructSizeConcat(EntryExtent, EntryPlacement);
    WellFormedConcat(EntryExtent, EntryPlacement);
  }

  lemma {:induction false} EntryGeometryAfterSizes(k: Kind)
    ensures Disjoint(EntrySizes(k), EntryGeometry)
  {}

  /** An entry header is 16 bytes of ten distinct fields: four single bytes, then six u16. */
  lemma {:induction false} EntryShape(k: Kind)
    requires k == I8 || k == U8
    ensures StructSize(EntrySizes(k) + EntryGeometry) == 16 && WellFormed(EntrySizes(k) + EntryGeometry)
  {
    EntrySizesShape(k);
    EntryGeometryShape();
    EntryGeometryAfterSizes(k);
    StructSizeConcat(EntrySizes(k), EntryGeometry);
    WellFormedConcat(EntrySizes(k), EntryGeometry);
  }

  // ----- Python's `|` on integers -----

  /** The magnitude that halving shrinks: `a` for a non-negative `a`, `~a` for a negative one. */
  function Mag(a: int): nat
  {
    if a >= 0 then a else -a - 1
  }

  /**
   * Python's bitwise or on unbounded two's-complement integers, bit by bit
   * from the least significant one; 0 and -1 are the all-zero and all-one
   * patterns.
   */
  function PyOr(a: int, b: int): int
    decreases Mag(a) + Mag(b)
  {
    if Mag(a) == 0 && Mag(b) == 0 then (if a == -1 || b == -1 then -1 else 0)
    else 2 * PyOr(a / 2, b / 2) + (if a % 2 == 1 || b % 2 == 1 then 1 else 0)
  }

  function Pow2(k: nat): (p: nat)
    ensures p >= 1
  {
    if k == 0 then 1 else 2 * Pow2(k - 1)
  }

  lemma {:induction false} OrZero(a: int)
    ensures PyOr(a, 0) == a
    decreases Mag(a)
  {
    if Mag(a) != 0 {
      OrZero(a / 2);
    }
  }

  /** Or-ing two numbers shifted left by one is shifting their or. */
  lemma {:induction false} OrDouble(a: int, b: int)
    ensures PyOr(2 * a, 2 * b) == 2 * PyOr(a, b)
  {
    assert (2 * a) / 2 == a && (2 * b) / 2 == b && (2 * a) % 2 == 0 && (2 * b) % 2 == 0;
  }

  lemma {:induction false} OrShift(a: int, b: int, k: nat)
    ensures PyOr(a * Pow2(k), b * Pow2(k)) == PyOr(a, b) * Pow2(k)
  {
    if k > 0 {
      var p := Pow2(k - 1);
      OrShift(a, b, k - 1);
      MulTwice(a, p);
      MulTwice(b, p);
      MulTwice(PyOr(a, b), p);
      OrDouble(a * p, b * p);
    }
  }

  /** Bits below `k` do not meet a number shifted left by `k`: the or is the sum. */
  lemma {:induction false} OrDisjoint(x: int, y: int, k: nat)
    requires 0 <= y < Pow2(k)
    ensures PyOr(x * Pow2(k), y) == x * Pow2(k) + y
  {
    if k == 0 {
      OrZero(x);
    } else {
      var z := x * Pow2(k - 1);
      MulTwice(x, Pow2(k - 1));
      OrDisjoint(x, y / 2, k - 1);
      assert (2 * z) / 2 == z && (2 * z) % 2 == 0;
    }
  }

  lemma {:induction false} MulTwice(a: int, p: nat)
    ensures a * (2 * p) == 2 * (a * p)
  {}

  lemma {:induction false} Pow2Eight()
    ensures Pow2(8) == 256
  {}

  /** `a << 16 | b << 8 | c` with `b` and `c` bytes is the 24-bit number `a`, `b`, `c`. */
  lemma {:induction false} PackThree(a: int, b: int, c: int)
    requires 0 <= b < 256 && 0 <= c < 256
    ensures PyOr(PyOr(a * 65536, b * 256), c) == a * 65536 + b * 256 + c
  {
    Pow2Eight();
    OrShift(a * 256, b, 8);
    assert a * 65536 == (a * 256) * Pow2(8) && b * 256 == b * Pow2(8);
    OrDisjoint(a, b, 8);
    OrDisjoint(a * 256 + b, c, 8);
    assert (a * 256 + b) * 256 == a * 65536 + b * 256;
  }

  /** Shifting right by 16 and 8 and masking with 0xff splits a number into its top and its two low bytes. */
  lemma {:induction false} SplitThree(v: int)
    ensures v / 65536 * 65536 + (v / 256) % 256 * 256 + v % 256 == v
  {
    var q := v / 256;
    assert v == 256 * q + v % 256;
    assert q == 256 * (q / 256) + q % 256;
    assert v == 65536 * (q / 256) + (256 * (q % 256) + v % 256);
    assert v / 65536 == q / 256;
  }

  // ----- The `size` property of an entry header -----

  /** The getter: `self.size1 << 16 | self.size2 << 8 | self.size3`. */
  function GetSize(e: Record): Result<int>
  {
    var a :- Dbpf.IntAttr(e, Size1);
    var b :- Dbpf.IntAttr(e, Size2);
    var c :- Dbpf.IntAttr(e, Size3);
    Ok(PyOr(PyOr(a * 65536, b * 256), c))
  }

  /** The setter: `size1 = value >> 16`, `size2 = (value >> 8) & 0xff`, `size3 = value & 0xff`. */
  function SetSize(e: Record, v: int): (e': Record)
    requires Valid(e)
    ensures Valid(e') && e'.layout == e.layout
  {
    SetAttr(SetAttr(SetAttr(e, Size1, Int(v / 65536)), Size2, Int(v / 256 % 256)), Size3, Int(v % 256))
  }

  /** The three fields hold the top part and the two low bytes of the value set. */
  lemma {:induction false} SetSizeFields(e: Record, v: int)
    requires Valid(e)
    ensures GetAttr(SetSize(e, v), Size1) == Ok(Int(v / 65536))
    ensures GetAttr(SetSize(e, v), Size2) == Ok(Int(v / 256 % 256))
    ensures GetAttr(SetSize(e, v), Size3) == Ok(Int(v % 256))
  {
    var e1 := SetAttr(e, Size1, Int(v / 65536));
    var e2 := SetAttr(e1, Size2, Int(v / 256 % 256));
    SetAttrFrame(e1, Size2, Int(v / 256 % 256), Size1);
    SetAttrFrame(e2, Size3, Int(v % 256), Size1);
    SetAttrFrame(e2, Size3, Int(v % 256), Size2);
  }

  /**
   * Reading the size back after setting it gives the value set, for every
   * integer: the low bytes are masked into 0..255 and the top part keeps the
   * rest, sign included.
   */
  lemma {:induction false} SizeRoundTrip(e: Record, v: int)
    requires Valid(e)
    ensures GetSize(SetSize(e, v)) == Ok(v)
  {
    SetSizeFields(e, v);
    SizeOfParts(SetSize(e, v), v);
  }

  /** Fields holding the top part and the two low bytes of `v` read as size `v`. */
  lemma {:induction false} SizeOfParts(e: Record, v: int)
    requires GetAttr(e, Size1) == Ok(Int(v / 65536))
    requires GetAttr(e, Size2) == Ok(Int(v / 256 % 256)) && GetAttr(e, Size3) == Ok(Int(v % 256))
    ensures GetSize(e) == Ok(v)
  {
    SizeOfFields(e, v / 65536, v / 256 % 256, v % 256);
    PackThree(v / 65536, v / 256 % 256, v % 256);
    SplitThree(v);
  }

  /** The setter changes no attribute but the three size fields. */
  lemma {:induction false} SetSizeFrame(e: Record, v: int, other: Name)
    requires Valid(e) && other != Size1 && other != Size2 && other != Size3
    ensures GetAttr(SetSize(e, v), other) == GetAttr(e, other)
  {
    var e1 := SetAttr(e, Size1, Int(v / 65536));
    var e2 := SetAttr(e1, Size2, Int(v / 256 % 256));
    SetAttrFrame(e, Size1, Int(v / 65536), other);
    SetAttrFrame(e1, Size2, Int(v / 256 % 256), other);
    SetAttrFrame(e2, Size3, Int(v % 256), other);
  }

  // ----- Entry headers read from a file -----

  /** The value a one-byte field of kind `k` decodes `b` to. */
  function ByteValue(k: Kind, b: byte): int
  {
    if k == I8 && b >= 128 then b as int - 256 else b
  }

  /** A one-byte field of a parsed record holds the byte at its offset. */
  lemma {:induction false} ParsedByteField(layout: Layout, file: seq<byte>, pos: nat, i: nat)
    requires WellFormed(layout) && pos + StructSize(layout) <= |file| && i < |layout|
    requires layout[i].kind == I8 || layout[i].kind == U8
    ensures FieldOffset(layout, i) < StructSize(layout)
    ensures Parse(layout, file, pos).Ok?
    ensures GetAttr(Parse(layout, file, pos).value.0, layout[i].name) ==
      Ok(Int(ByteValue(layout[i].kind, file[pos + FieldOffset(layout, i)])))
  {
    ParsedFieldIs(layout, file, pos, i);
    DecodedByteAt(layout, file, pos, i);
  }

  /** The same for the decoded values of the bytes at `pos`. */
  lemma {:induction false} DecodedByteAt(layout: Layout, file: seq<byte>, pos: nat, i: nat)
    requires pos + StructSize(layout) <= |file| && i < |layout|
    requires layout[i].kind == I8 || layout[i].kind == U8
    ensures FieldOffset(layout, i) < StructSize(layout)
    ensures DecodeAll(layout, file[pos..pos + StructSize(layout)])[i] ==
      Int(ByteValue(layout[i].kind, file[pos + FieldOffset(layout, i)]))
  {
    var bs := file[pos..pos + StructSize(layout)];
    DecodedByte(layout, bs, i);
    var o := FieldOffset(layout, i);
    assert bs[o] == file[pos + o];
  }

  /** Field `i` of a parsed record reads as the `i`-th decoded value. */
  lemma {:induction false} ParsedFieldIs(layout: Layout, file: seq<byte>, pos: nat, i: nat)
    requires WellFormed(layout) && pos + StructSize(layout) <= |file| && i < |layout|
    ensures Parse(layout, file, pos).Ok?
    ensures |DecodeAll(layout, file[pos..pos + StructSize(layout)])| == |layout|
    ensures GetAttr(Parse(layout, file, pos).value.0, layout[i].name) ==
      Ok(DecodeAll(layout, file[pos..pos + StructSize(layout)])[i])
  {
    ParsedFields(layout, file, pos);
    FieldValue(Parse(layout, file, pos).value.0, i);
  }

  /** In a shaped record holding the decoded bytes, a one-byte field reads as the byte at its offset. */
  lemma {:induction false} ShapedByteField(e: Record, bs: seq<byte>, i: nat)
    requires Shaped(e) && |bs| == StructSize(e.layout) && i < |e.layout|
    requires Values(e.dict) == DecodeAll(e.layout, bs)
    requires e.layout[i].kind == I8 || e.layout[i].kind == U8
    requires FieldOffset(e.layout, i) < |bs|
    requires DecodeAll(e.layout, bs)[i] == Int(ByteValue(e.layout[i].kind, bs[FieldOffset(e.layout, i)]))
    ensures GetAttr(e, e.layout[i].name) == Ok(Int(ByteValue(e.layout[i].kind, bs[FieldOffset(e.layout, i)])))
  {
    FieldValue(e, i);
  }

  /** A one-byte field decodes from the byte at its offset. */
  lemma {:induction false} DecodedByte(layout: Layout, bs: seq<byte>, i: nat)
    requires |bs| == StructSize(layout) && i < |layout|
    requires layout[i].kind == I8 || layout[i].kind == U8
    ensures FieldOffset(layout, i) < |bs|
    ensures DecodeAll(layout, bs)[i] == Int(ByteValue(layout[i].kind, bs[FieldOffset(layout, i)]))
  {
    DecodeAllAt(layout, bs, i);
    var o := FieldOffset(layout, i);
    assert bs[o..o + 1] == [bs[o]];
    DecodeByte(layout[i].kind, bs[o]);
  }

  lemma {:induction false} DecodeByte(k: Kind, b: byte)
    requires k == I8 || k == U8
    ensures DecodeField(k, [b]) == Int(ByteValue(k, b))
  {
    assert LittleEndian([b]) == b + 256 * LittleEndian([]);
  }

  /** Where the size bytes sit in an entry header of either signedness. */
  lemma {:induction false} SizeFieldsAt(k: Kind)
    requires k == I8 || k == U8
    ensures var l := EntrySizes(k) + EntryGeometry;
      |l| == 10 &&
      l[1] == Field(Size1, k) && l[2] == Field(Size2, k) && l[3] == Field(Size3, k) &&
      FieldOffset(l, 1) == 1 && FieldOffset(l, 2) == 2 && FieldOffset(l, 3) == 3
  {
    var l := EntrySizes(k) + EntryGeometry;
    assert l[..0] == [];
    FieldOffsetStep(l, 0);
    FieldOffsetStep(l, 1);
    FieldOffsetStep(l, 2);
  }

  /** The three size fields of an entry header parsed at `pos` hold the bytes at `pos + 1` to `pos + 3`. */
  lemma {:induction false} ParsedSizeFields(k: Kind, file: seq<byte>, pos: nat)
    requires k == I8 || k == U8
    requires pos + 16 <= |file|
    ensures Parse(EntrySizes(k) + EntryGeometry, file, pos).Ok?
    ensures SizeBytes(Parse(EntrySizes(k) + EntryGeometry, file, pos).value.0, k, file[pos + 1], file[pos + 2], file[pos + 3])
  {
    EntryShape(k);
    SizeFieldsAt(k);
    SizeFieldsOfParsed(EntrySizes(k) + EntryGeometry, k, file, pos);
  }

  /** The three size fields read as the given bytes decoded with kind `k`. */
  predicate SizeBytes(e: Record, k: Kind, a: byte, b: byte, c: byte)
  {
    GetAttr(e, Size1) == Ok(Int(ByteValue(k, a))) &&
    GetAttr(e, Size2) == Ok(Int(ByteValue(k, b))) &&
    GetAttr(e, Size3) == Ok(Int(ByteValue(k, c)))
  }

  lemma {:induction false} SizeFieldsOfParsed(l: Layout, k: Kind, file: seq<byte>, pos: nat)
    requires k == I8 || k == U8
    requires WellFormed(l) && StructSize(l) == 16 && pos + 16 <= |file| && |l| == 10
    requires l[1] == Field(Size1, k) && l[2] == Field(Size2, k) && l[3] == Field(Size3, k)
    requires FieldOffset(l, 1) == 1 && FieldOffset(l, 2) == 2 && FieldOffset(l, 3) == 3
    ensures Parse(l, file, pos).Ok?
    ensures SizeBytes(Parse(l, file, pos).value.0, k, file[pos + 1], file[pos + 2], file[pos + 3])
  {
    ParsedByteField(l, file, pos, 1);
    ParsedByteField(l, file, pos, 2);
    ParsedByteField(l, file, pos, 3);
  }

  /** The record id of a parsed entry header is its first byte read as a signed number. */
  lemma {:induction false} ParsedRecordId(k: Kind, file: seq<byte>, pos: nat)
    requires k == I8 || k == U8
    requires pos + 16 <= |file|
    ensures Parse(EntrySizes(k) + EntryGeometry, file, pos).Ok?
    ensures GetAttr(Parse(EntrySizes(k) + EntryGeometry, file, pos).value.0, RecordId) == Ok(Int(ByteValue(I8, file[pos])))
  {
    var l := EntrySizes(k) + EntryGeometry;
    EntryShape(k);
    assert l[..0] == [] && l[0] == Field(RecordId, I8);
    ParsedByteField(l, file, pos, 0);
  }

  /** The 24-bit number of three bytes, most significant first. */
  function BigEndian24(a: byte, b: byte, c: byte): int
  {
    a as int * 65536 + b as int * 256 + c as int
  }

  /** The getter of a record whose size fields hold three decoded bytes. */
  lemma {:induction false} SizeOfBytes(e: Record, k: Kind, a: byte, b: byte, c: byte)
    requires SizeBytes(e, k, a, b, c)
    ensures GetSize(e) == Ok(PyOr(PyOr(ByteValue(k, a) * 65536, ByteValue(k, b) * 256), ByteValue(k, c)))
    ensures (k == U8 || (a < 128 && b < 128 && c < 128)) ==> GetSize(e) == Ok(BigEndian24(a, b, c))
  {
    SizeOfFields(e, ByteValue(k, a), ByteValue(k, b), ByteValue(k, c));
    if k == U8 || (a < 128 && b < 128 && c < 128) {
      UnsignedParts(k, a, b, c);
    }
  }

  /** Three bytes that decode to themselves or-ed together in their places spell their 24-bit number. */
  lemma {:induction false} UnsignedParts(k: Kind, a: byte, b: byte, c: byte)
    requires k == U8 || (a < 128 && b < 128 && c < 128)
    ensures PyOr(PyOr(ByteValue(k, a) * 65536, ByteValue(k, b) * 256), ByteValue(k, c)) == BigEndian24(a, b, c)
  {
    var x, y, z := ByteValue(k, a), ByteValue(k, b), ByteValue(k, c);
    assert x == a as int && y == b as int && z == c as int;
    PackThree(x, y, z);
  }

  /** The getter of three integer fields. */
  lemma {:induction false} SizeOfFields(e: Record, x: int, y: int, z: int)
    requires GetAttr(e, Size1) == Ok(Int(x)) && GetAttr(e, Size2) == Ok(Int(y)) && GetAttr(e, Size3) == Ok(Int(z))
    ensures GetSize(e) == Ok(PyOr(PyOr(x * 65536, y * 256), z))
  {
  }

  /**
   * As written, the size of a parsed entry header is computed from the three
   * size bytes read as signed numbers; when none of them has its top bit
   * set, it is the 24-bit big-endian number they spell.
   */
  lemma {:induction false} ParsedSize(file: seq<byte>, pos: nat)
    requires pos + 16 <= |file|
    ensures Parse(EntryLayout, file, pos).Ok?
    ensures GetSize(Parse(EntryLayout, file, pos).value.0) ==
      Ok(PyOr(PyOr(ByteValue(I8, file[pos + 1]) * 65536, ByteValue(I8, file[pos + 2]) * 256), ByteValue(I8, file[pos + 3])))
    ensures file[pos + 1] < 128 && file[pos + 2] < 128 && file[pos + 3] < 128 ==>
      GetSize(Parse(EntryLayout, file, pos).value.0) == Ok(BigEndian24(file[pos + 1], file[pos + 2], file[pos + 3]))
  {
    ParsedSizeFields(I8, file, pos);
    SizeOfBytes(Parse(EntryLayout, file, pos).value.0, I8, file[pos + 1], file[pos + 2], file[pos + 3]);
  }

  /** A layout that packs the three size bytes as unsigned, `'b3B6H'`. */
  const CorrectedEntryLayout: Layout := EntrySizes(U8) + EntryGeometry

  /** With unsigned size bytes, the size of a parsed entry header is always the 24-bit big-endian number. */
  lemma {:induction false} CorrectedParsedSize(file: seq<byte>, pos: nat)
    requires pos + 16 <= |file|
    ensures Parse(CorrectedEntryLayout, file, pos).Ok?
    ensures GetSize(Parse(CorrectedEntryLayout, file, pos).value.0) ==
      Ok(BigEndian24(file[pos + 1], file[pos + 2], file[pos + 3]))
  {
    ParsedSizeFields(U8, file, pos);
    SizeOfBytes(Parse(CorrectedEntryLayout, file, pos).value.0, U8, file[pos + 1], file[pos + 2], file[pos + 3]);
  }

  // ----- Setting the size and packing the entry header again -----

  /** The three parts the setter stores are values that fields of kind `k` can pack. */
  predicate PartsFit(k: Kind, v: int)
  {
    Fits(k, Int(v / 65536)) && Fits(k, Int(v / 256 % 256)) && Fits(k, Int(v % 256))
  }

  /** The size fields of a layout: positions 1 to 3, one byte each of kind `k`. */
  predicate SizeFieldsIn(l: Layout, k: Kind)
  {
    |l| >= 4 && l[1] == Field(Size1, k) && l[2] == Field(Size2, k) && l[3] == Field(Size3, k)
  }

  /** The values `_data` holds once the setter has run, in field order. */
  function Resized(vals: seq<Value>, v: int): (r: seq<Value>)
    requires |vals| >= 4
    ensures |r| == |vals|
    ensures r[1] == Int(v / 65536) && r[2] == Int(v / 256 % 256) && r[3] == Int(v % 256)
    ensures forall i :: 0 <= i < |vals| && i != 1 && i != 2 && i != 3 ==> r[i] == vals[i]
  {
    vals[1 := Int(v / 65536)][2 := Int(v / 256 % 256)][3 := Int(v % 256)]
  }

  /** A record holding its declared fields, with the values decoded from `bs`. */
  predicate Decoded(e: Record, bs: seq<byte>)
  {
    Shaped(e) && |bs| == StructSize(e.layout) && Values(e.dict) == DecodeAll(e.layout, bs)
  }

  lemma {:induction false} ParsedDecoded(l: Layout, file: seq<byte>, pos: nat)
    requires WellFormed(l) && pos + StructSize(l) <= |file|
    ensures Parse(l, file, pos).Ok?
    ensures Parse(l, file, pos).value.0.layout == l
    ensures Decoded(Parse(l, file, pos).value.0, file[pos..pos + StructSize(l)])
  {
    ParsedFields(l, file, pos);
  }

  /** On a record holding its declared fields, the setter replaces the three size values in place. */
  lemma {:induction false} ResizedValues(e: Record, k: Kind, v: int)
    requires Shaped(e) && SizeFieldsIn(e.layout, k)
    ensures Keys(SetSize(e, v).dict) == Keys(e.dict)
    ensures Values(SetSize(e, v).dict) == Resized(Values(e.dict), v)
  {
    var e1 := SetAttr(e, Size1, Int(v / 65536));
    var e2 := SetAttr(e1, Size2, Int(v / 256 % 256));
    SetFieldKeepsOrder(e, 1, Int(v / 65536));
    SetFieldKeepsOrder(e1, 2, Int(v / 256 % 256));
    SetFieldKeepsOrder(e2, 3, Int(v % 256));
  }

  /** With parts that fit, every value the setter leaves fits its field. */
  lemma {:induction false} ResizedFits(e: Record, k: Kind, bs: seq<byte>, v: int)
    requires Decoded(e, bs) && SizeFieldsIn(e.layout, k) && PartsFit(k, v)
    ensures forall i :: 0 <= i < |e.layout| ==> Fits(e.layout[i].kind, Resized(Values(e.dict), v)[i])
  {
    DecodeAllFits(e.layout, bs);
    var vals := Resized(Values(e.dict), v);
    forall i | 0 <= i < |e.layout|
      ensures Fits(e.layout[i].kind, vals[i])
    {
      if i != 1 && i != 2 && i != 3 {
        assert vals[i] == DecodeAll(e.layout, bs)[i];
      }
    }
  }

  /** With parts that fit, the packed record unpacks to the values the setter left. */
  lemma {:induction false} ResizedPacks(e: Record, k: Kind, bs: seq<byte>, v: int)
    requires Decoded(e, bs) && SizeFieldsIn(e.layout, k) && PartsFit(k, v)
    ensures Raw(SetSize(e, v)).Ok?
    ensures Unpack(e.layout, Raw(SetSize(e, v)).value) == Ok(Resized(Values(e.dict), v))
  {
    ResizedValues(e, k, v);
    ResizedFits(e, k, bs, v);
    UnpackOfPack(e.layout, Resized(Values(e.dict), v));
  }

  /** A one-byte value out of its format's range is refused by `struct.pack`. */
  lemma {:induction false} ByteRefused(k: Kind, x: int)
    requires (k == I8 || k == U8) && !Fits(k, Int(x))
    ensures EncodeField(k, Int(x)).Err?
  {
  }

  /** With a part that does not fit, packing the record fails. */
  lemma {:induction false} ResizedRefused(e: Record, k: Kind, v: int)
    requires Shaped(e) && SizeFieldsIn(e.layout, k) && (k == I8 || k == U8) && !PartsFit(k, v)
    ensures Raw(SetSize(e, v)) == Err(StructError)
  {
    ResizedValues(e, k, v);
    var vals := Resized(Values(e.dict), v);
    if !Fits(k, Int(v / 65536)) {
      ByteRefused(k, v / 65536);
      PackRefuses(e.layout, vals, 1);
    } else if !Fits(k, Int(v / 256 % 256)) {
      ByteRefused(k, v / 256 % 256);
      PackRefuses(e.layout, vals, 2);
    } else {
      ByteRefused(k, v % 256);
      PackRefuses(e.layout, vals, 3);
    }
  }

  /** Bytes that unpack to `vals` parse to a record whose three size fields read as `vals[1]` to `vals[3]`. */
  lemma {:induction false} ReparsedFields(l: Layout, k: Kind, packed: seq<byte>, vals: seq<Value>)
    requires WellFormed(l) && SizeFieldsIn(l, k) && Unpack(l, packed) == Ok(vals)
    ensures Parse(l, packed, 0).Ok?
    ensures GetAttr(Parse(l, packed, 0).value.0, Size1) == Ok(vals[1])
    ensures GetAttr(Parse(l, packed, 0).value.0, Size2) == Ok(vals[2])
    ensures GetAttr(Parse(l, packed, 0).value.0, Size3) == Ok(vals[3])
  {
    ReparsedValues(l, packed, vals);
    ShapedSizeFields(Parse(l, packed, 0).value.0, k, vals);
  }

  /** Bytes that unpack to `vals` parse to a record holding its fields with the values `vals`. */
  lemma {:induction false} ReparsedValues(l: Layout, packed: seq<byte>, vals: seq<Value>)
    requires WellFormed(l) && Unpack(l, packed) == Ok(vals)
    ensures Parse(l, packed, 0).Ok?
    ensures Parse(l, packed, 0).value.0.layout == l
    ensures Shaped(Parse(l, packed, 0).value.0) && Values(Parse(l, packed, 0).value.0.dict) == vals
  {
    assert packed[0..StructSize(l)] == packed;
    ParsedDecoded(l, packed, 0);
    UnpackExact(l, packed);
  }

  /** In a shaped record laid out for size fields, those fields read as the values at positions 1 to 3. */
  lemma {:induction false} ShapedSizeFields(rec: Record, k: Kind, vals: seq<Value>)
    requires Shaped(rec) && SizeFieldsIn(rec.layout, k) && Values(rec.dict) == vals
    ensures GetAttr(rec, Size1) == Ok(vals[1]) && GetAttr(rec, Size2) == Ok(vals[2]) && GetAttr(rec, Size3) == Ok(vals[3])
  {
    FieldValue(rec, 1);
    FieldValue(rec, 2);
    FieldValue(rec, 3);
  }

  /** Bytes that unpack to values whose size parts are those of `v` parse back to a record of size `v`. */
  lemma {:induction false} ReparsedSize(l: Layout, k: Kind, packed: seq<byte>, vals: seq<Value>, v: int)
    requires WellFormed(l) && SizeFieldsIn(l, k) && Unpack(l, packed) == Ok(vals)
    requires vals[1] == Int(v / 65536) && vals[2] == Int(v / 256 % 256) && vals[3] == Int(v % 256)
    ensures Parse(l, packed, 0).Ok? && GetSize(Parse(l, packed, 0).value.0) == Ok(v)
  {
    ReparsedFields(l, k, packed, vals);
    SizeOfParts(Parse(l, packed, 0).value.0, v);
  }

  /**
   * Parsing an entry header, setting its size to `v`, packing it and parsing
   * the bytes again gives size `v`, provided each stored part fits a field
   * of kind `k`.
   */
  lemma {:induction false} ResizeRoundTrip(l: Layout, k: Kind, file: seq<byte>, pos: nat, v: int)
    requires WellFormed(l) && SizeFieldsIn(l, k) && pos + StructSize(l) <= |file| && PartsFit(k, v)
    ensures Parse(l, file, pos).Ok?
    ensures var raw := Raw(SetSize(Parse(l, file, pos).value.0, v));
      raw.Ok? && Parse(l, raw.value, 0).Ok? && GetSize(Parse(l, raw.value, 0).value.0) == Ok(v)
  {
    var bs := file[pos..pos + StructSize(l)];
    ParsedDecoded(l, file, pos);
    var e := Parse(l, file, pos).value.0;
    ResizedPacks(e, k, bs, v);
    var vals := Resized(Values(e.dict), v);
    ReparsedSize(l, k, Raw(SetSize(e, v)).value, vals, v);
  }

  lemma {:induction false} EntryFacts(k: Kind)
    requires k == I8 || k == U8
    ensures WellFormed(EntrySizes(k) + EntryGeometry) && StructSize(EntrySizes(k) + EntryGeometry) == 16
    ensures SizeFieldsIn(EntrySizes(k) + EntryGeometry, k)
  {
    EntryShape(k);
    SizeFieldsAt(k);
  }

  /**
   * As written, an entry header parsed from a file takes a new size and packs
   * again exactly when the three parts the setter stores fit signed bytes;
   * then the size reads back unchanged. Otherwise `raw` raises `struct.error`.
   */
  lemma {:induction false} EntryResize(file: seq<byte>, pos: nat, v: int)
    requires pos + 16 <= |file|
    ensures Parse(EntryLayout, file, pos).Ok?
    ensures PartsFit(I8, v) <==> Raw(SetSize(Parse(EntryLayout, file, pos).value.0, v)).Ok?
    ensures !PartsFit(I8, v) ==> Raw(SetSize(Parse(EntryLayout, file, pos).value.0, v)) == Err(StructError)
    ensures PartsFit(I8, v) ==>
      var raw := Raw(SetSize(Parse(EntryLayout, file, pos).value.0, v)).value;
      Parse(EntryLayout, raw, 0).Ok? && GetSize(Parse(EntryLayout, raw, 0).value.0) == Ok(v)
  {
    EntryFacts(I8);
    ParsedFields(EntryLayout, file, pos);
    if PartsFit(I8, v) {
      ResizeRoundTrip(EntryLayout, I8, file, pos, v);
    } else {
      ResizedRefused(Parse(EntryLayout, file, pos).value.0, I8, v);
    }
  }

  /**
   * The discrepancy: the size bytes 00 00 80 read back as size -128, not
   * 128, and setting the size to 128 leaves a record that cannot be packed.
   */
  lemma {:induction false} SignedSizeCounterexample(file: seq<byte>, pos: nat)
    requires pos + 16 <= |file| && file[pos + 1] == 0 && file[pos + 2] == 0 && file[pos + 3] == 0x80
    ensures BigEndian24(file[pos + 1], file[pos + 2], file[pos + 3]) == 128
    ensures Parse(EntryLayout, file, pos).Ok?
    ensures GetSize(Parse(EntryLayout, file, pos).value.0) == Ok(-128)
    ensures Raw(SetSize(Parse(EntryLayout, file, pos).value.0, 128)) == Err(StructError)
  {
    SignedSizeReadBack(file, pos);
    SignedSizeRefused(file, pos);
  }

  lemma {:induction false} SignedSizeReadBack(file: seq<byte>, pos: nat)
    requires pos + 16 <= |file| && file[pos + 1] == 0 && file[pos + 2] == 0 && file[pos + 3] == 0x80
    ensures Parse(EntryLayout, file, pos).Ok?
    ensures GetSize(Parse(EntryLayout, file, pos).value.0) == Ok(-128)
  {
    ParsedSize(file, pos);
    assert ByteValue(I8, file[pos + 1]) == 0 && ByteValue(I8, file[pos + 2]) == 0 && ByteValue(I8, file[pos + 3]) == -128;
    assert PyOr(0, 0) == 0;
    ZeroOr(-128);
  }

  lemma {:induction false} SignedSizeRefused(file: seq<byte>, pos: nat)
    requires pos + 16 <= |file|
    ensures Parse(EntryLayout, file, pos).Ok?
    ensures Raw(SetSize(Parse(EntryLayout, file, pos).value.0, 128)) == Err(StructError)
  {
    assert !Fits(I8, Int(128 % 256));
    EntryResize(file, pos, 128);
  }

  lemma {:induction false} ZeroOr(a: int)
    ensures PyOr(0, a) == a
    decreases Mag(a)
  {
    if Mag(a) != 0 {
      ZeroOr(a / 2);
    }
  }

  /**
   * With unsigned size bytes, any size from 0 to 2^24 - 1 can be set,
   * packed and parsed back unchanged.
   */
  lemma {:induction false} CorrectedResize(file: seq<byte>, pos: nat, v: int)
    requires pos + 16 <= |file| && 0 <= v < 0x100_0000
    ensures Parse(CorrectedEntryLayout, file, pos).Ok?
    ensures var raw := Raw(SetSize(Parse(CorrectedEntryLayout, file, pos).value.0, v));
      raw.Ok? && Parse(CorrectedEntryLayout, raw.value, 0).Ok? &&
      GetSize(Parse(CorrectedEntryLayout, raw.value, 0).value.0) == Ok(v)
  {
    EntryFacts(U8);
    assert PartsFit(U8, v);
    ResizeRoundTrip(CorrectedEntryLayout, U8, file, pos, v);
  }
}

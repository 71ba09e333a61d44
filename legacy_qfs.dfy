/**
 * The QFS decompressor of the older `dbpf` package (dbpf/qfs.py). Its opcode
 * loop `decompress(fileobj, length, uncompressed_size)` is the loop of the
 * newer package, modelled once in module Qfs. What differs is
 * `decompress_file`: it seeks to a position, parses the 9-byte frame header
 * there without checking the magic, and hands the loop the whole
 * `compressed_size` as its budget.
 *
 * `'IH3B'` is in native byte order; it needs no padding, and the model
 * reads it little endian.
 */
module LegacyQfs {
  import opened Wrappers
  import opened Bytes
  import opened Qfs

  /**
   * `fileobj.seek(position)` and `unpack('IH3B', fileobj.read(9))`: a
   * negative position cannot be sought, a short read cannot be unpacked,
   * and the magic is computed but never compared.
   */
  function FileHeader(file: seq<byte>, position: int): (r: Result<FrameHeader>)
    ensures r.Ok? <==> 0 <= position && position + FrameHeaderSize <= |file|
    ensures position < 0 ==> r == Err(SeekError)
    ensures 0 <= position && position + FrameHeaderSize > |file| ==> r == Err(StructError)
    ensures r.Ok? ==>
      r.value.compressedSize == LittleEndian(file[position..position + 4]) &&
      r.value.magic == LittleEndian(file[position + 4..position + 6]) &&
      r.value.size == DeclaredSize(file[position + 6], file[position + 7], file[position + 8]) &&
      r.value.size % 0x100 == 0
  {
    if position < 0 then Err(SeekError)
    else
      var bytes := Read(file, position, FrameHeaderSize);
      if |bytes| < FrameHeaderSize then Err(StructError)
      else
        assert bytes == file[position..position + FrameHeaderSize];
        assert bytes[0..4] == file[position..position + 4] && bytes[4..6] == file[position + 4..position + 6];
        Ok(FrameHeader(LittleEndian(bytes[0..4]), LittleEndian(bytes[4..6]), DeclaredSize(bytes[6], bytes[7], bytes[8])))
  }

  /** What `decompress_file(fileobj, position)` returns. */
  function DecompressedFile(file: seq<byte>, position: int): Result<seq<byte>>
  {
    var h :- FileHeader(file, position);
    Output(Run(file, State(position + FrameHeaderSize, h.compressedSize, []), h.size))
  }

  /** `decompress_file(fileobj, position)`. */
  method DecompressFile(file: seq<byte>, position: int) returns (r: Result<seq<byte>>)
    ensures r == DecompressedFile(file, position)
  {
    var h :- FileHeader(file, position);
    r := DecompressStream(file, position + FrameHeaderSize, h.compressedSize, h.size);
  }

  // ----- The magic is not checked -----

  /** Two files of one length that hold the same bytes from `p` on. */
  predicate SameFrom(d1: seq<byte>, d2: seq<byte>, p: nat)
  {
    |d1| == |d2| && forall i :: p <= i < |d1| ==> d1[i] == d2[i]
  }

  lemma {:induction false} ReadSame(d1: seq<byte>, d2: seq<byte>, p: nat, q: nat, n: int)
    requires SameFrom(d1, d2, p) && p <= q
    ensures Read(d1, q, n) == Read(d2, q, n)
  {
    var r1, r2 := Read(d1, q, n), Read(d2, q, n);
    if q <= |d1| {
      assert |r1| == |r2|;
      forall k | 0 <= k < |r1| ensures r1[k] == r2[k] {
        assert r1[k] == d1[q + k] && r2[k] == d2[q + k];
      }
    }
  }

  /** Decoding the opcode at the cursor reads nothing before it. */
  lemma {:induction false} ReadCommandSame(d1: seq<byte>, d2: seq<byte>, pos: nat)
    requires pos <= |d1| && SameFrom(d1, d2, pos)
    ensures ReadCommand(d1, pos) == ReadCommand(d2, pos)
  {
    if pos < |d1| {
      var k := FollowCount(d1[pos]);
      if pos + 1 + k <= |d1| {
        assert d1[pos + 1..pos + 1 + k] == d2[pos + 1..pos + 1 + k];
      }
    }
  }

  /** Neither does carrying out the command. */
  lemma {:induction false} EmitSame(d1: seq<byte>, d2: seq<byte>, p: nat, out: seq<byte>, c: Command)
    requires p <= |d1| && SameFrom(d1, d2, p) && (c.copy > 0 ==> c.offset >= 1)
    ensures Emit(d1, p, out, c) == Emit(d2, p, out, c)
  {
    ReadSame(d1, d2, p, p, c.plain);
  }

  /** One iteration reads nothing before its cursor. */
  lemma {:induction false} StepSame(d1: seq<byte>, d2: seq<byte>, pos: nat, out: seq<byte>)
    requires pos <= |d1| && SameFrom(d1, d2, pos)
    ensures Step(d1, pos, out) == Step(d2, pos, out)
  {
    ReadCommandSame(d1, d2, pos);
    var rc := ReadCommand(d1, pos);
    if rc.Ok? {
      var (c, p) := rc.value;
      assert SameFrom(d1, d2, p);
      EmitSame(d1, d2, p, out, c);
    }
  }

  /** Neither does the loop. */
  lemma {:induction false} RunSame(d1: seq<byte>, d2: seq<byte>, s: State, size: int)
    requires s.pos <= |d1| && SameFrom(d1, d2, s.pos)
    ensures Run(d1, s, size) == Run(d2, s, size)
    decreases if s.length > 0 then s.length else 0
  {
    if s.length > 0 && |s.out| < size {
      StepSame(d1, d2, s.pos, s.out);
      var e := Step(d1, s.pos, s.out);
      if e.Ok? {
        var s' := State(e.value.pos, s.length - e.value.used, e.value.out);
        RunSame(d1, d2, s', size);
        NextIteration(d1, s, s', size, e.value);
        NextIteration(d2, s, s', size, e.value);
      }
    }
  }

  /** Whatever the two magic bytes of the frame hold, the file decompresses to the same result. */
  lemma {:induction false} MagicIgnored(file: seq<byte>, position: nat, x: byte, y: byte)
    requires position + FrameHeaderSize <= |file|
    ensures DecompressedFile(file[position + 4 := x][position + 5 := y], position) == DecompressedFile(file, position)
  {
    var g := file[position + 4 := x][position + 5 := y];
    assert g[position..position + 4] == file[position..position + 4];
    assert g[position + 6] == file[position + 6] && g[position + 7] == file[position + 7] && g[position + 8] == file[position + 8];
    assert SameFrom(file, g, position + FrameHeaderSize);
    RunSame(file, g, State(position + FrameHeaderSize, FileHeader(file, position).value.compressedSize, []),
      FileHeader(file, position).value.size);
  }

  const EmptyFrame: seq<byte> := [0, 0, 0, 0, 0, 0, 0, 0, 0]

  /** An empty frame without the magic: the newer decompressor refuses it, this one returns nothing. */
  lemma {:induction false} MagicIgnoredExample()
    ensures Decompressed(EmptyFrame) == Err(AssertionFailed)
    ensures DecompressedFile(EmptyFrame, 0) == Ok([])
  {
    var data := EmptyFrame;
    assert data[4..6] == [0, 0] && data[0..4] == [0, 0, 0, 0];
    assert LittleEndian([0]) == 0 && LittleEndian([0, 0]) == 0 && LittleEndian([0, 0, 0]) == 0;
    assert LittleEndian(data[4..6]) == 0;
    assert LittleEndian(data[0..4]) == 0;
  }

  // ----- The budget -----

  /**
   * The loop is granted 9 more bytes of budget than the newer package
   * grants the same frame at position 0; so when this one succeeds on a
   * frame with the right magic, the newer one succeeds too and its output
   * is a prefix of this one's.
   */
  lemma {:induction false} LargerBudget(data: seq<byte>)
    requires ParseFrameHeader(data).Ok? && DecompressedFile(data, 0).Ok?
    ensures Decompressed(data).Ok?
    ensures Decompressed(data).value.1 <= DecompressedFile(data, 0).value
  {
    var h := ParseFrameHeader(data).value;
    assert FileHeader(data, 0).value == h;
    var s := State(FrameHeaderSize, h.compressedSize - FrameHeaderSize, []);
    assert s.(length := s.length + FrameHeaderSize) == State(FrameHeaderSize, h.compressedSize, []);
    RunBudgetMonotone(data, s, FrameHeaderSize, h.size);
  }
}

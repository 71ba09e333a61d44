/**
 * The QFS decompressor of simtools/qfs.py: a 9-byte frame header followed
 * by an LZ77-style opcode stream with five opcode classes, literal runs and
 * byte-by-byte (possibly overlapping) back-reference copies.
 *
 * The stream is the byte sequence `data` with an explicit cursor. Bytes are
 * integers 0..255, so the source's masks and shifts of a byte are written
 * as the equal arithmetic: `b & 0x03` is `b % 4`, `(b & 0x1C) >> 2` is
 * `b / 4 % 8`, `(b & 0x60) << 3` is `b / 32 % 4 * 256`, and so on.
 */
module Qfs {
  import opened Wrappers
  import opened Bytes

  const FrameMagic: nat := 0xFB10
  const FrameHeaderSize: nat := 9

  /** `FileHeader(compressed_size, magic, size)`. */
  datatype FrameHeader = FrameHeader(compressedSize: nat, magic: nat, size: nat)

  // ----- Bitwise operations on bytes -----

  /** Bitwise or of two naturals, one bit at a time. */
  function BitOr(x: nat, y: nat): (r: nat)
    decreases x + y
  {
    if x == 0 then y else if y == 0 then x
    else 2 * BitOr(x / 2, y / 2) + (if x % 2 == 1 || y % 2 == 1 then 1 else 0)
  }

  function Pow2(k: nat): (p: nat)
    ensures p >= 1
  {
    if k == 0 then 1 else 2 * Pow2(k - 1)
  }

  /** The or of two `k`-bit numbers is a `k`-bit number holding at least each operand. */
  lemma {:induction false} OrBounds(x: nat, y: nat, k: nat)
    requires x < Pow2(k) && y < Pow2(k)
    ensures x <= BitOr(x, y) < Pow2(k) && y <= BitOr(x, y)
    decreases x + y
  {
    if x != 0 && y != 0 {
      OrBounds(x / 2, y / 2, k - 1);
    }
  }

  // ----- The frame header -----

  /**
   * The uncompressed size as the source computes it,
   * `b6 << 16 | b7 << 8 | b8 << 8`: the last byte is shifted like the middle
   * one, so it is or-ed into bits 8..15 and the low byte is always zero.
   * Since `b7 << 8 | b8 << 8` is `(b7 | b8) << 8` and lies below bit 16, the
   * outer or is a sum.
   */
  function DeclaredSize(b6: byte, b7: byte, b8: byte): (n: nat)
    ensures n % 0x100 == 0 && n < 0x100_0000
    ensures b6 * 0x1_0000 + b7 * 0x100 <= n
  {
    assert Pow2(8) == 256;
    OrBounds(b7, b8, 8);
    b6 * 0x1_0000 + BitOr(b7, b8) * 0x100
  }

  /** The size the header evidently means: three bytes, most significant first. */
  function IntendedSize(b6: byte, b7: byte, b8: byte): (n: nat)
    ensures n < 0x100_0000
  {
    b6 * 0x1_0000 + b7 * 0x100 + b8
  }

  /** Byte 8 is lost: a header for 300 bytes claims 0x2D00. */
  lemma {:induction false} DeclaredSizeCounterexample()
    ensures IntendedSize(0, 1, 0x2C) == 300
    ensures DeclaredSize(0, 1, 0x2C) == 0x2D00
  {
  }

  /** Every size below 2^24 has exactly one big-endian encoding, and the intended reading recovers it. */
  lemma {:induction false} IntendedSizeRoundTrip(n: nat)
    requires n < 0x100_0000
    ensures IntendedSize(n / 0x1_0000, n / 0x100 % 0x100, n % 0x100) == n
    ensures forall b6: byte, b7: byte, b8: byte :: IntendedSize(b6, b7, b8) == n ==>
              b6 == n / 0x1_0000 && b7 == n / 0x100 % 0x100 && b8 == n % 0x100
  {
    SplitLow(n / 0x100, n % 0x100, 0x100);
    SplitLow(n / 0x1_0000, n / 0x100 % 0x100, 0x100);
    forall b6: byte, b7: byte, b8: byte | IntendedSize(b6, b7, b8) == n
      ensures b6 == n / 0x1_0000 && b7 == n / 0x100 % 0x100 && b8 == n % 0x100
    {
      SplitLow(b6 * 0x100 + b7, b8, 0x100);
      SplitLow(b6, b7, 0x100);
      SplitLow(b6, b7 * 0x100 + b8, 0x1_0000);
    }
  }

  /** Division with remainder by a power of two: `q * d + r` splits back into `q` and `r`. */
  lemma {:induction false} SplitLow(q: nat, r: nat, d: nat)
    requires d == 0x100 || d == 0x1_0000
    requires r < d
    ensures (q * d + r) / d == q && (q * d + r) % d == r
  {
    if d == 0x100 {
      assert (q * 0x100 + r) / 0x100 == q;
    } else {
      assert (q * 0x1_0000 + r) / 0x1_0000 == q;
    }
  }

  /**
   * `decompress`'s header parse: `unpack('<IH3B', data.read(9))`, then
   * `assert(magic == 0xfb10)`.
   */
  function ParseFrameHeader(data: seq<byte>): (r: Result<FrameHeader>)
    ensures r.Ok? <==> |data| >= FrameHeaderSize && LittleEndian(data[4..6]) == FrameMagic
    ensures |data| < FrameHeaderSize ==> r == Err(StructError)
    ensures r.Ok? ==> r.value.compressedSize == LittleEndian(data[0..4]) &&
                      r.value.size == DeclaredSize(data[6], data[7], data[8])
  {
    if |data| < FrameHeaderSize then Err(StructError)
    else
      var magic := LittleEndian(data[4..6]);
      if magic != FrameMagic then Err(AssertionFailed)
      else Ok(FrameHeader(LittleEndian(data[0..4]), magic, DeclaredSize(data[6], data[7], data[8])))
  }

  // ----- The opcode stream -----

  /** How many bytes follow an opcode before its literal run. */
  function FollowCount(opcode: byte): (k: nat)
    ensures k <= 3
  {
    if opcode < 0x80 then 1 else if opcode < 0xC0 then 2 else if opcode < 0xE0 then 3 else 0
  }

  /** What one opcode asks for: literal bytes, copied bytes and the copy's back-offset. */
  datatype Command = Command(plain: nat, copy: nat, offset: nat)

  /**
   * The bit fields of one opcode and its follow bytes, with the ranges each
   * of the five classes allows.
   */
  function DecodeCommand(opcode: byte, follow: seq<byte>): (c: Command)
    requires |follow| == FollowCount(opcode)
    ensures opcode < 0x80 ==>
      c.plain <= 3 && 3 <= c.copy <= 10 && 1 <= c.offset <= 1024
    ensures 0x80 <= opcode < 0xC0 ==>
      c.plain <= 3 && 4 <= c.copy <= 67 && 1 <= c.offset <= 16384
    ensures 0xC0 <= opcode < 0xE0 ==>
      c.plain <= 3 && 5 <= c.copy <= 1028 && 1 <= c.offset <= 131072
    ensures 0xE0 <= opcode < 0xFC ==>
      4 <= c.plain <= 112 && c.plain % 4 == 0 && c.copy == 0
    ensures 0xFC <= opcode ==> c.plain == opcode - 0xFC && c.copy == 0
    ensures c.copy > 0 ==> c.offset >= 1
  {
    var op: int := opcode;
    if op < 0x80 then
      var b1: int := follow[0];
      Command(op % 4, op / 4 % 8 + 3, op / 32 % 4 * 256 + b1 + 1)
    else if op < 0xC0 then
      var b1: int, b2: int := follow[0], follow[1];
      Command(b1 / 64, op % 64 + 4, b1 % 64 * 256 + b2 + 1)
    else if op < 0xE0 then
      var b1: int, b2: int, b3: int := follow[0], follow[1], follow[2];
      Command(op % 4, op / 4 % 4 * 256 + b3 + 5, op / 16 % 2 * 65536 + b1 * 256 + b2 + 1)
    else if op < 0xFC then
      Command(op % 32 * 4 + 4, 0, 0)
    else
      Command(op % 4, 0, 0)
  }

  /**
   * Appending `n` bytes one at a time, each read `offset` positions back in
   * the output as it is then, so that an offset smaller than `n` repeats
   * bytes copied earlier in the same run.
   */
  function CopyBack(out: seq<byte>, offset: nat, n: nat): (r: seq<byte>)
    requires 1 <= offset <= |out|
    ensures |r| == |out| + n && r[..|out|] == out
  {
    if n == 0 then out
    else
      var prev := CopyBack(out, offset, n - 1);
      prev + [prev[|out| + n - 1 - offset]]
  }

  /** A longer copy extends a shorter one. */
  lemma {:induction false} CopyBackGrows(out: seq<byte>, offset: nat, m: nat, n: nat)
    requires 1 <= offset <= |out| && m <= n
    ensures CopyBack(out, offset, m) <= CopyBack(out, offset, n)
    decreases n
  {
    if m < n {
      CopyBackGrows(out, offset, m, n - 1);
    }
  }

  /** Each copied byte equals the byte `offset` positions before it. */
  lemma {:induction false} CopyBackRepeats(out: seq<byte>, offset: nat, n: nat, j: nat)
    requires 1 <= offset <= |out| && |out| <= j < |out| + n
    ensures CopyBack(out, offset, n)[j] == CopyBack(out, offset, n)[j - offset]
  {
    var m := j - |out| + 1;
    CopyBackGrows(out, offset, m, n);
    CopyBackGrows(out, offset, m - 1, n);
  }

  /** Offset 1 repeats the last output byte `n` times. */
  lemma {:induction false} RunLengthCopy(out: seq<byte>, n: nat, j: nat)
    requires |out| >= 1 && |out| <= j < |out| + n
    ensures CopyBack(out, 1, n)[j] == out[|out| - 1]
    decreases j
  {
    CopyBackRepeats(out, 1, n, j);
    if j > |out| {
      RunLengthCopy(out, n, j - 1);
    }
  }

  /** Without overlap the byte-by-byte copy is a block copy. */
  lemma {:induction false} BlockCopy(out: seq<byte>, offset: nat, n: nat)
    requires 1 <= offset <= |out| && n <= offset
    ensures CopyBack(out, offset, n) == out + out[|out| - offset..|out| - offset + n]
  {
    var r := CopyBack(out, offset, n);
    var s := out + out[|out| - offset..|out| - offset + n];
    forall j | |out| <= j < |r| ensures r[j] == s[j] {
      CopyBackRepeats(out, offset, n, j);
    }
  }

  /**
   * The opcode at `pos` and its follow bytes, decoded, with the cursor after
   * them; `unpack` of a short read fails.
   */
  function ReadCommand(data: seq<byte>, pos: nat): (r: Result<(Command, nat)>)
    requires pos <= |data|
    ensures r.Ok? <==> pos < |data| && pos + 1 + FollowCount(data[pos]) <= |data|
    ensures r.Err? ==> r.error == StructError
    ensures r.Ok? ==> r.value.1 == pos + 1 + FollowCount(data[pos]) &&
                      r.value.0 == DecodeCommand(data[pos], data[pos + 1..r.value.1])
  {
    if pos >= |data| then Err(StructError)
    else
      var k := FollowCount(data[pos]);
      if pos + 1 + k > |data| then Err(StructError)
      else Ok((DecodeCommand(data[pos], data[pos + 1..pos + 1 + k]), pos + 1 + k))
  }

  /**
   * Carrying out one command at cursor `p`: the literal run (a short read at
   * the end of the stream appends what is there), then the back-reference
   * copy, which fails when it reaches before the start of the output.
   */
  function Emit(data: seq<byte>, p: nat, out: seq<byte>, c: Command): (r: Result<(nat, seq<byte>)>)
    requires p <= |data| && (c.copy > 0 ==> c.offset >= 1)
    ensures r.Ok? ==> p <= r.value.0 <= |data|
    ensures r.Ok? <==> c.copy == 0 || c.offset <= |out| + |Read(data, p, c.plain)|
    ensures r.Ok? ==> r.value.0 == p + |Read(data, p, c.plain)| &&
                      |r.value.1| == |out| + |Read(data, p, c.plain)| + c.copy
  {
    var lit := Read(data, p, c.plain);
    var out' := out + lit;
    if c.copy == 0 then Ok((p + |lit|, out'))
    else if c.offset > |out'| then Err(CopyOutOfRange)
    else Ok((p + |lit|, CopyBack(out', c.offset, c.copy)))
  }

  lemma {:induction false} EmitResult(data: seq<byte>, p: nat, out: seq<byte>, c: Command)
    requires p <= |data| && (c.copy > 0 ==> 1 <= c.offset <= |out| + |Read(data, p, c.plain)|)
    ensures var lit := Read(data, p, c.plain);
      Emit(data, p, out, c) ==
      Ok((p + |lit|, if c.copy > 0 then CopyBack(out + lit, c.offset, c.copy) else out + lit))
  {
  }

  /** What one loop iteration leaves: the new cursor, the budget it used and the new output. */
  datatype Effect = Effect(pos: nat, used: nat, out: seq<byte>)

  /**
   * One iteration of the loop. The budget it uses is one per opcode and
   * follow byte plus the declared literal count, whether or not the literal
   * run was cut short.
   */
  function Step(data: seq<byte>, pos: nat, out: seq<byte>): (r: Result<Effect>)
    requires pos <= |data|
    ensures r.Ok? ==> pos < r.value.pos <= |data| && r.value.used >= 1 && out <= r.value.out
    ensures pos == |data| ==> r == Err(StructError)
  {
    var (c, p) :- ReadCommand(data, pos);
    var (p', out') :- Emit(data, p, out, c);
    Ok(Effect(p', p - pos + c.plain, out'))
  }

  /** The loop state: stream cursor, remaining `length` budget, and `result`. */
  datatype State = State(pos: nat, length: int, out: seq<byte>)

  /**
   * `while length > 0 and len(result) < uncompressed_size`. The output only
   * grows, and a run that ends normally has used up its budget or reached
   * the declared size.
   */
  function Run(data: seq<byte>, s: State, size: int): (r: Result<State>)
    requires s.pos <= |data|
    ensures r.Ok? ==> r.value.pos <= |data| && s.out <= r.value.out
    ensures r.Ok? ==> r.value.length <= 0 || |r.value.out| >= size
    decreases if s.length > 0 then s.length else 0
  {
    if s.length > 0 && |s.out| < size then
      var e :- Step(data, s.pos, s.out);
      Run(data, State(e.pos, s.length - e.used, e.out), size)
    else Ok(s)
  }

  /** Run unfolds by one successful iteration. */
  lemma {:induction false} NextIteration(data: seq<byte>, s: State, s': State, size: int, e: Effect)
    requires s.pos <= |data| && s.length > 0 && |s.out| < size
    requires Step(data, s.pos, s.out) == Ok(e) && s' == State(e.pos, s.length - e.used, e.out)
    ensures Run(data, s, size) == Run(data, s', size)
  {
  }

  /** One iteration whose command and literal run are known. */
  lemma {:induction false} StepResult(data: seq<byte>, pos: nat, out: seq<byte>, c: Command, p: nat, lit: seq<byte>, out': seq<byte>)
    requires pos <= |data|
    requires ReadCommand(data, pos) == Ok((c, p)) && lit == Read(data, p, c.plain)
    requires c.copy > 0 ==> c.offset <= |out| + |lit| && out' == CopyBack(out + lit, c.offset, c.copy)
    requires c.copy == 0 ==> out' == out + lit
    ensures Step(data, pos, out) == Ok(Effect(p + |lit|, p - pos + c.plain, out'))
  {
    EmitResult(data, p, out, c);
  }

  function Output(r: Result<State>): Result<seq<byte>>
  {
    match r
    case Ok(s) => Ok(s.out)
    case Err(e) => Err(e)
  }

  /** The copy loop: `result.append(result[fromoffset + i])` for each `i` below `n`. */
  method AppendCopy(out: seq<byte>, offset: nat, n: nat) returns (r: seq<byte>)
    requires 1 <= offset <= |out|
    ensures r == CopyBack(out, offset, n)
  {
    r := out;
    var from := |out| - offset;
    for i := 0 to n
      invariant r == CopyBack(out, offset, i)
    {
      r := r + [r[from + i]];
    }
  }

  /** `_decompress(fileobj, length, uncompressed_size)` on the stream `data` at cursor `start`. */
  method DecompressStream(data: seq<byte>, start: nat, length: int, size: int) returns (r: Result<seq<byte>>)
    requires start <= |data|
    ensures r == Output(Run(data, State(start, length, []), size))
  {
    var pos: nat, len: int, result: seq<byte> := start, length, [];
    while len > 0 && |result| < size
      invariant pos <= |data|
      invariant Run(data, State(pos, len, result), size) == Run(data, State(start, length, []), size)
      decreases len
    {
      ghost var pos0, len0, result0 := pos, len, result;
      var cmd :- ReadCommand(data, pos);
      var (c, p) := cmd;
      pos, len := p, len - (p - pos);
      ghost var result1 := result;
      if c.plain > 0 {
        var bytes := Read(data, pos, c.plain);
        result := result + bytes;
        pos, len := pos + |bytes|, len - c.plain;
      }
      ghost var lit := Read(data, p, c.plain);
      assert result == result1 + lit;
      if c.copy > 0 {
        if c.offset > |result| {
          return Err(CopyOutOfRange);
        }
        result := AppendCopy(result, c.offset, c.copy);
        assert result == CopyBack(result1 + lit, c.offset, c.copy);
      } else {
        assert result == result1 + lit;
      }
      StepResult(data, pos0, result0, c, p, lit, result);
      NextIteration(data, State(pos0, len0, result0), State(pos, len, result), size, Effect(p + |lit|, p - pos0 + c.plain, result));
    }
    r := Ok(result);
  }

  /** What `decompress(data)` returns: the frame header and the decoded bytes. */
  function Decompressed(data: seq<byte>): (r: Result<(FrameHeader, seq<byte>)>)
    ensures r.Ok? ==> ParseFrameHeader(data).Ok? && r.value.0 == ParseFrameHeader(data).value
  {
    var h :- ParseFrameHeader(data);
    var out :- Output(Run(data, State(FrameHeaderSize, h.compressedSize - FrameHeaderSize, []), h.size));
    Ok((h, out))
  }

  /** `decompress(data)`: the header, then the loop with a budget of `compressed_size - 9`. */
  method Decompress(data: seq<byte>) returns (r: Result<(FrameHeader, seq<byte>)>)
    ensures r == Decompressed(data)
  {
    var h :- ParseFrameHeader(data);
    var out :- DecompressStream(data, FrameHeaderSize, h.compressedSize - FrameHeaderSize, h.size);
    r := Ok((h, out));
  }

  /** Decompression fails unless the frame's little-endian magic is 0xFB10. */
  lemma {:induction false} DecompressChecksMagic(data: seq<byte>)
    requires |data| >= FrameHeaderSize && LittleEndian(data[4..6]) != FrameMagic
    ensures Decompressed(data) == Err(AssertionFailed)
  {
  }

  /**
   * A successful decompression has either used up its budget or produced at
   * least the declared size, a multiple of 256.
   */
  lemma {:induction false} DecompressStops(data: seq<byte>)
    requires Decompressed(data).Ok?
    ensures var (h, out) := Decompressed(data).value;
      h.magic == FrameMagic && h.size % 0x100 == 0 &&
      (|out| >= h.size ||
       Run(data, State(FrameHeaderSize, h.compressedSize - FrameHeaderSize, []), h.size).value.length <= 0)
  {
  }

  /**
   * Granting the loop a larger budget runs the same iterations for longer:
   * if the larger run succeeds, so does the smaller one, and its output is a
   * prefix of the larger run's output.
   */
  lemma {:induction false} RunBudgetMonotone(data: seq<byte>, s: State, e: nat, size: int)
    requires s.pos <= |data|
    requires Run(data, s.(length := s.length + e), size).Ok?
    ensures Run(data, s, size).Ok?
    ensures Run(data, s, size).value.out <= Run(data, s.(length := s.length + e), size).value.out
    decreases if s.length + e > 0 then s.length + e else 0
  {
    if s.length > 0 && |s.out| < size {
      var t := Step(data, s.pos, s.out).value;
      RunBudgetMonotone(data, State(t.pos, s.length - t.used, t.out), e, size);
      assert State(t.pos, s.length - t.used, t.out).(length := s.length - t.used + e) ==
             State(t.pos, s.length + e - t.used, t.out);
    }
  }

  // ----- A worked stream -----

  const ExampleFrame: seq<byte> := [13, 0, 0, 0, 0x10, 0xFB, 0, 1, 0, 0xFD, 0x41, 0x0C, 0x00]
  const SevenAs: seq<byte> := [0x41, 0x41, 0x41, 0x41, 0x41, 0x41, 0x41]

  lemma {:induction false} ExampleHeader()
    ensures ParseFrameHeader(ExampleFrame) == Ok(FrameHeader(13, FrameMagic, 0x100))
  {
    var data := ExampleFrame;
    assert LittleEndian([0xFB]) == 0xFB;
    assert data[4..6] == [0x10, 0xFB];
    assert LittleEndian([0]) == 0 && LittleEndian([0, 0]) == 0 && LittleEndian([0, 0, 0]) == 0;
    assert data[0..4] == [13, 0, 0, 0];
    assert LittleEndian(data[4..6]) == FrameMagic;
    assert LittleEndian(data[0..4]) == 13;
    assert BitOr(1, 0) == 1;
    assert DeclaredSize(data[6], data[7], data[8]) == 0x100;
  }

  /** Opcode 0xFD: a literal run of one byte. */
  lemma {:induction false} ExampleLiteral()
    ensures Step(ExampleFrame, 9, []) == Ok(Effect(11, 2, [0x41]))
  {
    var data := ExampleFrame;
    assert data[10..11] == [0x41];
    assert DecodeCommand(0xFD, []) == Command(1, 0, 0);
    assert ReadCommand(data, 9) == Ok((Command(1, 0, 0), 10));
    assert Read(data, 10, 1) == [0x41];
    EmitResult(data, 10, [], Command(1, 0, 0));
    assert [] + [0x41] == [0x41];
  }

  /** Opcode 0x0C with follow byte 0x00: copy six bytes from offset 1. */
  lemma {:induction false} ExampleCopy()
    ensures Step(ExampleFrame, 11, [0x41]) == Ok(Effect(13, 2, SevenAs))
  {
    var data := ExampleFrame;
    assert DecodeCommand(0x0C, [0x00]) == Command(0, 6, 1);
    var seven := CopyBack([0x41], 1, 6);
    forall j | 1 <= j < 7 ensures seven[j] == 0x41 {
      RunLengthCopy([0x41], 6, j);
    }
    assert seven == SevenAs;
    assert data[12..13] == [0x00];
    assert ReadCommand(data, 11) == Ok((Command(0, 6, 1), 13));
    assert Read(data, 13, 0) == [];
    EmitResult(data, 13, [0x41], Command(0, 6, 1));
    assert [0x41] + [] == [0x41];
  }

  /**
   * A frame with one literal 'A' (opcode 0xFD) followed by a copy of six
   * bytes at offset 1 (opcode 0x0C, follow byte 0x00) yields seven 'A's.
   */
  lemma {:induction false} OverlapExample()
    ensures Decompressed(ExampleFrame) == Ok((FrameHeader(13, FrameMagic, 0x100), SevenAs))
  {
    ExampleHeader();
    ExampleLiteral();
    ExampleCopy();
    assert Run(ExampleFrame, State(13, 0, SevenAs), 0x100) == Ok(State(13, 0, SevenAs));
    assert Run(ExampleFrame, State(11, 2, [0x41]), 0x100) == Ok(State(13, 0, SevenAs));
    assert Run(ExampleFrame, State(9, 4, []), 0x100) == Ok(State(13, 0, SevenAs));
  }
}

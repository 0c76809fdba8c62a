/** The CRC-16 of the BR Code "63" data object: CRC-16/CCITT-FALSE of
    ISO/IEC 13239 (polynomial 0x1021, initial value 0xFFFF, most significant
    bit first, no reflection, no final XOR), first as the textbook fold over
    bytes on a 16-bit register, then as the JavaScript loop both `crc16`
    copies run on a 32-bit integer register, with the two renderings of the
    result as four upper-case hexadecimal digits. */
module Crc {
  import opened JsText

  const Poly: bv16 := 0x1021
  const Init: bv16 := 0xFFFF

  /** One step of the MSB-first shift register. */
  function Shift(reg: bv16): bv16
  {
    if reg & 0x8000 != 0 then (reg << 1) ^ Poly else reg << 1
  }

  function ShiftN(reg: bv16, n: nat): bv16
    decreases n
  {
    if n == 0 then reg else ShiftN(Shift(reg), n - 1)
  }

  /** Feeds one byte: XOR it into the high byte, then eight shifts. */
  function UpdateByte(reg: bv16, b: bv8): bv16
  {
    ShiftN(reg ^ ((b as bv16) << 8), 8)
  }

  /** CRC-16/CCITT-FALSE of a byte sequence, fed first byte first. */
  function CcittFalse(data: seq<bv8>): bv16
  {
    if data == [] then Init else UpdateByte(CcittFalse(data[..|data| - 1]), data[|data| - 1])
  }

  /** The fold consumes one more byte at the end. */
  lemma FoldSnoc(d: seq<bv8>, b: bv8)
    ensures CcittFalse(d + [b]) == UpdateByte(CcittFalse(d), b)
  {
    assert (d + [b])[..|d|] == d;
  }

  /** The register after each byte of the ASCII digits "123456789". */
  lemma CheckSteps()
    ensures UpdateByte(0xFFFF, 0x31) == 0xC782
    ensures UpdateByte(0xC782, 0x32) == 0x3DBA
    ensures UpdateByte(0x3DBA, 0x33) == 0x5BCE
    ensures UpdateByte(0x5BCE, 0x34) == 0x5349
    ensures UpdateByte(0x5349, 0x35) == 0x4560
    ensures UpdateByte(0x4560, 0x36) == 0x2EF4
    ensures UpdateByte(0x2EF4, 0x37) == 0x7718
    ensures UpdateByte(0x7718, 0x38) == 0xA12B
    ensures UpdateByte(0xA12B, 0x39) == 0x29B1
  {
  }

  /** The catalogue check value of CRC-16/CCITT-FALSE: the CRC of the
      ASCII digits "123456789" is 0x29B1. */
  lemma CheckValue()
    ensures CcittFalse([0x31, 0x32, 0x33, 0x34, 0x35, 0x36, 0x37, 0x38, 0x39]) == 0x29B1
  {
    CheckSteps();
    var d0: seq<bv8> := [];
    var d1 := d0 + [0x31];
    FoldSnoc(d0, 0x31);
    var d2 := d1 + [0x32];
    FoldSnoc(d1, 0x32);
    var d3 := d2 + [0x33];
    FoldSnoc(d2, 0x33);
    var d4 := d3 + [0x34];
    FoldSnoc(d3, 0x34);
    var d5 := d4 + [0x35];
    FoldSnoc(d4, 0x35);
    var d6 := d5 + [0x36];
    FoldSnoc(d5, 0x36);
    var d7 := d6 + [0x37];
    FoldSnoc(d6, 0x37);
    var d8 := d7 + [0x38];
    FoldSnoc(d7, 0x38);
    var d9 := d8 + [0x39];
    FoldSnoc(d8, 0x39);
    assert d9 == [0x31, 0x32, 0x33, 0x34, 0x35, 0x36, 0x37, 0x38, 0x39];
  }

  /** `str.charCodeAt(i)` for a character taken as one UTF-16 code unit. */
  function CharCode(c: char): bv32
  {
    (c as int) as bv32
  }

  /** The low byte of a character code, the only part the checksum sees. */
  function LowByte(c: char): bv8
  {
    (CharCode(c) & 0xFF) as bv8
  }

  function Bytes(s: string): (r: seq<bv8>)
    ensures |r| == |s|
    ensures forall i :: 0 <= i < |s| ==> r[i] == LowByte(s[i])
  {
    seq(|s|, i requires 0 <= i < |s| => LowByte(s[i]))
  }

  function Low16(x: bv32): bv16
  {
    (x & 0xFFFF) as bv16
  }

  /** One pass of the inner loop body, on the 32-bit register of the
      JavaScript code: shift, conditional XOR with 0x1021, mask to 16 bits. */
  function JsStep(crc: bv32): (r: bv32)
    ensures r <= 0xFFFF
  {
    (if crc & 0x8000 != 0 then (crc << 1) ^ 0x1021 else crc << 1) & 0xFFFF
  }

  /** One inner pass agrees with one textbook shift on the low 16 bits. */
  lemma StepAgrees(crc: bv32)
    ensures JsStep(crc) == Shift(Low16(crc)) as bv32
  {
    if crc & 0x8000 != 0 {
      StepTopSet(crc);
    } else {
      StepTopClear(crc);
      TopBitLow(crc);
      ShiftTopClear(Low16(crc));
      ShiftLow(crc);
    }
  }

  lemma StepTopSet(crc: bv32)
    requires crc & 0x8000 != 0
    ensures JsStep(crc) == Shift(Low16(crc)) as bv32
  {
  }

  lemma StepTopClear(crc: bv32)
    requires crc & 0x8000 == 0
    ensures JsStep(crc) == (crc << 1) & 0xFFFF
  {
  }

  lemma TopBitLow(crc: bv32)
    requires crc & 0x8000 == 0
    ensures Low16(crc) & 0x8000 == 0
  {
  }

  lemma ShiftTopClear(reg: bv16)
    requires reg & 0x8000 == 0
    ensures Shift(reg) == reg << 1
  {
  }

  lemma ShiftLow(crc: bv32)
    ensures (crc << 1) & 0xFFFF == (Low16(crc) << 1) as bv32
  {
  }

  /** `n` passes of the inner loop; from the first pass on the register
      stays below 2^16 ... */
  function JsShifts(crc: bv32, n: nat): (r: bv32)
    ensures n > 0 ==> r <= 0xFFFF
    decreases n
  {
    if n == 0 then crc else JsShifts(JsStep(crc), n - 1)
  }

  /** ... and its low 16 bits follow the textbook register. */
  lemma {:induction false} JsShiftsAgree(crc: bv32, n: nat)
    ensures Low16(JsShifts(crc, n)) == ShiftN(Low16(crc), n)
    decreases n
  {
    if n > 0 {
      StepLow(crc);
      JsShiftsAgree(JsStep(crc), n - 1);
    }
  }

  /** One inner pass, seen on the low 16 bits. */
  lemma StepLow(crc: bv32)
    ensures Low16(JsStep(crc)) == Shift(Low16(crc))
  {
    StepAgrees(crc);
    NarrowWiden(JsStep(crc), Shift(Low16(crc)));
  }

  /** Widening a 16-bit value and taking the low 16 bits gives it back. */
  lemma NarrowWiden(x: bv32, y: bv16)
    requires x == y as bv32
    ensures Low16(x) == y
  {
  }

  lemma LowOfSmall(x: bv32)
    requires x <= 0xFFFF
    ensures Low16(x) as bv32 == x
  {
  }

  /** XOR-ing the shifted character code into the register leaves, in its low
      16 bits, the register XOR-ed with the shifted low byte. */
  lemma XorAgrees(reg: bv16, code: bv32)
    ensures Low16((reg as bv32) ^ (code << 8)) == reg ^ ((((code & 0xFF) as bv8) as bv16) << 8)
  {
  }

  /** One pass of the outer loop: `crc ^= charCode << 8`, then eight inner
      passes. */
  function JsByte(crc: bv32, c: char): (r: bv32)
    ensures r <= 0xFFFF
  {
    JsShifts(crc ^ (CharCode(c) << 8), 8)
  }

  /** On a register below 2^16, an outer pass is the textbook byte update
      applied to the character's low byte. */
  lemma JsByteAgrees(crc: bv32, c: char)
    requires crc <= 0xFFFF
    ensures JsByte(crc, c) <= 0xFFFF
    ensures Low16(JsByte(crc, c)) == UpdateByte(Low16(crc), LowByte(c))
  {
    JsShiftsAgree(crc ^ (CharCode(c) << 8), 8);
    XorLow(crc, c);
  }

  lemma XorLow(crc: bv32, c: char)
    requires crc <= 0xFFFF
    ensures Low16(crc ^ (CharCode(c) << 8)) == Low16(crc) ^ ((LowByte(c) as bv16) << 8)
  {
    LowOfSmall(crc);
    XorAgrees(Low16(crc), CharCode(c));
  }

  /** The register after the outer loop has consumed all of `s`, starting
      from 0xFFFF; it is below 2^16 and equals the textbook CRC over the low
      bytes of the character codes. */
  function JsRegister(s: string): (crc: bv32)
    ensures crc <= 0xFFFF
    ensures Low16(crc) == CcittFalse(Bytes(s))
  {
    if s == [] then 0xFFFF
    else
      var prev := JsRegister(s[..|s| - 1]);
      JsByteAgrees(prev, s[|s| - 1]);
      assert Bytes(s)[..|s| - 1] == Bytes(s[..|s| - 1]);
      JsByte(prev, s[|s| - 1])
  }

  lemma WidenValue(y: bv16)
    ensures (y as bv32) as int == y as int
  {
  }

  /** As a number, the JavaScript register ends equal to the textbook CRC. */
  lemma RegisterValue(s: string)
    ensures JsRegister(s) as int == CcittFalse(Bytes(s)) as int
  {
    var crc := JsRegister(s);
    LowOfSmall(crc);
    WidenValue(Low16(crc));
  }

  /** A 16-bit value prints in at most four hexadecimal digits. */
  lemma HexLength(n: nat)
    requires n <= 0xFFFF
    ensures |ToBase(n, 16)| <= 4
  {
    assert Pow(16, 4) == 16 * Pow(16, 3) == 16 * 16 * Pow(16, 2) == 16 * 16 * 16 * Pow(16, 1);
    ToBaseLength(n, 16, 4);
  }

  predicate AllLowerHex(s: string)
  {
    forall i :: 0 <= i < |s| ==> IsLowerHexDigit(s[i])
  }

  lemma PadLowerHex(h: string)
    requires AllLowerHex(h)
    ensures AllLowerHex(PadStart(h, 4, '0'))
  {
    var p := PadStart(h, 4, '0');
    forall i | 0 <= i < |p|
      ensures IsLowerHexDigit(p[i])
    {
      if i >= |p| - |h| {
        assert p[i] == h[i - (|p| - |h|)];
      }
    }
  }

  lemma UpperOfLowerHex(p: string)
    requires AllLowerHex(p)
    ensures forall i :: 0 <= i < |p| ==> IsUpperHexDigit(ToUpper(p)[i])
  {
  }

  /** Zero-padding to four and upper-casing turn the `toString(16)` of a
      16-bit value into four upper-case hex digits. */
  lemma HexRendering(n: nat)
    requires n <= 0xFFFF
    ensures |ToUpper(PadStart(ToBase(n, 16), 4, '0'))| == 4
    ensures forall i :: 0 <= i < 4 ==> IsUpperHexDigit(ToUpper(PadStart(ToBase(n, 16), 4, '0'))[i])
  {
    HexLength(n);
    PadLowerHex(ToBase(n, 16));
    UpperOfLowerHex(PadStart(ToBase(n, 16), 4, '0'));
  }

  /** ... and those digits still denote the value. */
  lemma HexRenderingValue(n: nat)
    requires n <= 0xFFFF
    ensures Value(ToUpper(PadStart(ToBase(n, 16), 4, '0')), 16) == n
  {
    ValueToBase(n, 16);
    PadStartValue(ToBase(n, 16), 4, 16);
    ValueToUpper(PadStart(ToBase(n, 16), 4, '0'), 16);
  }

}

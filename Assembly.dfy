/** Measurement assembly: how the driver turns raw register bytes into signed
    16-bit readings, and the raw bit patch it applies to the sensitivity field.
    Bytes are `bv8`; the intermediate `u16` and every signed result are `int`s
    restricted to the range of the source's integer type. */
module Assembly {

  /** The range of Rust's `i16`. */
  type I16 = v: int | -0x8000 <= v < 0x8000

  /** The range of Rust's `u16`. */
  type U16 = w: int | 0 <= w < 0x10000

  /** A full-scale sensitivity code as `Sensitivity::into_bits` yields it: two bits. */
  type SensitivityCode = c: bv8 | c < 4

  /** `I16x3`: one reading of the three axes. */
  datatype I16x3 = I16x3(x: I16, y: I16, z: I16)

  /** A byte read as a two's-complement `i8`. */
  function SignedByte(b: bv8): (v: int)
    ensures -0x80 <= v < 0x80
    ensures v < 0 <==> b & 0x80 != 0
    ensures v % 0x100 == b as int
  {
    if b < 0x80 then b as int else b as int - 0x100
  }

  /** Reference definition of `i16::from_le_bytes([lo, hi])`: the high byte
      carries the sign and weighs 256, the low byte is unsigned. */
  function FromLeBytes(lo: bv8, hi: bv8): I16 {
    SignedByte(hi) * 0x100 + lo as int
  }

  /** `u16(lo) + (u16(hi) << 8)`: the driver's 16-bit sum. The shift is a
      `u16` shift, which drops the bits pushed past bit 15; the addition is a
      checked `u16` addition, and the contract shows it never overflows. */
  function Combine(lo: bv8, hi: bv8): (w: U16)
    ensures w == lo as int + 0x100 * hi as int
  {
    var shifted := Shl8(hi as int);
    assert shifted == 0x100 * hi as int by {
      assert 0x100 * hi as int < 0x10000;
    }
    lo as int + shifted
  }

  /** `w << 8` on a `u16`. */
  function Shl8(w: U16): U16 {
    (w * 0x100) % 0x10000
  }

  /** `w as i16`: the two's-complement reinterpretation of a 16-bit word. */
  function ToI16(w: U16): (v: I16)
    ensures v % 0x10000 == w
    ensures v < 0 <==> w >= 0x8000
  {
    if w < 0x8000 then w else w - 0x10000
  }

  /** `v as u16`: the inverse reinterpretation. */
  function FromI16(v: I16): (w: U16)
    ensures ToI16(w) == v
  {
    if v >= 0 then v else v + 0x10000
  }

  /** The reinterpretation loses nothing in the other direction either. */
  lemma FromI16ToI16(w: U16)
    ensures FromI16(ToI16(w)) == w
  {
  }

  /** The driver's per-axis expression `(u16(lo) + (u16(hi) << 8)) as i16`
      is exactly `i16::from_le_bytes([lo, hi])`. */
  lemma CombineIsFromLeBytes(lo: bv8, hi: bv8)
    ensures ToI16(Combine(lo, hi)) == FromLeBytes(lo, hi)
  {
  }

  /** The accelerometer burst holds X_L, X_H, Y_L, Y_H, Z_L, Z_H: each axis is
      little-endian and the axes come in X, Y, Z order. */
  function AccelTriple(buffer: seq<bv8>): (r: I16x3)
    requires |buffer| == 6
    ensures r.x == FromLeBytes(buffer[0], buffer[1])
    ensures r.y == FromLeBytes(buffer[2], buffer[3])
    ensures r.z == FromLeBytes(buffer[4], buffer[5])
  {
    CombineIsFromLeBytes(buffer[0], buffer[1]);
    CombineIsFromLeBytes(buffer[2], buffer[3]);
    CombineIsFromLeBytes(buffer[4], buffer[5]);
    I16x3(
      ToI16(Combine(buffer[0], buffer[1])),
      ToI16(Combine(buffer[2], buffer[3])),
      ToI16(Combine(buffer[4], buffer[5])))
  }

  /** The magnetometer burst holds X_H, X_L, Z_H, Z_L, Y_H, Y_L: each axis is
      big-endian and the wire order X, Z, Y is remapped to X, Y, Z. */
  function MagTriple(buffer: seq<bv8>): (r: I16x3)
    requires |buffer| == 6
    ensures r.x == FromLeBytes(buffer[1], buffer[0])
    ensures r.y == FromLeBytes(buffer[5], buffer[4])
    ensures r.z == FromLeBytes(buffer[3], buffer[2])
  {
    CombineIsFromLeBytes(buffer[1], buffer[0]);
    CombineIsFromLeBytes(buffer[5], buffer[4]);
    CombineIsFromLeBytes(buffer[3], buffer[2]);
    I16x3(
      ToI16(Combine(buffer[1], buffer[0])),
      ToI16(Combine(buffer[5], buffer[4])),
      ToI16(Combine(buffer[3], buffer[2])))
  }

  /** `((u16(lo) + (u16(hi) << 8)) as i16) >> 4`. Rust's `>>` on `i16` is an
      arithmetic shift, that is floor division by 16, which is what Dafny's
      Euclidean `/` computes for a positive divisor. The result is the 12-bit
      two's-complement reading: the signed high byte weighs 16 and the upper
      nibble of the low byte supplies the four low bits. */
  function TempValue(lo: bv8, hi: bv8): (t: I16)
    ensures -0x800 <= t < 0x800
    ensures t < 0 <==> hi & 0x80 != 0
    ensures t == SignedByte(hi) * 16 + lo as int / 16
  {
    CombineIsFromLeBytes(lo, hi);
    ToI16(Combine(lo, hi)) / 16
  }

  /** Worked readings: after the shift each unit of the high byte weighs 16,
      so a high byte of 0x19 over a zero low byte reads 0x190 = 400; an
      all-ones high byte keeps its sign through the shift. */
  lemma TempExamples()
    ensures TempValue(0x00, 0x19) == 400
    ensures TempValue(0x00, 0xFF) == -16
    ensures TempValue(0xF0, 0xFF) == -1
  {
  }

  /** The raw patch `r & !(0b11 << 4) | (code << 4)` applied to CTRL_REG4_A:
      bits 4 and 5 take the code, every other bit keeps its value. */
  function SensitivityPatch(r: bv8, code: SensitivityCode): (p: bv8)
    ensures p & 0xCF == r & 0xCF
    ensures (p >> 4) & 0x03 == code
  {
    (r & !(0x03 << 4)) | (code << 4)
  }

  /** Writing back the code a register already holds changes nothing. */
  lemma SensitivityPatchOfOwnCode(r: bv8)
    ensures SensitivityPatch(r, (r >> 4) & 0x03) == r
  {
  }

  /** A second patch overrides the first: only the last code written survives. */
  lemma SensitivityPatchTwice(r: bv8, c1: SensitivityCode, c2: SensitivityCode)
    ensures SensitivityPatch(SensitivityPatch(r, c1), c2) == SensitivityPatch(r, c2)
  {
  }
}

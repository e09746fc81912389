/** Bytes, words and the numbers they spell. */
module ByteOrder {
  import opened Prelude

  /** The eight bits of a byte. */
  function Bits(b: byte): (w: bv8)
    ensures w as int == b as int
  {
    assert b as int % 0x100 == b as int;
    b as bv8
  }

  /** The shift-and-or expression of a little-endian read, on 32-bit words. */
  function ShiftOr32(b0: bv8, b1: bv8, b2: bv8, b3: bv8): bv32 {
    (b0 as bv32) | ((b1 as bv32) << 8) | ((b2 as bv32) << 16) | ((b3 as bv32) << 24)
  }

  /** The shift-and-or expression of a big-endian two-byte read. */
  function ShiftOr16(high: bv8, low: bv8): bv16 {
    ((high as bv16) << 8) | (low as bv16)
  }

  lemma HalfwordSum(high: bv8, low: bv8)
    ensures (((high as bv16) << 8) | (low as bv16)) as int == low as int + 256 * (high as int)
  {
  }

  lemma WordSum(high: bv16, low: bv16)
    ensures (((high as bv32) << 16) | (low as bv32)) as int == low as int + 65536 * (high as int)
  {
  }

  lemma Regroup(b0: bv8, b1: bv8, b2: bv8, b3: bv8)
    ensures ShiftOr32(b0, b1, b2, b3) == ((ShiftOr16(b3, b2) as bv32) << 16) | (ShiftOr16(b1, b0) as bv32)
  {
  }

  /** The bit expression is the base-256 sum: it neither wraps nor goes negative. */
  lemma ShiftOr32Sum(b0: bv8, b1: bv8, b2: bv8, b3: bv8)
    ensures ShiftOr32(b0, b1, b2, b3) as int
         == b0 as int + 256 * (b1 as int) + 65536 * (b2 as int) + 16777216 * (b3 as int)
  {
    var low, high := ShiftOr16(b1, b0), ShiftOr16(b3, b2);
    assert low as int == b0 as int + 256 * (b1 as int) by { HalfwordSum(b1, b0); }
    assert high as int == b2 as int + 256 * (b3 as int) by { HalfwordSum(b3, b2); }
    assert ShiftOr32(b0, b1, b2, b3) as int == low as int + 65536 * (high as int) by {
      Regroup(b0, b1, b2, b3);
      WordSum(high, low);
    }
  }

  /** `(a | b << 8 | c << 16 | d << 24) >>> 0` of the source, on any four bytes. */
  function ReadUint32LE(s: Bytes): (n: nat)
    requires |s| == 4
    ensures n == LittleEndian(s) < 0x1_0000_0000
  {
    var b0, b1, b2, b3 := Bits(s[0]), Bits(s[1]), Bits(s[2]), Bits(s[3]);
    ShiftOr32Sum(b0, b1, b2, b3);
    LittleEndianFour(s);
    ShiftOr32(b0, b1, b2, b3) as int
  }

  /** `a << 8 | b` of the source, on any two bytes. */
  function ReadUint16BE(high: byte, low: byte): (n: nat)
    ensures n == 256 * (high as int) + low as int < 0x1_0000
  {
    HalfwordSum(Bits(high), Bits(low));
    ShiftOr16(Bits(high), Bits(low)) as int
  }

  /** Base-256 value of a little-endian byte string. */
  function LittleEndian(s: Bytes): nat {
    if s == [] then 0 else s[0] as int + 256 * LittleEndian(s[1..])
  }

  lemma LittleEndianFour(s: Bytes)
    requires |s| == 4
    ensures LittleEndian(s) == s[0] as int + 256 * (s[1] as int) + 65536 * (s[2] as int) + 16777216 * (s[3] as int)
  {
    var a, b, c := s[1..], s[2..], s[3..];
    assert a[1..] == b && b[1..] == c && c[1..] == [];
    assert LittleEndian(c) == s[3] as int;
    assert LittleEndian(b) == s[2] as int + 256 * (s[3] as int);
    assert LittleEndian(a) == s[1] as int + 256 * (s[2] as int) + 65536 * (s[3] as int);
  }

  /** `n` as `width` little-endian bytes; what does not fit is dropped. */
  function ToLittleEndian(n: nat, width: nat): (s: Bytes)
    ensures |s| == width
  {
    if width == 0 then [] else [(n % 256) as byte] + ToLittleEndian(n / 256, width - 1)
  }

  function Power256(width: nat): (p: nat)
    ensures p > 0
  {
    if width == 0 then 1 else 256 * Power256(width - 1)
  }

  lemma LowDigit(x: nat, more: nat)
    requires x < 256
    ensures (x + 256 * more) % 256 == x && (x + 256 * more) / 256 == more
  {
  }

  /** Writing then reading gives back every number that fits. */
  lemma {:induction false} LittleEndianInverse(n: nat, width: nat)
    requires n < Power256(width)
    ensures LittleEndian(ToLittleEndian(n, width)) == n
  {
    if width > 0 {
      LittleEndianInverse(n / 256, width - 1);
      var s := ToLittleEndian(n, width);
      assert s[1..] == ToLittleEndian(n / 256, width - 1);
    }
  }

  lemma PrependDigit(low: byte, more: nat, width: nat)
    ensures ToLittleEndian(low as int + 256 * more, width + 1) == [low] + ToLittleEndian(more, width)
  {
    LowDigit(low as int, more);
  }

  /** Reading then writing gives the bytes back. */
  lemma {:induction false} LittleEndianInverseBytes(s: Bytes)
    ensures LittleEndian(s) < Power256(|s|)
    ensures ToLittleEndian(LittleEndian(s), |s|) == s
  {
    if s != [] {
      LittleEndianInverseBytes(s[1..]);
      PrependDigit(s[0], LittleEndian(s[1..]), |s| - 1);
      assert s == [s[0]] + s[1..];
    }
  }
}

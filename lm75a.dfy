/**
 * The LM75A temperature sensor as the example program drives it over I2C:
 * the register-pointer frames it writes and the expression that turns the
 * two bytes of the temperature register into a count of half-degrees.
 *
 * The device file, ioctl, read and write calls are not modelled; only the
 * bytes that go out and the arithmetic done on the bytes that come back.
 */
module Lm75a {

  datatype Option<T> = None | Some(value: T)

  /** An unsigned 8-bit value (uint8_t), as held in bufRead and bufWrite. */
  type Byte = x: int | 0 <= x < 256

  // ---------------------------------------------------------------------
  // C integer operators on non-negative ints
  // ---------------------------------------------------------------------

  function Pow2(k: nat): (p: nat)
    ensures p > 0
  {
    if k == 0 then 1 else 2 * Pow2(k - 1)
  }

  /** `x << k` on a non-negative int whose result does not overflow; `>> k` undoes it. */
  function Shl(x: nat, k: nat): (r: nat)
    ensures Shr(r, k) == x
  {
    ShrOfShl(x, k);
    x * Pow2(k)
  }

  /** `x >> k` on a non-negative int: the floor of x divided by 2^k. */
  function Shr(x: nat, k: nat): (r: nat)
    ensures r * Pow2(k) <= x < (r + 1) * Pow2(k)
  {
    if k == 0 then x
    else
      var q := Shr(x / 2, k - 1);
      HalveStep(x, q, Pow2(k - 1));
      q
  }

  /** If q is the floor of (x / 2) / p, it is the floor of x / (2 * p). */
  lemma HalveStep(x: nat, q: nat, p: nat)
    requires q * p <= x / 2 < (q + 1) * p
    ensures q * (2 * p) <= x < (q + 1) * (2 * p)
  {
    assert q * (2 * p) == 2 * (q * p);
    assert (q + 1) * (2 * p) == 2 * ((q + 1) * p);
  }

  lemma {:induction false} ShrOfShl(x: nat, k: nat)
    ensures Shr(x * Pow2(k), k) == x
    decreases k
  {
    if k > 0 {
      var p := Pow2(k - 1);
      assert x * Pow2(k) == 2 * (x * p);
      ShrOfShl(x, k - 1);
    }
  }

  /**
   * `a | b` on non-negative ints, bit by bit from the least significant one.
   * The result lies between the larger operand and the sum.
   */
  function BitOr(a: nat, b: nat): (r: nat)
    ensures a <= r && b <= r && r <= a + b
    decreases a + b
  {
    if a == 0 && b == 0 then 0
    else 2 * BitOr(a / 2, b / 2) + (if a % 2 == 1 || b % 2 == 1 then 1 else 0)
  }

  /** Bit `i` of a non-negative int. */
  function Bit(x: nat, i: nat): bool
  {
    if i == 0 then x % 2 == 1 else Bit(x / 2, i - 1)
  }

  /** `|` sets exactly the bits set in either operand. */
  lemma {:induction false} BitOrBits(a: nat, b: nat, i: nat)
    ensures Bit(BitOr(a, b), i) == (Bit(a, i) || Bit(b, i))
    decreases i
  {
    var r := BitOr(a, b);
    if a == 0 && b == 0 {
      assert r == 0;
    } else {
      var low := if a % 2 == 1 || b % 2 == 1 then 1 else 0;
      assert r == 2 * BitOr(a / 2, b / 2) + low;
      if i == 0 {
      } else {
        BitOrBits(a / 2, b / 2, i - 1);
        assert r / 2 == BitOr(a / 2, b / 2);
      }
    }
  }

  /** OR-ing a value into the zero bits below a left shift is addition. */
  lemma {:induction false} BitOrBelowShift(x: nat, b: nat, k: nat)
    requires b < Pow2(k)
    ensures BitOr(Shl(x, k), b) == Shl(x, k) + b
    decreases k
  {
    if k == 0 {
      assert b == 0;
      BitOrZero(x);
    } else {
      var p := Pow2(k - 1);
      var a := Shl(x, k);
      assert a == 2 * (x * p) by {
        assert Pow2(k) == 2 * p;
        assert x * (2 * p) == 2 * (x * p);
      }
      if a == 0 && b == 0 {
      } else {
        assert a % 2 == 0 && a / 2 == Shl(x, k - 1);
        BitOrBelowShift(x, b / 2, k - 1);
        assert BitOr(a, b) == 2 * BitOr(a / 2, b / 2) + b % 2;
      }
    }
  }

  lemma {:induction false} BitOrZero(x: nat)
    ensures BitOr(x, 0) == x
    decreases x
  {
    if x != 0 {
      BitOrZero(x / 2);
    }
  }

  // ---------------------------------------------------------------------
  // Registers and the frames written to select them
  // ---------------------------------------------------------------------

  datatype Register = Temperature | Configuration | Id

  /**
   * The value written to the pointer register to select `r`. Only the
   * register-select bits P0-P2 may be set; P3-P7 must be zero.
   */
  function PointerByte(r: Register): (p: Byte)
    ensures p < 8
  {
    match r
    case Temperature => 0x00
    case Configuration => 0x01
    case Id => 0x07
  }

  function RegisterAt(p: Byte): (r: Option<Register>)
    ensures r.Some? ==> PointerByte(r.value) == p
    ensures r.None? ==> forall reg: Register :: PointerByte(reg) != p
  {
    if p == 0x00 then Some(Temperature)
    else if p == 0x01 then Some(Configuration)
    else if p == 0x07 then Some(Id)
    else None
  }

  /** One write on the bus: a bare pointer (before a read) or a pointer and a value. */
  datatype Frame = SelectRegister(reg: Register) | WriteRegister(reg: Register, value: Byte)

  function Encode(f: Frame): (bytes: seq<Byte>)
    ensures |bytes| == (if f.SelectRegister? then 1 else 2)
    ensures bytes[0] == PointerByte(f.reg)
    ensures f.WriteRegister? ==> bytes[1] == f.value
  {
    match f
    case SelectRegister(r) => [PointerByte(r)]
    case WriteRegister(r, v) => [PointerByte(r), v]
  }

  /** Every byte string that decodes to a frame is exactly that frame's encoding. */
  function Decode(bytes: seq<Byte>): (r: Option<Frame>)
    ensures r.Some? ==> Encode(r.value) == bytes
  {
    if |bytes| == 0 || |bytes| > 2 then None
    else match RegisterAt(bytes[0])
      case None => None
      case Some(r) => if |bytes| == 1 then Some(SelectRegister(r)) else Some(WriteRegister(r, bytes[1]))
  }

  lemma DecodeEncode(f: Frame)
    ensures Decode(Encode(f)) == Some(f)
  {
    var bytes := Encode(f);
    assert RegisterAt(bytes[0]) == Some(f.reg) by {
      match f.reg
      case Temperature =>
      case Configuration =>
      case Id =>
    }
  }

  /** The configuration written at start-up: pointer 0x01, then 0x00. */
  const ConfigWrite: Frame := WriteRegister(Configuration, 0x00)
  /** The pointer written before reading the ID register. */
  const IdSelect: Frame := SelectRegister(Id)
  /** The pointer written before reading the temperature register. */
  const TemperatureSelect: Frame := SelectRegister(Temperature)

  lemma ProgramFrames()
    ensures Encode(ConfigWrite) == [0x01, 0x00]
    ensures Encode(IdSelect) == [0x07]
    ensures Encode(TemperatureSelect) == [0x00]
    ensures DecodeConfig(ConfigWrite.value) == PowerUpDefault
  {
  }

  // ---------------------------------------------------------------------
  // Configuration register
  // ---------------------------------------------------------------------

  /** D0 shutdown, D1 interrupt (vs comparator) mode, D2 O.S. active high, D3-D4 fault queue. */
  datatype Config = Config(shutdown: bool, interruptMode: bool, osActiveHigh: bool, faultQueue: nat)

  const PowerUpDefault := Config(false, false, false, 0)

  function DecodeConfig(b: Byte): (c: Config)
    ensures c.faultQueue < 4
  {
    Config(b % 2 == 1, (b / 2) % 2 == 1, (b / 4) % 2 == 1, (b / 8) % 4)
  }

  function EncodeConfig(c: Config): (b: Byte)
    requires c.faultQueue < 4
    ensures b < 32
  {
    (if c.shutdown then 1 else 0) + (if c.interruptMode then 2 else 0)
      + (if c.osActiveHigh then 4 else 0) + 8 * c.faultQueue
  }

  lemma ConfigRoundTrip(c: Config, b: Byte)
    requires c.faultQueue < 4
    ensures DecodeConfig(EncodeConfig(c)) == c
    ensures b < 32 ==> EncodeConfig(DecodeConfig(b)) == b
  {
  }

  /** 0x00 is the only value of the defined bits D0-D4 that gives the power-up default. */
  lemma ConfigZeroIsDefault(b: Byte)
    requires b < 32
    ensures DecodeConfig(b) == PowerUpDefault <==> b == 0
  {
    ConfigRoundTrip(PowerUpDefault, b);
  }

  // ---------------------------------------------------------------------
  // Temperature register
  // ---------------------------------------------------------------------

  /**
   * `(int)bufRead[0] << 8 | (int)bufRead[1]`: the two bytes side by side as
   * one 16-bit word, which never overflows an int.
   */
  function RawWord(msb: Byte, lsb: Byte): (w: nat)
    ensures w == 256 * msb + lsb
    ensures w < 0x1_0000
  {
    assert Pow2(8) == 256;
    BitOrBelowShift(msb, lsb, 8);
    BitOr(Shl(msb, 8), lsb)
  }

  /**
   * The 9-bit count of half-degrees, `(...) >> 7`: the most significant byte
   * doubled plus the top bit of the least significant byte. No sign extension.
   */
  function TempCount(msb: Byte, lsb: Byte): (c: nat)
    ensures c == 2 * msb + lsb / 128
    ensures c <= 511
  {
    ShrSeven(RawWord(msb, lsb));
    Shr(RawWord(msb, lsb), 7)
  }

  /** D0-D6 of the register are undefined: only the top bit of the second byte matters. */
  lemma UndefinedBitsIgnored(msb: Byte, lsb: Byte, lsb': Byte)
    requires Bit(lsb, 7) == Bit(lsb', 7)
    ensures TempCount(msb, lsb) == TempCount(msb, lsb')
  {
    TopBit(lsb);
    TopBit(lsb');
    assert lsb / 128 == lsb' / 128;
  }

  lemma ShrSeven(x: nat)
    ensures Shr(x, 7) == x / 128
  {
    var x1, x2, x3 := x / 2, x / 4, x / 8;
    assert x1 / 2 == x2 && x2 / 2 == x3;
    var x4, x5, x6, x7 := x / 16, x / 32, x / 64, x / 128;
    assert x3 / 2 == x4 && x4 / 2 == x5 && x5 / 2 == x6 && x6 / 2 == x7;
    calc {
      Shr(x, 7);
      Shr(x1, 6);
      Shr(x2, 5);
      Shr(x3, 4);
      Shr(x4, 3);
      Shr(x5, 2);
      Shr(x6, 1);
      Shr(x7, 0);
    }
  }

  lemma TopBit(x: Byte)
    ensures Bit(x, 7) == (x >= 128)
  {
    var x1, x2, x3 := x / 2, x / 4, x / 8;
    assert x1 / 2 == x2 && x2 / 2 == x3;
    var x4, x5, x6, x7 := x / 16, x / 32, x / 64, x / 128;
    assert x3 / 2 == x4 && x4 / 2 == x5 && x5 / 2 == x6 && x6 / 2 == x7;
    calc {
      Bit(x, 7);
      Bit(x1, 6);
      Bit(x2, 5);
      Bit(x3, 4);
      Bit(x4, 3);
      Bit(x5, 2);
      Bit(x6, 1);
      Bit(x7, 0);
    }
  }

  /** The count grows with the 16-bit register word. */
  lemma TempCountMonotonic(msb: Byte, lsb: Byte, msb': Byte, lsb': Byte)
    requires 256 * msb + lsb <= 256 * msb' + lsb'
    ensures TempCount(msb, lsb) <= TempCount(msb', lsb')
  {
  }

  /** The register bytes a sensor holds for a count of half-degrees (undefined bits zero). */
  function EncodeCount(c: nat): (bytes: (Byte, Byte))
    requires c <= 511
    ensures bytes.1 == 0 || bytes.1 == 0x80
  {
    (c / 2, (c % 2) * 128)
  }

  lemma CountRoundTrip(c: nat, msb: Byte, lsb: Byte)
    requires c <= 511
    ensures TempCount(EncodeCount(c).0, EncodeCount(c).1) == c
    ensures TempCount(msb, lsb) == c <==> msb == EncodeCount(c).0 && lsb / 128 == c % 2
  {
  }

  /** The register read as the nine-bit two's complement number the datasheet describes. */
  function SignedCount(msb: Byte, lsb: Byte): (c: int)
    ensures -256 <= c <= 255
  {
    var high := if msb < 128 then msb else msb - 256;
    2 * high + lsb / 128
  }

  /**
   * The program does not sign-extend: a negative reading (top bit set) decodes
   * as the two's complement value plus 512, so at least 256 half-degrees.
   */
  lemma NoSignExtension(msb: Byte, lsb: Byte)
    ensures msb < 0x80 ==> TempCount(msb, lsb) == SignedCount(msb, lsb)
    ensures msb >= 0x80 ==> TempCount(msb, lsb) == SignedCount(msb, lsb) + 512
    ensures msb >= 0x80 <==> TempCount(msb, lsb) >= 256
  {
  }

  /** -0.5 degrees (0xFF80) decodes as 511 half-degrees, that is 255.5 degrees. */
  lemma MinusHalfDegreeReadsHot()
    ensures SignedCount(0xFF, 0x80) == -1
    ensures TempCount(0xFF, 0x80) == 511
  {
  }
}

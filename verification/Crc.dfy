/** The CRC hash of src/common/ght_hash_function.c: the table-driven loop against the shift register
    that takes one bit at a time.

    Generator polynomial of section 8.1.1.6.2 of ITU-T V.42, most significant bit first.
 */
module Crc {

  type Byte = bv8

  const POLYNOMIAL: bv32 := 0x04c11db7
  const PRELOAD: bv32 := 0xffffffff

  // ---- the shift register ----

  /** One step of the register without input. */
  function Shift(crc: bv32): bv32
  {
    if crc & 0x80000000 != 0 then (crc << 1) ^ POLYNOMIAL else crc << 1
  }

  /** One bit comes in: it is added to the bit that leaves. */
  function ShiftIn(crc: bv32, bit: bool): bv32
  {
    Shift(if bit then crc ^ 0x80000000 else crc)
  }

  function Register(crc: bv32, bits: seq<bool>): bv32
    decreases |bits|
  {
    if bits == [] then crc else Register(ShiftIn(crc, bits[0]), bits[1..])
  }

  /** The bits of a byte, the most significant first. */
  function BitsOf(x: Byte): (b: seq<bool>)
    ensures |b| == 8
  {
    [x & 0x80 != 0, x & 0x40 != 0, x & 0x20 != 0, x & 0x10 != 0, x & 8 != 0, x & 4 != 0, x & 2 != 0, x & 1 != 0]
  }

  function Bits(key: seq<Byte>): (b: seq<bool>)
    ensures |b| == 8 * |key|
  {
    if key == [] then [] else BitsOf(key[0]) + Bits(key[1..])
  }

  /** The CRC: preload, feed all the bits, complement. */
  function BitSerial(key: seq<Byte>): bv32
  {
    !Register(PRELOAD, Bits(key))
  }

  lemma {:induction false} RegisterAppend(crc: bv32, a: seq<bool>, b: seq<bool>)
    ensures Register(crc, a + b) == Register(Register(crc, a), b)
    decreases |a|
  {
    hide ShiftIn;
    if a == [] {
      assert a + b == b;
    } else {
      RegisterAppend(ShiftIn(crc, a[0]), a[1..], b);
      assert (a + b)[1..] == a[1..] + b;
    }
  }

  lemma {:induction false} BitsAppend(a: seq<Byte>, b: seq<Byte>)
    ensures Bits(a + b) == Bits(a) + Bits(b)
  {
    hide BitsOf;
    if a == [] {
      assert a + b == b;
    } else {
      BitsAppend(a[1..], b);
      assert (a + b)[1..] == a[1..] + b;
      assert BitsOf(a[0]) + (Bits(a[1..]) + Bits(b)) == BitsOf(a[0]) + Bits(a[1..]) + Bits(b);
    }
  }

  // ---- linearity ----

  function Xor(a: bv32, b: bv32): bv32
  {
    a ^ b
  }

  lemma XorCommutes(a: bv32, b: bv32)
    ensures Xor(a, b) == Xor(b, a)
  {
  }

  predicate TopBit(a: bv32)
  {
    a & 0x80000000 != 0
  }

  lemma LinearLow(a: bv32, b: bv32)
    requires !TopBit(a) && !TopBit(b)
    ensures Shift(Xor(a, b)) == Xor(Shift(a), Shift(b))
  {
  }

  lemma MixedBits(a: bv32, b: bv32)
    requires a & 0x80000000 != 0 && b & 0x80000000 == 0
    ensures Shift(a ^ b) == Shift(a) ^ Shift(b)
  {
  }

  lemma LinearMixed(a: bv32, b: bv32)
    requires TopBit(a) && !TopBit(b)
    ensures Shift(Xor(a, b)) == Xor(Shift(a), Shift(b))
  {
    hide Shift;
    MixedBits(a, b);
  }

  lemma ShiftLow(z: bv32)
    requires !TopBit(z)
    ensures Shift(z) == z << 1
  {
  }

  lemma LinearHigh(a: bv32, b: bv32)
    requires TopBit(a) && TopBit(b)
    ensures Shift(Xor(a, b)) == Xor(Shift(a), Shift(b))
  {
  }

  /** A step of the register commutes with exclusive or. */
  lemma ShiftIsLinear(a: bv32, b: bv32)
    ensures Shift(Xor(a, b)) == Xor(Shift(a), Shift(b))
  {
    hide Shift, Xor, TopBit;
    if TopBit(a) && TopBit(b) {
      LinearHigh(a, b);
    } else if TopBit(a) {
      LinearMixed(a, b);
    } else if TopBit(b) {
      LinearMixed(b, a);
      XorCommutes(a, b);
      XorCommutes(Shift(a), Shift(b));
    } else {
      LinearLow(a, b);
    }
  }

  // ---- one byte at a time ----

  function Shift8(crc: bv32): bv32
  {
    Shift(Shift(Shift(Shift(Shift(Shift(Shift(Shift(crc))))))))
  }

  lemma Shift8IsLinear(a: bv32, b: bv32)
    ensures Shift8(Xor(a, b)) == Xor(Shift8(a), Shift8(b))
  {
    hide Shift, Xor;
    var a1, b1 := Shift(a), Shift(b);
    var a2, b2 := Shift(a1), Shift(b1);
    var a3, b3 := Shift(a2), Shift(b2);
    var a4, b4 := Shift(a3), Shift(b3);
    var a5, b5 := Shift(a4), Shift(b4);
    var a6, b6 := Shift(a5), Shift(b5);
    var a7, b7 := Shift(a6), Shift(b6);
    ShiftIsLinear(a, b);
    ShiftIsLinear(a1, b1);
    ShiftIsLinear(a2, b2);
    ShiftIsLinear(a3, b3);
    ShiftIsLinear(a4, b4);
    ShiftIsLinear(a5, b5);
    ShiftIsLinear(a6, b6);
    ShiftIsLinear(a7, b7);
  }

  /** A byte at the top of the register. */
  function AtTop(x: Byte): bv32
  {
    (x as bv32) << 24
  }

  /** The index the lookup uses, and what else is in the register. */
  function Index(crc: bv32, x: Byte): Byte
  {
    ((crc >> 24) as bv8) ^ x
  }

  function Low(crc: bv32): bv32
  {
    crc ^ AtTop((crc >> 24) as bv8)
  }

  function Pick(k: Byte, e0: bv32, e1: bv32, e2: bv32, e3: bv32, e4: bv32, e5: bv32, e6: bv32, e7: bv32): bv32
  {
    if k & 4 == 0 then
      if k & 2 == 0 then if k & 1 == 0 then e0 else e1
      else if k & 1 == 0 then e2 else e3
    else
      if k & 2 == 0 then if k & 1 == 0 then e4 else e5
      else if k & 1 == 0 then e6 else e7
  }

  /** `crc32_table`, by rows of eight. */
  function Crc32Table(i: Byte): bv32
  {
    match i >> 3
    case 0 => Pick(i & 7, 0x00000000, 0x04c11db7, 0x09823b6e, 0x0d4326d9, 0x130476dc, 0x17c56b6b, 0x1a864db2, 0x1e475005)
    case 1 => Pick(i & 7, 0x2608edb8, 0x22c9f00f, 0x2f8ad6d6, 0x2b4bcb61, 0x350c9b64, 0x31cd86d3, 0x3c8ea00a, 0x384fbdbd)
    case 2 => Pick(i & 7, 0x4c11db70, 0x48d0c6c7, 0x4593e01e, 0x4152fda9, 0x5f15adac, 0x5bd4b01b, 0x569796c2, 0x52568b75)
    case 3 => Pick(i & 7, 0x6a1936c8, 0x6ed82b7f, 0x639b0da6, 0x675a1011, 0x791d4014, 0x7ddc5da3, 0x709f7b7a, 0x745e66cd)
    case 4 => Pick(i & 7, 0x9823b6e0, 0x9ce2ab57, 0x91a18d8e, 0x95609039, 0x8b27c03c, 0x8fe6dd8b, 0x82a5fb52, 0x8664e6e5)
    case 5 => Pick(i & 7, 0xbe2b5b58, 0xbaea46ef, 0xb7a96036, 0xb3687d81, 0xad2f2d84, 0xa9ee3033, 0xa4ad16ea, 0xa06c0b5d)
    case 6 => Pick(i & 7, 0xd4326d90, 0xd0f37027, 0xddb056fe, 0xd9714b49, 0xc7361b4c, 0xc3f706fb, 0xceb42022, 0xca753d95)
    case 7 => Pick(i & 7, 0xf23a8028, 0xf6fb9d9f, 0xfbb8bb46, 0xff79a6f1, 0xe13ef6f4, 0xe5ffeb43, 0xe8bccd9a, 0xec7dd02d)
    case 8 => Pick(i & 7, 0x34867077, 0x30476dc0, 0x3d044b19, 0x39c556ae, 0x278206ab, 0x23431b1c, 0x2e003dc5, 0x2ac12072)
    case 9 => Pick(i & 7, 0x128e9dcf, 0x164f8078, 0x1b0ca6a1, 0x1fcdbb16, 0x018aeb13, 0x054bf6a4, 0x0808d07d, 0x0cc9cdca)
    case 10 => Pick(i & 7, 0x7897ab07, 0x7c56b6b0, 0x71159069, 0x75d48dde, 0x6b93dddb, 0x6f52c06c, 0x6211e6b5, 0x66d0fb02)
    case 11 => Pick(i & 7, 0x5e9f46bf, 0x5a5e5b08, 0x571d7dd1, 0x53dc6066, 0x4d9b3063, 0x495a2dd4, 0x44190b0d, 0x40d816ba)
    case 12 => Pick(i & 7, 0xaca5c697, 0xa864db20, 0xa527fdf9, 0xa1e6e04e, 0xbfa1b04b, 0xbb60adfc, 0xb6238b25, 0xb2e29692)
    case 13 => Pick(i & 7, 0x8aad2b2f, 0x8e6c3698, 0x832f1041, 0x87ee0df6, 0x99a95df3, 0x9d684044, 0x902b669d, 0x94ea7b2a)
    case 14 => Pick(i & 7, 0xe0b41de7, 0xe4750050, 0xe9362689, 0xedf73b3e, 0xf3b06b3b, 0xf771768c, 0xfa325055, 0xfef34de2)
    case 15 => Pick(i & 7, 0xc6bcf05f, 0xc27dede8, 0xcf3ecb31, 0xcbffd686, 0xd5b88683, 0xd1799b34, 0xdc3abded, 0xd8fba05a)
    case 16 => Pick(i & 7, 0x690ce0ee, 0x6dcdfd59, 0x608edb80, 0x644fc637, 0x7a089632, 0x7ec98b85, 0x738aad5c, 0x774bb0eb)
    case 17 => Pick(i & 7, 0x4f040d56, 0x4bc510e1, 0x46863638, 0x42472b8f, 0x5c007b8a, 0x58c1663d, 0x558240e4, 0x51435d53)
    case 18 => Pick(i & 7, 0x251d3b9e, 0x21dc2629, 0x2c9f00f0, 0x285e1d47, 0x36194d42, 0x32d850f5, 0x3f9b762c, 0x3b5a6b9b)
    case 19 => Pick(i & 7, 0x0315d626, 0x07d4cb91, 0x0a97ed48, 0x0e56f0ff, 0x1011a0fa, 0x14d0bd4d, 0x19939b94, 0x1d528623)
    case 20 => Pick(i & 7, 0xf12f560e, 0xf5ee4bb9, 0xf8ad6d60, 0xfc6c70d7, 0xe22b20d2, 0xe6ea3d65, 0xeba91bbc, 0xef68060b)
    case 21 => Pick(i & 7, 0xd727bbb6, 0xd3e6a601, 0xdea580d8, 0xda649d6f, 0xc423cd6a, 0xc0e2d0dd, 0xcda1f604, 0xc960ebb3)
    case 22 => Pick(i & 7, 0xbd3e8d7e, 0xb9ff90c9, 0xb4bcb610, 0xb07daba7, 0xae3afba2, 0xaafbe615, 0xa7b8c0cc, 0xa379dd7b)
    case 23 => Pick(i & 7, 0x9b3660c6, 0x9ff77d71, 0x92b45ba8, 0x9675461f, 0x8832161a, 0x8cf30bad, 0x81b02d74, 0x857130c3)
    case 24 => Pick(i & 7, 0x5d8a9099, 0x594b8d2e, 0x5408abf7, 0x50c9b640, 0x4e8ee645, 0x4a4ffbf2, 0x470cdd2b, 0x43cdc09c)
    case 25 => Pick(i & 7, 0x7b827d21, 0x7f436096, 0x7200464f, 0x76c15bf8, 0x68860bfd, 0x6c47164a, 0x61043093, 0x65c52d24)
    case 26 => Pick(i & 7, 0x119b4be9, 0x155a565e, 0x18197087, 0x1cd86d30, 0x029f3d35, 0x065e2082, 0x0b1d065b, 0x0fdc1bec)
    case 27 => Pick(i & 7, 0x3793a651, 0x3352bbe6, 0x3e119d3f, 0x3ad08088, 0x2497d08d, 0x2056cd3a, 0x2d15ebe3, 0x29d4f654)
    case 28 => Pick(i & 7, 0xc5a92679, 0xc1683bce, 0xcc2b1d17, 0xc8ea00a0, 0xd6ad50a5, 0xd26c4d12, 0xdf2f6bcb, 0xdbee767c)
    case 29 => Pick(i & 7, 0xe3a1cbc1, 0xe760d676, 0xea23f0af, 0xeee2ed18, 0xf0a5bd1d, 0xf464a0aa, 0xf9278673, 0xfde69bc4)
    case 30 => Pick(i & 7, 0x89b8fd09, 0x8d79e0be, 0x803ac667, 0x84fbdbd0, 0x9abc8bd5, 0x9e7d9662, 0x933eb0bb, 0x97ffad0c)
    case _ => Pick(i & 7, 0xafb010b1, 0xab710d06, 0xa6322bdf, 0xa2f33668, 0xbcb4666d, 0xb8757bda, 0xb5365d03, 0xb1f740b4)
  }

  /** Every entry is what eight steps make of its index at the top of the register. */
  lemma TableIsShift8(i: Byte)
    ensures Crc32Table(i) == Shift8(AtTop(i))
  {
    hide Crc32Table, Shift8;
    if i < 0x40 { FirstQuarter(i); }
    else if i < 0x80 { SecondQuarter(i); }
    else if i < 0xc0 { ThirdQuarter(i); }
    else { LastQuarter(i); }
  }

  lemma FirstQuarter(i: Byte)
    requires i < 0x40
    ensures Crc32Table(i) == Shift8(AtTop(i))
  {
  }

  lemma SecondQuarter(i: Byte)
    requires 0x40 <= i < 0x80
    ensures Crc32Table(i) == Shift8(AtTop(i))
  {
  }

  lemma ThirdQuarter(i: Byte)
    requires 0x80 <= i < 0xc0
    ensures Crc32Table(i) == Shift8(AtTop(i))
  {
  }

  lemma LastQuarter(i: Byte)
    requires i >= 0xc0
    ensures Crc32Table(i) == Shift8(AtTop(i))
  {
  }

  lemma ClearTopByte(crc: bv32)
    ensures crc ^ ((((crc >> 24) as bv8) as bv32) << 24) == crc & 0xffffff
  {
  }

  lemma Shift8Low24(crc: bv32)
    ensures Shift8(crc & 0xffffff) == crc << 8
  {
  }

  lemma Shift8OfLowBits(crc: bv32)
    ensures Shift8(Low(crc)) == crc << 8
  {
    hide Shift8;
    ClearTopByte(crc);
    Shift8Low24(crc);
  }

  lemma AtTopDistributes(x: Byte, y: Byte)
    ensures ((x ^ y) as bv32) << 24 == ((x as bv32) << 24) ^ ((y as bv32) << 24)
  {
  }

  lemma AtTopIsLinear(x: Byte, y: Byte)
    ensures AtTop(x ^ y) == Xor(AtTop(x), AtTop(y))
  {
    AtTopDistributes(x, y);
  }

  lemma Cancel(a: bv32, b: bv32, c: bv32)
    ensures (a ^ b) ^ (c ^ a) == c ^ b
  {
  }

  lemma XorCancels(a: bv32, b: bv32, c: bv32)
    ensures Xor(Xor(a, b), Xor(c, a)) == Xor(c, b)
  {
    Cancel(a, b, c);
  }

  lemma ByteSplit(crc: bv32, x: Byte)
    ensures Xor(crc, AtTop(x)) == Xor(AtTop(Index(crc, x)), Low(crc))
  {
    hide AtTop, Xor, Index, Low;
    IndexAndLow(crc, x);
    AtTopIsLinear(Index(crc, 0), x);
    XorCancels(AtTop(Index(crc, 0)), AtTop(x), crc);
  }

  lemma IndexAndLow(crc: bv32, x: Byte)
    ensures Index(crc, x) == Index(crc, 0) ^ x && Low(crc) == Xor(crc, AtTop(Index(crc, 0)))
  {
  }

  lemma StepLow(r: bv32, z: bv32)
    requires !TopBit(z)
    ensures Shift(Xor(r, z)) == Xor(Shift(r), z << 1)
  {
    hide Shift, Xor;
    ShiftIsLinear(r, z);
    ShiftLow(z);
  }

  lemma StepHigh(r: bv32, z: bv32)
    requires TopBit(z)
    ensures Shift(Xor(r, z) ^ 0x80000000) == Xor(Shift(r), z << 1)
  {
    hide Shift, Xor;
    ClearTop(r, z);
    StepLow(r, z & 0x7fffffff);
  }

  lemma ClearTop(r: bv32, z: bv32)
    requires TopBit(z)
    ensures Xor(r, z) ^ 0x80000000 == Xor(r, z & 0x7fffffff)
    ensures !TopBit(z & 0x7fffffff) && (z & 0x7fffffff) << 1 == z << 1
  {
  }

  /** A bit that comes in may just as well have been in the register from the start. */
  lemma BitAheadOfTime(r: bv32, z: bv32)
    ensures ShiftIn(Xor(r, z), TopBit(z)) == Xor(Shift(r), Double(z))
  {
    hide Shift, Xor, TopBit;
    if TopBit(z) {
      StepHigh(r, z);
    } else {
      StepLow(r, z);
    }
  }

  // ---- many bits ----

  function Steps(r: bv32, n: nat): bv32
    decreases n
  {
    if n == 0 then r else Steps(Shift(r), n - 1)
  }

  function Double(z: bv32): bv32
  {
    z << 1
  }

  function Shifted(z: bv32, n: nat): bv32
  {
    if n == 0 then z else Double(Shifted(z, n - 1))
  }

  lemma {:induction false} ShiftedOnce(z: bv32, n: nat)
    ensures Shifted(Double(z), n) == Shifted(z, n + 1)
    decreases n
  {
    hide Double;
    if n > 0 { ShiftedOnce(z, n - 1); }
  }

  /** The first n bits of z, from the top. */
  function TopBits(z: bv32, n: nat): (b: seq<bool>)
    ensures |b| == n
  {
    seq(n, k requires 0 <= k < n => TopBit(Shifted(z, k)))
  }

  lemma TopBitsTail(z: bv32, n: nat)
    requires n > 0
    ensures TopBits(z, n)[0] == TopBit(z) && TopBits(z, n)[1..] == TopBits(Double(z), n - 1)
    ensures Shifted(z, n) == Shifted(Double(z), n - 1)
  {
    hide Double, TopBit;
    ShiftedOnce(z, n - 1);
    forall k | 0 <= k < n - 1 ensures TopBits(z, n)[1..][k] == TopBits(Double(z), n - 1)[k] {
      ShiftedOnce(z, k);
    }
  }

  /** Feeding in the first n bits of z is having all of z in the register and taking n steps. */
  lemma {:induction false} BitsAheadOfTime(r: bv32, z: bv32, n: nat)
    ensures Register(Xor(r, z), TopBits(z, n)) == Xor(Steps(r, n), Shifted(z, n))
    decreases n
  {
    hide Shift, ShiftIn, Xor, TopBit, Double;
    if n > 0 {
      BitAheadOfTime(r, z);
      BitsAheadOfTime(Shift(r), Double(z), n - 1);
      TopBitsTail(z, n);
    } else {
      assert TopBits(z, 0) == [];
    }
  }

  lemma ByteBits(x: Byte)
    ensures var z := AtTop(x);
            var z4 := Double(Double(Double(Double(z))));
            && BitsOf(x) == FourBits(z) + FourBits(z4) && Double(Double(Double(Double(z4)))) == 0
  {
  }

  function FourBits(z: bv32): (b: seq<bool>)
    ensures |b| == 4
  {
    [TopBit(z), TopBit(Double(z)), TopBit(Double(Double(z))), TopBit(Double(Double(Double(z))))]
  }

  lemma FourShifted(z: bv32, n: nat)
    ensures Shifted(z, n + 1) == Double(Shifted(z, n)) && Shifted(z, n + 2) == Double(Double(Shifted(z, n)))
    ensures Shifted(z, n + 3) == Double(Double(Double(Shifted(z, n))))
    ensures Shifted(z, n + 4) == Double(Double(Double(Double(Shifted(z, n)))))
  {
    hide Double;
    assert Shifted(z, n + 1) == Double(Shifted(z, n));
    assert Shifted(z, n + 2) == Double(Shifted(z, n + 1));
    assert Shifted(z, n + 3) == Double(Shifted(z, n + 2));
  }

  lemma EightBits(x: Byte)
    ensures TopBits(AtTop(x), 8) == BitsOf(x) && Shifted(AtTop(x), 8) == 0
  {
    hide TopBit, TopBits, FourBits, Double, BitsOf, AtTop;
    var z := AtTop(x);
    ByteBits(x);
    assert Shifted(z, 0) == z;
    FourShifted(z, 0);
    FourShifted(z, 4);
    TopFour(z, 0);
    TopFour(z, 4);
    assert TopBits(z, 8) == TopBits(z, 8)[..4] + TopBits(z, 8)[4..];
  }

  lemma TopFour(z: bv32, n: nat)
    requires n <= 4
    ensures TopBits(z, 8)[n..n + 4] == FourBits(Shifted(z, n))
  {
    hide TopBit, TopBits, Double, Shifted;
    FourShifted(z, n);
    TopAt(z, n);
    TopAt(z, n + 1);
    TopAt(z, n + 2);
    TopAt(z, n + 3);
  }

  lemma TopAt(z: bv32, k: nat)
    requires k < 8
    ensures TopBits(z, 8)[k] == TopBit(Shifted(z, k))
  {
  }

  lemma EightSteps(r: bv32)
    ensures Steps(r, 8) == Shift8(r)
  {
    hide Shift;
    var r4 := Shift(Shift(Shift(Shift(r))));
    assert Steps(r, 8) == Steps(Shift(Shift(r)), 6) == Steps(r4, 4);
    assert Steps(r4, 4) == Steps(Shift(Shift(r4)), 2);
  }

  lemma XorTwice(a: bv32, b: bv32)
    ensures Xor(Xor(a, b), b) == a && Xor(a, 0) == a
  {
  }

  /** The eight bits of a byte fed in are the byte put in at the top. */
  lemma ByteAheadOfTime(crc: bv32, x: Byte)
    ensures Register(crc, BitsOf(x)) == Shift8(Xor(crc, AtTop(x)))
  {
    hide Shift, ShiftIn, Shift8, Xor, TopBit, BitsOf, Register, TopBits, AtTop;
    var z := AtTop(x);
    BitsAheadOfTime(Xor(crc, z), z, 8);
    EightBits(x);
    EightSteps(Xor(crc, z));
    XorTwice(crc, z);
    XorTwice(Shift8(Xor(crc, z)), 0);
  }

  /** What one byte does to the register, by the table. */
  function Advance(crc: bv32, x: Byte): bv32
  {
    (crc << 8) ^ Crc32Table(Index(crc, x))
  }

  /** One table lookup is eight steps of the register with the bits of the byte. */
  lemma LookupIsEightSteps(crc: bv32, x: Byte)
    ensures Register(crc, BitsOf(x)) == Advance(crc, x)
  {
    hide Shift8, Crc32Table, Register, BitsOf, AtTop, Index, Low, Xor, Advance;
    var i := Index(crc, x);
    ByteAheadOfTime(crc, x);
    ByteSplit(crc, x);
    Shift8IsLinear(AtTop(i), Low(crc));
    TableIsShift8(i);
    AdvanceIs(crc, x);
  }

  lemma AdvanceIs(crc: bv32, x: Byte)
    ensures Advance(crc, x) == Xor(Crc32Table(Index(crc, x)), Shift8(Low(crc)))
  {
    hide Shift8, Crc32Table, Index, Low;
    Shift8OfLowBits(crc);
  }

  method CrcHash(key: seq<Byte>) returns (hash: bv32)
    ensures hash == BitSerial(key)
  {
    hide Register, Bits, Advance;
    var crc, p := PRELOAD, 0;
    BitsStart(crc, key);
    while p < |key|
      invariant p <= |key| && crc == Register(PRELOAD, Bits(key[..p]))
    {
      LookupIsEightSteps(crc, key[p]);
      BitsNext(key, p);
      crc := Advance(crc, key[p]);
      p := p + 1;
    }
    assert key[..p] == key;
    return !crc;
  }

  lemma BitsStart(crc: bv32, key: seq<Byte>)
    ensures Register(crc, Bits(key[..0])) == crc
  {
  }

  lemma BitsNext(key: seq<Byte>, p: nat)
    requires p < |key|
    ensures Register(PRELOAD, Bits(key[..p + 1])) == Register(Register(PRELOAD, Bits(key[..p])), BitsOf(key[p]))
  {
    hide BitsOf;
    assert key[..p + 1] == key[..p] + [key[p]];
    BitsAppend(key[..p], [key[p]]);
    assert [key[p]][1..] == [];
    assert Bits([key[p]]) == BitsOf(key[p]) + Bits([]);
    assert Bits([key[p]]) == BitsOf(key[p]);
    RegisterAppend(PRELOAD, Bits(key[..p]), BitsOf(key[p]));
  }

  // ---- bursts ----

  function Widen(m: bv32): bv32
  {
    (m << 1) | 1
  }

  /** The n lowest bits. */
  function Mask(n: nat): bv32
  {
    if n == 0 then 0 else Widen(Mask(n - 1))
  }

  lemma WidenBits(a: bv32, b: bv32)
    requires a | b == b
    ensures Widen(a) | Widen(b) == Widen(b)
  {
  }

  lemma {:induction false} MaskGrows(n: nat)
    ensures Mask(n) | Mask(n + 1) == Mask(n + 1)
  {
    if n > 0 {
      MaskGrows(n - 1);
      WidenBits(Mask(n - 1), Mask(n));
    }
  }

  lemma Mask31()
    ensures Mask(31) == 0x7fffffff
  {
    assert Mask(2) == 0x3;
    assert Mask(4) == 0xf;
    assert Mask(6) == 0x3f;
    assert Mask(8) == 0xff;
    assert Mask(10) == 0x3ff;
    assert Mask(12) == 0xfff;
    assert Mask(14) == 0x3fff;
    assert Mask(16) == 0xffff;
    assert Mask(18) == 0x3ffff;
    assert Mask(20) == 0xfffff;
    assert Mask(22) == 0x3fffff;
    assert Mask(24) == 0xffffff;
    assert Mask(26) == 0x3ffffff;
    assert Mask(28) == 0xfffffff;
    assert Mask(30) == 0x3fffffff;
  }

  lemma TopComesFirst(a: bv32, b: bv32)
    requires a | b == b && !TopBit(b)
    ensures !TopBit(a)
  {
  }

  lemma {:induction false} MaskHasNoTop(n: nat)
    requires n < 32
    ensures !TopBit(Mask(n))
    decreases 32 - n
  {
    hide Mask;
    if n == 31 {
      Mask31();
    } else {
      MaskHasNoTop(n + 1);
      MaskGrows(n);
      TopComesFirst(Mask(n), Mask(n + 1));
    }
  }

  lemma MaskNext(n: nat)
    ensures Mask(n + 1) == Widen(Mask(n))
  {
  }

  predicate Meets(d: bv32, m: bv32)
  {
    d & m != 0
  }

  function Flip(s: bv32): bv32
  {
    s ^ 0x80000000
  }

  lemma FlipLeft(s: bv32, s': bv32)
    ensures (s ^ 0x80000000) ^ s' == (s ^ s') ^ 0x80000000
  {
  }

  lemma XorOfFlip(s: bv32, s': bv32)
    ensures Xor(Flip(s), s') == Flip(Xor(s, s'))
  {
    FlipLeft(s, s');
  }

  lemma FlipTwice(s: bv32)
    ensures Flip(Flip(s)) == s
  {
  }

  lemma XorOfFlips(s: bv32, s': bv32)
    ensures Xor(Flip(s), Flip(s')) == Xor(s, s')
    ensures Xor(Flip(s), s') == Flip(Xor(s, s')) && Xor(s, Flip(s')) == Flip(Xor(s, s'))
  {
    hide Xor, Flip;
    XorOfFlip(s, s');
    XorOfFlip(s, Flip(s'));
    XorOfFlip(s', s);
    XorCommutes(s, s');
    XorCommutes(s, Flip(s'));
    FlipTwice(Xor(s, s'));
  }

  lemma ShiftInIs(s: bv32, b: bool)
    ensures ShiftIn(s, b) == Shift(if b then Flip(s) else s)
  {
  }

  /** The difference of two registers one step later. */
  lemma DifferenceStep(s: bv32, s': bv32, b: bool, b': bool)
    ensures Xor(ShiftIn(s, b), ShiftIn(s', b')) == Shift(if b == b' then Xor(s, s') else Flip(Xor(s, s')))
  {
    hide Shift, ShiftIn, Xor, Flip;
    ShiftInIs(s, b);
    ShiftInIs(s', b');
    ShiftIsLinear(if b then Flip(s) else s, if b' then Flip(s') else s');
    XorOfFlips(s, s');
  }

  lemma LowBitsMove(d: bv32, m: bv32)
    requires Meets(d, m) && !TopBit(m)
    ensures Meets(Shift(d), Widen(m))
  {
    if TopBit(d) {} else {}
  }

  lemma FlipKeepsLow(d: bv32, m: bv32)
    requires Meets(d, m) && !TopBit(m)
    ensures Meets(Flip(d), m)
  {
  }

  lemma MeetsMeansDiffer(s: bv32, s': bv32, m: bv32)
    requires Meets(Xor(s, s'), m)
    ensures s != s'
  {
  }

  /** Registers that differ in one of the n lowest bits differ after any 32 - n steps. */
  lemma {:induction false} LowDifferenceStays(s: bv32, s': bv32, a: seq<bool>, b: seq<bool>, n: nat)
    requires |a| == |b| && n + |a| <= 32 && Meets(Xor(s, s'), Mask(n))
    ensures Register(s, a) != Register(s', b)
    decreases |a|
  {
    hide ShiftIn, Shift, Xor, TopBit, Meets, Flip, Mask, Widen;
    if a == [] {
      MeetsMeansDiffer(s, s', Mask(n));
    } else {
      var d := Xor(s, s');
      MaskHasNoTop(n);
      DifferenceStep(s, s', a[0], b[0]);
      FlipKeepsLow(d, Mask(n));
      LowBitsMove(if a[0] == b[0] then d else Flip(d), Mask(n));
      MaskNext(n);
      LowDifferenceStays(ShiftIn(s, a[0]), ShiftIn(s', b[0]), a[1..], b[1..], n + 1);
    }
  }

  lemma FirstDifference(s: bv32)
    ensures Meets(Xor(ShiftIn(s, true), ShiftIn(s, false)), Mask(1))
    ensures Meets(Xor(ShiftIn(s, false), ShiftIn(s, true)), Mask(1))
  {
    hide ShiftIn;
    DifferenceStep(s, s, true, false);
    DifferenceStep(s, s, false, true);
    assert Xor(s, s) == 0;
  }

  /** From one register, different inputs of at most 32 bits lead to different registers. */
  lemma {:induction false} WindowsDiffer(s: bv32, a: seq<bool>, b: seq<bool>)
    requires |a| == |b| <= 32 && a != b
    ensures Register(s, a) != Register(s, b)
    decreases |a|
  {
    hide ShiftIn, Xor, Meets;
    if a[0] == b[0] {
      assert a == [a[0]] + a[1..] && b == [b[0]] + b[1..];
      WindowsDiffer(ShiftIn(s, a[0]), a[1..], b[1..]);
    } else {
      FirstDifference(s);
      LowDifferenceStays(ShiftIn(s, a[0]), ShiftIn(s, b[0]), a[1..], b[1..], 1);
    }
  }

  lemma StepIsOneToOne(s: bv32, s': bv32, b: bool)
    requires s != s'
    ensures ShiftIn(s, b) != ShiftIn(s', b)
  {
    hide ShiftIn;
    DifferenceStep(s, s', b, b);
    ZeroDifference(s, s');
    ZeroDifference(ShiftIn(s, b), ShiftIn(s', b));
    ShiftKeepsNonzero(Xor(s, s'));
  }

  lemma ZeroDifference(s: bv32, s': bv32)
    ensures Xor(s, s') == 0 <==> s == s'
  {
  }

  lemma ShiftKeepsNonzero(d: bv32)
    requires d != 0
    ensures Shift(d) != 0
  {
  }

  /** Registers that differ stay different under the same input. */
  lemma {:induction false} DifferenceStays(s: bv32, s': bv32, d: seq<bool>)
    requires s != s'
    ensures Register(s, d) != Register(s', d)
    decreases |d|
  {
    hide ShiftIn;
    if d != [] {
      StepIsOneToOne(s, s', d[0]);
      DifferenceStays(ShiftIn(s, d[0]), ShiftIn(s', d[0]), d[1..]);
    }
  }

  predicate Has(x: Byte, mask: Byte)
  {
    x & mask != 0
  }

  lemma BitsAreMasks(x: Byte)
    ensures BitsOf(x) == [Has(x, 0x80), Has(x, 0x40), Has(x, 0x20), Has(x, 0x10), Has(x, 8), Has(x, 4), Has(x, 2), Has(x, 1)]
  {
  }

  lemma MasksTellBytes(x: Byte, y: Byte)
    requires Has(x, 0x80) == Has(y, 0x80) && Has(x, 0x40) == Has(y, 0x40)
    requires Has(x, 0x20) == Has(y, 0x20) && Has(x, 0x10) == Has(y, 0x10)
    requires Has(x, 8) == Has(y, 8) && Has(x, 4) == Has(y, 4)
    requires Has(x, 2) == Has(y, 2) && Has(x, 1) == Has(y, 1)
    ensures x == y
  {
  }

  lemma BitsOfDiffer(x: Byte, y: Byte)
    requires x != y
    ensures BitsOf(x) != BitsOf(y)
  {
    hide BitsOf, Has;
    if BitsOf(x) == BitsOf(y) {
      var b := BitsOf(x);
      BitsAreMasks(x);
      BitsAreMasks(y);
      assert b[0] == Has(y, 0x80) && b[1] == Has(y, 0x40) && b[2] == Has(y, 0x20) && b[3] == Has(y, 0x10);
      assert b[4] == Has(y, 8) && b[5] == Has(y, 4) && b[6] == Has(y, 2) && b[7] == Has(y, 1);
      MasksTellBytes(x, y);
    }
  }

  lemma {:induction false} BitsDiffer(a: seq<Byte>, b: seq<Byte>)
    requires |a| == |b| && a != b
    ensures Bits(a) != Bits(b)
  {
    hide BitsOf;
    assert Bits(a)[..8] == BitsOf(a[0]) && Bits(a)[8..] == Bits(a[1..]);
    assert Bits(b)[..8] == BitsOf(b[0]) && Bits(b)[8..] == Bits(b[1..]);
    if a[0] != b[0] {
      BitsOfDiffer(a[0], b[0]);
    } else {
      assert a == [a[0]] + a[1..] && b == [b[0]] + b[1..];
      BitsDiffer(a[1..], b[1..]);
    }
  }

  /** Keys of one length that differ only within four neighbouring bytes never have the same CRC. */
  lemma BurstsAreTold(before: seq<Byte>, a: seq<Byte>, b: seq<Byte>, after: seq<Byte>)
    requires |a| == |b| <= 4 && a != b
    ensures BitSerial(before + a + after) != BitSerial(before + b + after)
  {
    hide Register, Bits;
    var s := Register(PRELOAD, Bits(before));
    BitsDiffer(a, b);
    WindowsDiffer(s, Bits(a), Bits(b));
    DifferenceStays(Register(s, Bits(a)), Register(s, Bits(b)), Bits(after));
    ThreeParts(before, a, after);
    ThreeParts(before, b, after);
    ComplementTells(Register(PRELOAD, Bits(before + a + after)), Register(PRELOAD, Bits(before + b + after)));
  }

  lemma ComplementTells(s: bv32, s': bv32)
    requires s != s'
    ensures !s != !s'
  {
  }

  lemma ThreeParts(before: seq<Byte>, a: seq<Byte>, after: seq<Byte>)
    ensures Register(PRELOAD, Bits(before + a + after))
         == Register(Register(Register(PRELOAD, Bits(before)), Bits(a)), Bits(after))
  {
    hide Register, Bits;
    BitsAppend(before + a, after);
    BitsAppend(before, a);
    RegisterAppend(PRELOAD, Bits(before) + Bits(a), Bits(after));
    RegisterAppend(PRELOAD, Bits(before), Bits(a));
  }

  // ---- the register by bytes ----

  lemma RegisterByByte(crc: bv32, key: seq<Byte>)
    requires key != []
    ensures Register(crc, Bits(key)) == Register(Advance(crc, key[0]), Bits(key[1..]))
  {
    hide Register, BitsOf, Advance;
    RegisterAppend(crc, BitsOf(key[0]), Bits(key[1..]));
    LookupIsEightSteps(crc, key[0]);
  }

  lemma RegisterEnds(crc: bv32, key: seq<Byte>)
    requires key == []
    ensures Register(crc, Bits(key)) == crc
  {
  }

  /** The check value of this CRC, that of the digits from 1 to 9. */
  lemma CheckValue()
    ensures BitSerial([0x31, 0x32, 0x33, 0x34, 0x35, 0x36, 0x37, 0x38, 0x39]) == 0xfc891918
  {
    hide Register, Bits, Advance;
    var key: seq<Byte> := [0x31, 0x32, 0x33, 0x34, 0x35, 0x36, 0x37, 0x38, 0x39];
    Digit1(); Digit2(); Digit3(); Digit4(); Digit5(); Digit6(); Digit7(); Digit8(); Digit9();
    RegisterByByte(PRELOAD, key);
    RegisterByByte(0x9efbcf93, key[1..]);
    assert key[1..][1..] == key[2..];
    RegisterByByte(0x3fec5e6a, key[2..]);
    assert key[2..][1..] == key[3..];
    RegisterByByte(0xd952f164, key[3..]);
    assert key[3..][1..] == key[4..];
    RegisterByByte(0xa695c4aa, key[4..]);
    assert key[4..][1..] == key[5..];
    RegisterByByte(0xbd9ab747, key[5..]);
    assert key[5..][1..] == key[6..];
    RegisterByByte(0xd8f06c8f, key[6..]);
    assert key[6..][1..] == key[7..];
    RegisterByByte(0x0d8a14c4, key[7..]);
    assert key[7..][1..] == key[8..];
    RegisterByByte(0x49e3c2fb, key[8..]);
    RegisterEnds(0x0376e6e7, key[9..]);
  }

  // The lookups of the check value, one by one.
  lemma Digit1() ensures Advance(PRELOAD, 0x31) == 0x9efbcf93 { }
  lemma Digit2() ensures Advance(0x9efbcf93, 0x32) == 0x3fec5e6a { }
  lemma Digit3() ensures Advance(0x3fec5e6a, 0x33) == 0xd952f164 { }
  lemma Digit4() ensures Advance(0xd952f164, 0x34) == 0xa695c4aa { }
  lemma Digit5() ensures Advance(0xa695c4aa, 0x35) == 0xbd9ab747 { }
  lemma Digit6() ensures Advance(0xbd9ab747, 0x36) == 0xd8f06c8f { }
  lemma Digit7() ensures Advance(0xd8f06c8f, 0x37) == 0x0d8a14c4 { }
  lemma Digit8() ensures Advance(0x0d8a14c4, 0x38) == 0x49e3c2fb { }
  lemma Digit9() ensures Advance(0x49e3c2fb, 0x39) == 0x0376e6e7 { }

  // ---- zeros in front, and the CRC behind ----

  function Zeros(n: nat): seq<Byte>
  {
    seq(n, _ => 0)
  }

  // The lookups of zero bytes.
  lemma Zero1() ensures Advance(PRELOAD, 0) == 0x4e08bfb4 { }
  lemma Zero2() ensures Advance(0x4e08bfb4, 0) == 0x00b7647d { }
  lemma Zero3() ensures Advance(0x00b7647d, 0) == 0xb7647d00 { }
  lemma Zero4() ensures Advance(0xb7647d00, 0) == 0xc704dd7b { }

  lemma ZerosStep(crc: bv32, n: nat)
    requires n > 0
    ensures Register(crc, Bits(Zeros(n))) == Register(Advance(crc, 0), Bits(Zeros(n - 1)))
  {
    hide Register, Bits, Advance;
    RegisterByByte(crc, Zeros(n));
    assert Zeros(n)[1..] == Zeros(n - 1);
  }

  lemma ZerosMove(n: nat)
    requires 1 <= n <= 4
    ensures Register(PRELOAD, Bits(Zeros(n))) != PRELOAD
  {
    hide Register, Bits, Advance;
    Zero1(); Zero2(); Zero3(); Zero4();
    ZerosStep(PRELOAD, n);
    RegisterEnds(0x4e08bfb4, Zeros(0));
    if n > 1 { ZerosStep(0x4e08bfb4, n - 1); RegisterEnds(0x00b7647d, Zeros(0)); }
    if n > 2 { ZerosStep(0x00b7647d, n - 2); RegisterEnds(0xb7647d00, Zeros(0)); }
    if n > 3 { ZerosStep(0xb7647d00, n - 3); RegisterEnds(0xc704dd7b, Zeros(0)); }
  }

  /** Up to four zero bytes in front of any key change its CRC. */
  lemma LeadingZerosAreTold(n: nat, key: seq<Byte>)
    requires 1 <= n <= 4
    ensures BitSerial(Zeros(n) + key) != BitSerial(key)
  {
    hide Register, Bits;
    ZerosMove(n);
    BitsAppend(Zeros(n), key);
    RegisterAppend(PRELOAD, Bits(Zeros(n)), Bits(key));
    DifferenceStays(Register(PRELOAD, Bits(Zeros(n))), PRELOAD, Bits(key));
    ComplementTells(Register(PRELOAD, Bits(Zeros(n) + key)), Register(PRELOAD, Bits(key)));
  }

  /** The bytes of a CRC, the most significant first. */
  function BytesOf(crc: bv32): seq<Byte>
  {
    [First(crc), Second(crc), Third(crc), Fourth(crc)]
  }

  function First(crc: bv32): Byte
  {
    (crc >> 24) as bv8
  }

  function Second(crc: bv32): Byte
  {
    ((crc >> 16) & 0xff) as bv8
  }

  function Third(crc: bv32): Byte
  {
    ((crc >> 8) & 0xff) as bv8
  }

  function Fourth(crc: bv32): Byte
  {
    (crc & 0xff) as bv8
  }

  /** What is left of the register r after n bytes of its complement. */
  function Left(r: bv32, n: nat): bv32
  {
    match n
    case 0 => r
    case 1 => (r << 8) ^ 0xb1f740b4
    case 2 => (r << 16) ^ 0xff48647d
    case 3 => (r << 24) ^ 0x48647d00
    case _ => 0xc704dd7b
  }

  // The byte of the complement meets that of the register, and one entry of the table is left.
  lemma ComplementIndexes(r: bv32)
    ensures Index(Left(r, 0), First(!r)) == 0xff && Index(Left(r, 1), Second(!r)) == 0x4e
    ensures Index(Left(r, 2), Third(!r)) == 0 && Index(Left(r, 3), Fourth(!r)) == 0xb7
  {
  }

  // The entries that are left.
  lemma Entry1() ensures Crc32Table(0xff) == 0xb1f740b4 { }
  lemma Entry2() ensures Crc32Table(0x4e) == 0x0808d07d { }
  lemma Entry3() ensures Crc32Table(0) == 0 { }
  lemma Entry4() ensures Crc32Table(0xb7) == 0xa379dd7b { }

  lemma Left1(r: bv32) ensures (Left(r, 0) << 8) ^ 0xb1f740b4 == Left(r, 1) { }
  lemma Left2(r: bv32) ensures (Left(r, 1) << 8) ^ 0x0808d07d == Left(r, 2) { }
  lemma Left3(r: bv32) ensures (Left(r, 2) << 8) ^ 0 == Left(r, 3) { }
  lemma Left4(r: bv32) ensures (Left(r, 3) << 8) ^ 0xa379dd7b == Left(r, 4) { }

  lemma ComplementAdvances(r: bv32)
    ensures Advance(Left(r, 0), First(!r)) == Left(r, 1) && Advance(Left(r, 1), Second(!r)) == Left(r, 2)
    ensures Advance(Left(r, 2), Third(!r)) == Left(r, 3) && Advance(Left(r, 3), Fourth(!r)) == Left(r, 4)
  {
    hide Crc32Table, Index, Left, First, Second, Third, Fourth;
    ComplementIndexes(r);
    Entry1(); Entry2(); Entry3(); Entry4();
    Left1(r); Left2(r); Left3(r); Left4(r);
  }

  lemma LeftEnds(r: bv32)
    ensures Left(r, 0) == r && !Left(r, 4) == 0x38fb2284
  {
  }

  /** A key with its CRC behind it, most significant byte first, always has the same CRC. */
  lemma ResidueIsConstant(key: seq<Byte>)
    ensures BitSerial(key + BytesOf(BitSerial(key))) == 0x38fb2284
  {
    hide Register, Bits, Advance, Left, First, Second, Third, Fourth;
    var r := Register(PRELOAD, Bits(key));
    var b := BytesOf(!r);
    BitsAppend(key, b);
    RegisterAppend(PRELOAD, Bits(key), Bits(b));
    ComplementAdvances(r);
    LeftEnds(r);
    FourBytes(Left(r, 0), b);
  }

  lemma FourBytes(crc: bv32, b: seq<Byte>)
    requires |b| == 4
    ensures Register(crc, Bits(b)) == Advance(Advance(Advance(Advance(crc, b[0]), b[1]), b[2]), b[3])
  {
    hide Register, Bits, Advance;
    var one := Advance(crc, b[0]);
    var two := Advance(one, b[1]);
    var three := Advance(two, b[2]);
    RegisterByByte(crc, b);
    RegisterByByte(one, b[1..]);
    assert b[1..][1..] == b[2..];
    RegisterByByte(two, b[2..]);
    assert b[2..][1..] == b[3..];
    RegisterByByte(three, b[3..]);
    RegisterEnds(Advance(three, b[3]), b[3..][1..]);
  }
}

/** The table-driven CRC-32 of the compressor: folding bytes through the table
    is bit-serial division, most significant bit first, by the polynomial of
    IEEE 802.3 section 3.2.9. */
module Crc {
  type Word = bv32
  type Octet = bv8

  const POLY: Word := 0x04c11db7

  // ------------------------------------------------------------- the table

  const ROW0: seq<bv32> := [
    0x00000000, 0x04c11db7, 0x09823b6e, 0x0d4326d9,
    0x130476dc, 0x17c56b6b, 0x1a864db2, 0x1e475005,
    0x2608edb8, 0x22c9f00f, 0x2f8ad6d6, 0x2b4bcb61,
    0x350c9b64, 0x31cd86d3, 0x3c8ea00a, 0x384fbdbd
  ]

  const ROW1: seq<bv32> := [
    0x4c11db70, 0x48d0c6c7, 0x4593e01e, 0x4152fda9,
    0x5f15adac, 0x5bd4b01b, 0x569796c2, 0x52568b75,
    0x6a1936c8, 0x6ed82b7f, 0x639b0da6, 0x675a1011,
    0x791d4014, 0x7ddc5da3, 0x709f7b7a, 0x745e66cd
  ]

  const ROW2: seq<bv32> := [
    0x9823b6e0, 0x9ce2ab57, 0x91a18d8e, 0x95609039,
    0x8b27c03c, 0x8fe6dd8b, 0x82a5fb52, 0x8664e6e5,
    0xbe2b5b58, 0xbaea46ef, 0xb7a96036, 0xb3687d81,
    0xad2f2d84, 0xa9ee3033, 0xa4ad16ea, 0xa06c0b5d
  ]

  const ROW3: seq<bv32> := [
    0xd4326d90, 0xd0f37027, 0xddb056fe, 0xd9714b49,
    0xc7361b4c, 0xc3f706fb, 0xceb42022, 0xca753d95,
    0xf23a8028, 0xf6fb9d9f, 0xfbb8bb46, 0xff79a6f1,
    0xe13ef6f4, 0xe5ffeb43, 0xe8bccd9a, 0xec7dd02d
  ]

  const ROW4: seq<bv32> := [
    0x34867077, 0x30476dc0, 0x3d044b19, 0x39c556ae,
    0x278206ab, 0x23431b1c, 0x2e003dc5, 0x2ac12072,
    0x128e9dcf, 0x164f8078, 0x1b0ca6a1, 0x1fcdbb16,
    0x018aeb13, 0x054bf6a4, 0x0808d07d, 0x0cc9cdca
  ]

  const ROW5: seq<bv32> := [
    0x7897ab07, 0x7c56b6b0, 0x71159069, 0x75d48dde,
    0x6b93dddb, 0x6f52c06c, 0x6211e6b5, 0x66d0fb02,
    0x5e9f46bf, 0x5a5e5b08, 0x571d7dd1, 0x53dc6066,
    0x4d9b3063, 0x495a2dd4, 0x44190b0d, 0x40d816ba
  ]

  const ROW6: seq<bv32> := [
    0xaca5c697, 0xa864db20, 0xa527fdf9, 0xa1e6e04e,
    0xbfa1b04b, 0xbb60adfc, 0xb6238b25, 0xb2e29692,
    0x8aad2b2f, 0x8e6c3698, 0x832f1041, 0x87ee0df6,
    0x99a95df3, 0x9d684044, 0x902b669d, 0x94ea7b2a
  ]

  const ROW7: seq<bv32> := [
    0xe0b41de7, 0xe4750050, 0xe9362689, 0xedf73b3e,
    0xf3b06b3b, 0xf771768c, 0xfa325055, 0xfef34de2,
    0xc6bcf05f, 0xc27dede8, 0xcf3ecb31, 0xcbffd686,
    0xd5b88683, 0xd1799b34, 0xdc3abded, 0xd8fba05a
  ]

  const ROW8: seq<bv32> := [
    0x690ce0ee, 0x6dcdfd59, 0x608edb80, 0x644fc637,
    0x7a089632, 0x7ec98b85, 0x738aad5c, 0x774bb0eb,
    0x4f040d56, 0x4bc510e1, 0x46863638, 0x42472b8f,
    0x5c007b8a, 0x58c1663d, 0x558240e4, 0x51435d53
  ]

  const ROW9: seq<bv32> := [
    0x251d3b9e, 0x21dc2629, 0x2c9f00f0, 0x285e1d47,
    0x36194d42, 0x32d850f5, 0x3f9b762c, 0x3b5a6b9b,
    0x0315d626, 0x07d4cb91, 0x0a97ed48, 0x0e56f0ff,
    0x1011a0fa, 0x14d0bd4d, 0x19939b94, 0x1d528623
  ]

  const ROWA: seq<bv32> := [
    0xf12f560e, 0xf5ee4bb9, 0xf8ad6d60, 0xfc6c70d7,
    0xe22b20d2, 0xe6ea3d65, 0xeba91bbc, 0xef68060b,
    0xd727bbb6, 0xd3e6a601, 0xdea580d8, 0xda649d6f,
    0xc423cd6a, 0xc0e2d0dd, 0xcda1f604, 0xc960ebb3
  ]

  const ROWB: seq<bv32> := [
    0xbd3e8d7e, 0xb9ff90c9, 0xb4bcb610, 0xb07daba7,
    0xae3afba2, 0xaafbe615, 0xa7b8c0cc, 0xa379dd7b,
    0x9b3660c6, 0x9ff77d71, 0x92b45ba8, 0x9675461f,
    0x8832161a, 0x8cf30bad, 0x81b02d74, 0x857130c3
  ]

  const ROWC: seq<bv32> := [
    0x5d8a9099, 0x594b8d2e, 0x5408abf7, 0x50c9b640,
    0x4e8ee645, 0x4a4ffbf2, 0x470cdd2b, 0x43cdc09c,
    0x7b827d21, 0x7f436096, 0x7200464f, 0x76c15bf8,
    0x68860bfd, 0x6c47164a, 0x61043093, 0x65c52d24
  ]

  const ROWD: seq<bv32> := [
    0x119b4be9, 0x155a565e, 0x18197087, 0x1cd86d30,
    0x029f3d35, 0x065e2082, 0x0b1d065b, 0x0fdc1bec,
    0x3793a651, 0x3352bbe6, 0x3e119d3f, 0x3ad08088,
    0x2497d08d, 0x2056cd3a, 0x2d15ebe3, 0x29d4f654
  ]

  const ROWE: seq<bv32> := [
    0xc5a92679, 0xc1683bce, 0xcc2b1d17, 0xc8ea00a0,
    0xd6ad50a5, 0xd26c4d12, 0xdf2f6bcb, 0xdbee767c,
    0xe3a1cbc1, 0xe760d676, 0xea23f0af, 0xeee2ed18,
    0xf0a5bd1d, 0xf464a0aa, 0xf9278673, 0xfde69bc4
  ]

  const ROWF: seq<bv32> := [
    0x89b8fd09, 0x8d79e0be, 0x803ac667, 0x84fbdbd0,
    0x9abc8bd5, 0x9e7d9662, 0x933eb0bb, 0x97ffad0c,
    0xafb010b1, 0xab710d06, 0xa6322bdf, 0xa2f33668,
    0xbcb4666d, 0xb8757bda, 0xb5365d03, 0xb1f740b4
  ]

  /** The constant table, row by row. */
  function Table(i: Octet): Word {
    Row(i >> 4)[(i & 0xF) as nat]
  }

  function Row(hi: Octet): (r: seq<Word>)
    ensures |r| == 16
  {
    if hi == 0x0 then ROW0 else if hi == 0x1 then ROW1 else if hi == 0x2 then ROW2 else if hi == 0x3 then ROW3
    else if hi == 0x4 then ROW4 else if hi == 0x5 then ROW5 else if hi == 0x6 then ROW6 else if hi == 0x7 then ROW7
    else if hi == 0x8 then ROW8 else if hi == 0x9 then ROW9 else if hi == 0xA then ROWA else if hi == 0xB then ROWB
    else if hi == 0xC then ROWC else if hi == 0xD then ROWD else if hi == 0xE then ROWE else ROWF
  }

  // -------------------------------------------------- bit-serial division

  /** Addition of polynomials over two elements. */
  function Plus(x: Word, y: Word): Word { x ^ y }

  function Double(x: Word): Word { x << 1 }

  predicate Leads(x: Word) { x & 0x80000000 != 0 }

  /** One division step: multiply by x and subtract the polynomial if the
      leading coefficient was 1. */
  function Shift(reg: Word): Word {
    if Leads(reg) then Plus(Double(reg), POLY) else Double(reg)
  }

  function ShiftN(reg: Word, n: nat): Word
    decreases n
  {
    if n == 0 then reg else ShiftN(Shift(reg), n - 1)
  }

  function Shift8(reg: Word): Word {
    Shift(Shift(Shift(Shift(Shift(Shift(Shift(Shift(reg))))))))
  }

  lemma EightShifts(reg: Word)
    ensures ShiftN(reg, 8) == Shift8(reg)
  {
    hide Shift;
    var a := Shift(reg);
    var b := Shift(a);
    var c := Shift(b);
    var d := Shift(c);
    assert ShiftN(reg, 8) == ShiftN(a, 7) == ShiftN(b, 6) == ShiftN(c, 5) == ShiftN(d, 4);
    assert ShiftN(d, 4) == ShiftN(Shift(d), 3) == ShiftN(Shift(Shift(d)), 2);
  }

  /** The remainder of a byte placed at the top of the register. */
  function ByteRemainder(b: Word): Word { Shift8(b << 24) }

  lemma LeadsPlus(x: Word, y: Word)
    ensures Leads(Plus(x, y)) <==> Leads(x) != Leads(y)
  {
  }

  lemma DoublePlus(x: Word, y: Word)
    ensures Double(Plus(x, y)) == Plus(Double(x), Double(y))
  {
  }

  lemma PlusAssociative(a: Word, b: Word, c: Word)
    ensures Plus(Plus(a, b), c) == Plus(a, Plus(b, c))
  {
  }

  lemma PlusCommutes(a: Word, b: Word)
    ensures Plus(a, b) == Plus(b, a)
  {
  }

  lemma PlusCancels(a: Word, p: Word)
    ensures Plus(Plus(a, p), p) == a
  {
  }

  lemma PlusLaws(a: Word, b: Word, p: Word)
    ensures Plus(Plus(a, p), Plus(b, p)) == Plus(a, b)
    ensures Plus(Plus(a, p), b) == Plus(Plus(a, b), p)
    ensures Plus(a, Plus(b, p)) == Plus(Plus(a, b), p)
  {
    hide Plus;
    PlusAssociative(a, b, p);
    PlusAssociative(a, p, b);
    PlusCommutes(b, p);
    PlusAssociative(Plus(a, p), b, p);
    PlusCancels(Plus(a, b), p);
  }

  lemma ShiftLinear(x: Word, y: Word)
    ensures Shift(Plus(x, y)) == Plus(Shift(x), Shift(y))
  {
    hide Plus, Double, Leads;
    LeadsPlus(x, y);
    DoublePlus(x, y);
    PlusLaws(Double(x), Double(y), POLY);
  }

  /** Division steps are linear. */
  lemma {:induction false} ShiftNLinear(x: Word, y: Word, n: nat)
    ensures ShiftN(Plus(x, y), n) == Plus(ShiftN(x, n), ShiftN(y, n))
    decreases n
  {
    hide Plus, Shift;
    if n > 0 {
      ShiftLinear(x, y);
      ShiftNLinear(Shift(x), Shift(y), n - 1);
    }
  }

  /** A table row is the first row plus its own first entry. */
  ghost predicate Coset(row: seq<Word>) {
    |row| == 16 && forall n :: 0 <= n < 16 ==> row[n] == Plus(row[0], ROW0[n])
  }

  lemma Row0IsCoset()
    ensures Coset(ROW0)
  {
  }

  lemma Row1IsCoset()
    ensures Coset(ROW1)
  {
  }

  lemma Row2IsCoset()
    ensures Coset(ROW2)
  {
  }

  lemma Row3IsCoset()
    ensures Coset(ROW3)
  {
  }

  lemma Row4IsCoset()
    ensures Coset(ROW4)
  {
  }

  lemma Row5IsCoset()
    ensures Coset(ROW5)
  {
  }

  lemma Row6IsCoset()
    ensures Coset(ROW6)
  {
  }

  lemma Row7IsCoset()
    ensures Coset(ROW7)
  {
  }

  lemma Row8IsCoset()
    ensures Coset(ROW8)
  {
  }

  lemma Row9IsCoset()
    ensures Coset(ROW9)
  {
  }

  lemma RowAIsCoset()
    ensures Coset(ROWA)
  {
  }

  lemma RowBIsCoset()
    ensures Coset(ROWB)
  {
  }

  lemma RowCIsCoset()
    ensures Coset(ROWC)
  {
  }

  lemma RowDIsCoset()
    ensures Coset(ROWD)
  {
  }

  lemma RowEIsCoset()
    ensures Coset(ROWE)
  {
  }

  lemma RowFIsCoset()
    ensures Coset(ROWF)
  {
  }

  lemma RowIsCoset(hi: Octet)
    ensures Coset(Row(hi))
  {
    hide Coset;
    Row0IsCoset(); Row1IsCoset(); Row2IsCoset(); Row3IsCoset();
    Row4IsCoset(); Row5IsCoset(); Row6IsCoset(); Row7IsCoset();
    Row8IsCoset(); Row9IsCoset(); RowAIsCoset(); RowBIsCoset();
    RowCIsCoset(); RowDIsCoset(); RowEIsCoset(); RowFIsCoset();
  }

  lemma FirstRowFrom0()
    ensures ROW0[0] == ByteRemainder(0)
    ensures ROW0[1] == ByteRemainder(1)
    ensures ROW0[2] == ByteRemainder(2)
    ensures ROW0[3] == ByteRemainder(3)
  {
  }

  lemma FirstRowFrom4()
    ensures ROW0[4] == ByteRemainder(4)
    ensures ROW0[5] == ByteRemainder(5)
    ensures ROW0[6] == ByteRemainder(6)
    ensures ROW0[7] == ByteRemainder(7)
  {
  }

  lemma FirstRowFrom8()
    ensures ROW0[8] == ByteRemainder(8)
    ensures ROW0[9] == ByteRemainder(9)
    ensures ROW0[10] == ByteRemainder(10)
    ensures ROW0[11] == ByteRemainder(11)
  {
  }

  lemma FirstRowFrom12()
    ensures ROW0[12] == ByteRemainder(12)
    ensures ROW0[13] == ByteRemainder(13)
    ensures ROW0[14] == ByteRemainder(14)
    ensures ROW0[15] == ByteRemainder(15)
  {
  }

  lemma FirstRow(lo: Octet)
    requires lo < 16
    ensures ROW0[lo as nat] == ByteRemainder(lo as Word)
  {
    hide ByteRemainder;
    FirstRowFrom0(); FirstRowFrom4(); FirstRowFrom8(); FirstRowFrom12();
  }

  lemma FirstColumnFrom0()
    ensures Row(0)[0] == ByteRemainder(0x00)
    ensures Row(1)[0] == ByteRemainder(0x10)
    ensures Row(2)[0] == ByteRemainder(0x20)
    ensures Row(3)[0] == ByteRemainder(0x30)
  {
  }

  lemma FirstColumnFrom4()
    ensures Row(4)[0] == ByteRemainder(0x40)
    ensures Row(5)[0] == ByteRemainder(0x50)
    ensures Row(6)[0] == ByteRemainder(0x60)
    ensures Row(7)[0] == ByteRemainder(0x70)
  {
  }

  lemma FirstColumnFrom8()
    ensures Row(8)[0] == ByteRemainder(0x80)
    ensures Row(9)[0] == ByteRemainder(0x90)
    ensures Row(10)[0] == ByteRemainder(0xA0)
    ensures Row(11)[0] == ByteRemainder(0xB0)
  {
  }

  lemma FirstColumnFrom12()
    ensures Row(12)[0] == ByteRemainder(0xC0)
    ensures Row(13)[0] == ByteRemainder(0xD0)
    ensures Row(14)[0] == ByteRemainder(0xE0)
    ensures Row(15)[0] == ByteRemainder(0xF0)
  {
  }

  lemma FirstColumn(hi: Octet)
    requires hi < 16
    ensures Row(hi)[0] == ByteRemainder((hi << 4) as Word)
  {
    hide ByteRemainder, Row;
    FirstColumnFrom0(); FirstColumnFrom4(); FirstColumnFrom8(); FirstColumnFrom12();
  }

  lemma SplitByte(i: Octet)
    ensures i >> 4 < 16 && i & 0xF < 16
    ensures (i as Word) << 24 == Plus((((i >> 4) << 4) as Word) << 24, ((i & 0xF) as Word) << 24)
  {
  }

  /** Every one of the 256 constants is the remainder of its index byte. */
  lemma TableCorrect(i: Octet)
    ensures Table(i) == ByteRemainder(i as Word)
  {
    hide ShiftN, Shift8, Plus, Row;
    var hi, lo := i >> 4, i & 0xF;
    SplitByte(i);
    RowIsCoset(hi);
    FirstRow(lo);
    FirstColumn(hi);
    var x, y: Word := ((hi << 4) as Word) << 24, (lo as Word) << 24;
    ShiftNLinear(x, y, 8);
    EightShifts(x);
    EightShifts(y);
    EightShifts(Plus(x, y));
  }

  // ----------------------------------------------------- bytes and their bits

  function TopByte(reg: Word): Octet { (reg >> 24) as Octet }

  /** The table-driven update of the register by one byte. */
  function Update(reg: Word, b: Octet): Word {
    (reg << 8) ^ Table(TopByte(reg) ^ b)
  }

  predicate MostSignificant(b: Octet) { b & 0x80 != 0 }

  function Shl(b: Octet): Octet { b << 1 }

  /** The leading n bits of a byte, most significant first. */
  function Bits(b: Octet, n: nat): seq<bool>
    decreases n
  {
    if n == 0 then [] else [MostSignificant(b)] + Bits(Shl(b), n - 1)
  }

  function ShlN(b: Octet, n: nat): Octet
    decreases n
  {
    if n == 0 then b else ShlN(Shl(b), n - 1)
  }

  lemma {:induction false} BitAt(b: Octet, n: nat, k: nat)
    requires k < n
    ensures |Bits(b, n)| == n && Bits(b, n)[k] == MostSignificant(ShlN(b, k))
    decreases n
  {
    hide MostSignificant, Shl;
    if n > 1 {
      BitAt(Shl(b), n - 1, if k == 0 then 0 else k - 1);
    }
  }

  /** The mask of bit k of a byte, counted from the most significant one. */
  function Mask(k: nat): Octet
    requires k < 8
  {
    [0x80, 0x40, 0x20, 0x10, 0x08, 0x04, 0x02, 0x01][k]
  }

  lemma MaskOfShifted(b: Octet, k: nat)
    requires 1 <= k < 8
    ensures Shl(b) & Mask(k - 1) != 0 <==> b & Mask(k) != 0
  {
  }

  lemma {:induction false} MaskOfBit(b: Octet, k: nat)
    requires k < 8
    ensures MostSignificant(ShlN(b, k)) <==> b & Mask(k) != 0
    decreases k
  {
    if k > 0 {
      MaskOfBit(Shl(b), k - 1);
      MaskOfShifted(b, k);
      hide Mask, Shl, MostSignificant;
    }
  }

  /** The bit list is the byte read from its most significant bit. */
  lemma BitsInOrder(b: Octet, k: nat)
    requires k < 8
    ensures |Bits(b, 8)| == 8 && (Bits(b, 8)[k] <==> b & Mask(k) != 0)
  {
    hide Bits, Mask, Shl, MostSignificant, ShlN;
    BitAt(b, 8, k);
    MaskOfBit(b, k);
  }

  /** Divide by one message bit. */
  function BitStep(reg: Word, bit: bool): Word {
    Shift(Plus(reg, if bit then 0x80000000 else 0))
  }

  function FoldBits(reg: Word, bits: seq<bool>): Word
    decreases |bits|
  {
    if bits == [] then reg else FoldBits(BitStep(reg, bits[0]), bits[1..])
  }

  function MessageBits(bytes: seq<Octet>): seq<bool>
    decreases |bytes|
  {
    if bytes == [] then [] else Bits(bytes[0], 8) + MessageBits(bytes[1..])
  }

  function FoldBytes(reg: Word, bytes: seq<Octet>): Word
    decreases |bytes|
  {
    if bytes == [] then reg else FoldBytes(Update(reg, bytes[0]), bytes[1..])
  }

  /** A byte waiting at the top of the register. */
  function AtTop(b: Octet): Word { (b as Word) << 24 }

  lemma LeadingBit(b: Octet)
    ensures AtTop(b) == Plus(if MostSignificant(b) then 0x80000000 else 0, AtTop(b & 0x7F))
  {
  }

  lemma ShiftOfSmall(b: Octet)
    ensures Shift(AtTop(b & 0x7F)) == AtTop(Shl(b))
  {
  }

  lemma OneBit(reg: Word, b: Octet)
    ensures Shift(Plus(reg, AtTop(b))) == Plus(BitStep(reg, MostSignificant(b)), AtTop(Shl(b)))
  {
    hide Shift, Plus, AtTop, MostSignificant, Shl;
    var top: Word := if MostSignificant(b) then 0x80000000 else 0;
    LeadingBit(b);
    PlusLaws(reg, top, AtTop(b & 0x7F));
    ShiftLinear(Plus(reg, top), AtTop(b & 0x7F));
    ShiftOfSmall(b);
  }

  lemma {:induction false} SomeBits(reg: Word, b: Octet, n: nat)
    ensures ShiftN(Plus(reg, AtTop(b)), n) == Plus(FoldBits(reg, Bits(b, n)), AtTop(ShlN(b, n)))
    decreases n
  {
    hide Shift, Plus, AtTop, BitStep, MostSignificant, Shl;
    if n > 0 {
      OneBit(reg, b);
      SomeBits(BitStep(reg, MostSignificant(b)), Shl(b), n - 1);
      assert Bits(b, n)[1..] == Bits(Shl(b), n - 1);
    }
  }

  lemma NothingLeft(b: Octet, reg: Word)
    ensures Plus(reg, AtTop(ShlN(b, 8))) == reg
  {
    assert ShlN(b, 8) == 0;
  }

  lemma TopAndLow(reg: Word)
    ensures reg == Plus(AtTop(TopByte(reg)), reg & 0x00FFFFFF)
  {
  }

  lemma AtTopPlus(a: Octet, b: Octet)
    ensures AtTop(a ^ b) == Plus(AtTop(a), AtTop(b))
  {
  }

  lemma SplitRegister(reg: Word, b: Octet)
    ensures Plus(reg, AtTop(b)) == Plus(AtTop(TopByte(reg) ^ b), reg & 0x00FFFFFF)
  {
    hide Plus, AtTop, TopByte;
    TopAndLow(reg);
    AtTopPlus(TopByte(reg), b);
    PlusLaws(AtTop(TopByte(reg)), AtTop(b), reg & 0x00FFFFFF);
  }

  lemma ShiftLow(reg: Word)
    ensures Shift8(reg & 0x00FFFFFF) == reg << 8
  {
  }

  /** One table update consumes the byte's eight bits. */
  lemma UpdateIsEightBits(reg: Word, b: Octet)
    ensures Update(reg, b) == FoldBits(reg, Bits(b, 8))
  {
    hide FoldBits, Bits, Table, Plus, ShiftN, Shift8, Update, ShlN, TopByte;
    var i := TopByte(reg) ^ b;
    var low := reg & 0x00FFFFFF;
    UpdateAsSum(reg, b);
    SplitRegister(reg, b);
    ShiftLow(reg);
    EightShifts(low);
    EightShifts(AtTop(i));
    SomeBits(reg, b, 8);
    NothingLeft(b, FoldBits(reg, Bits(b, 8)));
    ShiftNLinear(AtTop(i), low, 8);
    TableCorrect(i);
  }

  lemma UpdateAsSum(reg: Word, b: Octet)
    ensures Update(reg, b) == Plus(Table(TopByte(reg) ^ b), reg << 8)
  {
    hide Table;
  }

  lemma {:induction false} FoldBitsConcat(reg: Word, a: seq<bool>, b: seq<bool>)
    ensures FoldBits(reg, a + b) == FoldBits(FoldBits(reg, a), b)
    decreases |a|
  {
    hide BitStep;
    if a == [] {
      assert a + b == b;
    } else {
      assert (a + b)[1..] == a[1..] + b;
      FoldBitsConcat(BitStep(reg, a[0]), a[1..], b);
    }
  }

  /** Folding bytes through the table is bit-serial division, for every message
      and every starting register. */
  lemma {:induction false} TableFoldIsDivision(reg: Word, bytes: seq<Octet>)
    ensures FoldBytes(reg, bytes) == FoldBits(reg, MessageBits(bytes))
    decreases |bytes|
  {
    hide Update, Bits, BitStep;
    if bytes != [] {
      UpdateIsEightBits(reg, bytes[0]);
      TableFoldIsDivision(Update(reg, bytes[0]), bytes[1..]);
      FoldBitsConcat(reg, Bits(bytes[0], 8), MessageBits(bytes[1..]));
    }
  }

  /** Initialise, update with every byte, finalise. */
  method BlockCrc(bytes: seq<Octet>) returns (crc: Word)
    ensures crc == !FoldBits(0xFFFFFFFF, MessageBits(bytes))
  {
    hide FoldBits, MessageBits, Update;
    crc := 0xFFFFFFFF;
    var n := 0;
    assert bytes[0..] == bytes;
    while n < |bytes|
      invariant 0 <= n <= |bytes|
      invariant FoldBytes(crc, bytes[n..]) == FoldBytes(0xFFFFFFFF, bytes)
    {
      crc := Update(crc, bytes[n]);
      assert bytes[n..][1..] == bytes[n + 1..];
      n := n + 1;
    }
    TableFoldIsDivision(0xFFFFFFFF, bytes);
    crc := !crc;
  }

  lemma CheckSteps()
    ensures Update(0xFFFFFFFF, 0x31) == 0x9EFBCF93
    ensures Update(0x9EFBCF93, 0x32) == 0x3FEC5E6A
    ensures Update(0x3FEC5E6A, 0x33) == 0xD952F164
    ensures Update(0xD952F164, 0x34) == 0xA695C4AA
    ensures Update(0xA695C4AA, 0x35) == 0xBD9AB747
    ensures Update(0xBD9AB747, 0x36) == 0xD8F06C8F
    ensures Update(0xD8F06C8F, 0x37) == 0x0D8A14C4
    ensures Update(0x0D8A14C4, 0x38) == 0x49E3C2FB
    ensures Update(0x49E3C2FB, 0x39) == 0x0376E6E7
  {
  }

  lemma OneByte(reg: Word, bytes: seq<Octet>, rest: seq<Octet>)
    requires bytes != [] && bytes[1..] == rest
    ensures FoldBytes(reg, bytes) == FoldBytes(Update(reg, bytes[0]), rest)
  {
  }

  lemma NoBytes(reg: Word)
    ensures FoldBytes(reg, []) == reg
  {
  }

  /** The checksum of the nine digits "123456789", by which checksums are told apart. */
  lemma CheckValue()
    ensures !FoldBits(0xFFFFFFFF, MessageBits([0x31, 0x32, 0x33, 0x34, 0x35, 0x36, 0x37, 0x38, 0x39])) == 0xFC891918
  {
    hide Update, FoldBytes, FoldBits, MessageBits;
    TableFoldIsDivision(0xFFFFFFFF, [0x31, 0x32, 0x33, 0x34, 0x35, 0x36, 0x37, 0x38, 0x39]);
    CheckSteps();
    NoBytes(0x0376E6E7);
    OneByte(0x49E3C2FB, [0x39], []);
    OneByte(0x0D8A14C4, [0x38, 0x39], [0x39]);
    OneByte(0xD8F06C8F, [0x37, 0x38, 0x39], [0x38, 0x39]);
    OneByte(0xBD9AB747, [0x36, 0x37, 0x38, 0x39], [0x37, 0x38, 0x39]);
    OneByte(0xA695C4AA, [0x35, 0x36, 0x37, 0x38, 0x39], [0x36, 0x37, 0x38, 0x39]);
    OneByte(0xD952F164, [0x34, 0x35, 0x36, 0x37, 0x38, 0x39], [0x35, 0x36, 0x37, 0x38, 0x39]);
    OneByte(0x3FEC5E6A, [0x33, 0x34, 0x35, 0x36, 0x37, 0x38, 0x39], [0x34, 0x35, 0x36, 0x37, 0x38, 0x39]);
    OneByte(0x9EFBCF93, [0x32, 0x33, 0x34, 0x35, 0x36, 0x37, 0x38, 0x39], [0x33, 0x34, 0x35, 0x36, 0x37, 0x38, 0x39]);
    OneByte(0xFFFFFFFF, [0x31, 0x32, 0x33, 0x34, 0x35, 0x36, 0x37, 0x38, 0x39],
            [0x32, 0x33, 0x34, 0x35, 0x36, 0x37, 0x38, 0x39]);
  }

  // ------------------------------------------------------ what it detects

  /** The polynomial is odd, so the lowest bit tells whether it was subtracted. */
  lemma ShiftParity(x: Word)
    ensures Leads(x) <==> Shift(x) & 1 != 0
  {
  }

  function Halve(x: Word): Word { x >> 1 }

  lemma HalveDoubleLow(x: Word)
    requires x & 0x80000000 == 0
    ensures (x << 1) >> 1 == x
  {
  }

  lemma HalveDoubleHigh(x: Word)
    requires x & 0x80000000 != 0
    ensures ((x << 1) >> 1) | 0x80000000 == x
  {
  }

  lemma HalveDouble(x: Word)
    ensures x == if Leads(x) then Halve(Double(x)) | 0x80000000 else Halve(Double(x))
  {
    if Leads(x) {
      HalveDoubleHigh(x);
    } else {
      HalveDoubleLow(x);
    }
  }

  function Unshift(r: Word): Word {
    if r & 1 != 0 then Halve(Plus(r, POLY)) | 0x80000000 else Halve(r)
  }

  /** A division step can be undone. */
  lemma UnshiftShift(x: Word)
    ensures Unshift(Shift(x)) == x
  {
    hide Plus, Double, Halve;
    ShiftParity(x);
    HalveDouble(x);
    PlusCancels(Double(x), POLY);
  }

  lemma {:induction false} ShiftNInjective(x: Word, y: Word, n: nat)
    requires ShiftN(x, n) == ShiftN(y, n)
    ensures x == y
    decreases n
  {
    hide Shift, Unshift;
    if n > 0 {
      ShiftNInjective(Shift(x), Shift(y), n - 1);
      UnshiftShift(x);
      UnshiftShift(y);
    }
  }

  /** For a fixed byte the update is injective in the register, and for a fixed
      register it is injective in the byte. */
  lemma UpdateInjective(r: Word, a: Octet, s: Word, b: Octet)
    requires Update(r, a) == Update(s, b)
    ensures r == s <==> a == b
  {
    hide Update, ShiftN, ShlN, FoldBits, Bits, AtTop, Plus;
    UpdateIsEightBits(r, a);
    UpdateIsEightBits(s, b);
    SomeBits(r, a, 8);
    SomeBits(s, b, 8);
    NothingLeft(a, Update(r, a));
    NothingLeft(b, Update(s, b));
    ShiftNInjective(Plus(r, AtTop(a)), Plus(s, AtTop(b)), 8);
    PlusCancels(r, AtTop(a));
    PlusCancels(s, AtTop(b));
    if r == s {
      SameAtTop(r, a, b);
    }
  }

  lemma SameAtTop(r: Word, a: Octet, b: Octet)
    requires Plus(r, AtTop(a)) == Plus(r, AtTop(b))
    ensures a == b
  {
  }

  lemma {:induction false} FoldInjective(r: Word, s: Word, bytes: seq<Octet>)
    requires FoldBytes(r, bytes) == FoldBytes(s, bytes)
    ensures r == s
    decreases |bytes|
  {
    hide Update;
    if bytes != [] {
      FoldInjective(Update(r, bytes[0]), Update(s, bytes[0]), bytes[1..]);
      UpdateInjective(r, bytes[0], s, bytes[0]);
    }
  }

  lemma {:induction false} FoldBytesConcat(reg: Word, a: seq<Octet>, b: seq<Octet>)
    ensures FoldBytes(reg, a + b) == FoldBytes(FoldBytes(reg, a), b)
    decreases |a|
  {
    hide Update;
    if a == [] {
      assert a + b == b;
    } else {
      assert (a + b)[1..] == a[1..] + b;
      FoldBytesConcat(Update(reg, a[0]), a[1..], b);
    }
  }

  /** Any change of a single byte changes the checksum. */
  lemma OneByteChangeDetected(reg: Word, head: seq<Octet>, a: Octet, b: Octet, tail: seq<Octet>)
    requires a != b
    ensures FoldBytes(reg, head + [a] + tail) != FoldBytes(reg, head + [b] + tail)
  {
    hide Update, FoldBytes;
    var r := FoldBytes(reg, head);
    FoldBytesConcat(reg, head + [a], tail);
    FoldBytesConcat(reg, head + [b], tail);
    FoldBytesConcat(reg, head, [a]);
    FoldBytesConcat(reg, head, [b]);
    FoldOne(r, a);
    FoldOne(r, b);
    if FoldBytes(reg, head + [a] + tail) == FoldBytes(reg, head + [b] + tail) {
      FoldInjective(Update(r, a), Update(r, b), tail);
      UpdateInjective(r, a, r, b);
    }
  }

  lemma FoldOne(reg: Word, a: Octet)
    ensures FoldBytes(reg, [a]) == Update(reg, a)
  {
    hide Update;
    assert [a][1..] == [];
  }

  // ---------------------------------------------------------------- bursts

  predicate Meets(x: Word, m: Word) { x & m != 0 }

  function Widened(m: Word): Word { (m << 1) | 1 }

  /** The bits of m can move up k times before one reaches the top. */
  predicate Room(m: Word, k: nat)
    decreases k
  {
    k == 0 || (!Leads(m) && Room(Widened(m), k - 1))
  }

  lemma {:induction false} LessRoom(m: Word, k: nat, n: nat)
    requires Room(m, k) && n <= k
    ensures Room(m, n)
    decreases n
  {
    if n > 0 {
      LessRoom(Widened(m), k - 1, n - 1);
    }
  }

  lemma RoomStep(m: Word, k: nat)
    requires Room((m << 1) | 1, k) && m & 0x80000000 == 0
    ensures Room(m, k + 1)
  {
  }

  lemma LowestBitHasRoom()
    ensures Room(1, 31)
  {
    hide Room;
    NoRoom();
    RoomStep(0x7FFFFFFF, 0); RoomStep(0x3FFFFFFF, 1); RoomStep(0x1FFFFFFF, 2); RoomStep(0x0FFFFFFF, 3);
    RoomStep(0x07FFFFFF, 4); RoomStep(0x03FFFFFF, 5); RoomStep(0x01FFFFFF, 6); RoomStep(0x00FFFFFF, 7);
    RoomStep(0x007FFFFF, 8); RoomStep(0x003FFFFF, 9); RoomStep(0x001FFFFF, 10); RoomStep(0x000FFFFF, 11);
    RoomStep(0x0007FFFF, 12); RoomStep(0x0003FFFF, 13); RoomStep(0x0001FFFF, 14); RoomStep(0x0000FFFF, 15);
    RoomStep(0x00007FFF, 16); RoomStep(0x00003FFF, 17); RoomStep(0x00001FFF, 18); RoomStep(0x00000FFF, 19);
    RoomStep(0x000007FF, 20); RoomStep(0x000003FF, 21); RoomStep(0x000001FF, 22); RoomStep(0x000000FF, 23);
    RoomStep(0x0000007F, 24); RoomStep(0x0000003F, 25); RoomStep(0x0000001F, 26); RoomStep(0x0000000F, 27);
    RoomStep(0x00000007, 28); RoomStep(0x00000003, 29); RoomStep(0x00000001, 30);
  }

  lemma NoRoom()
    ensures Room(0xFFFFFFFF, 0)
  {
  }

  lemma DoubleMeets(x: Word, m: Word)
    requires Meets(x, m) && !Leads(m)
    ensures Meets(Double(x), Widened(m))
  {
  }

  lemma OddMeets(x: Word, m: Word)
    ensures Meets(Plus(Double(x), POLY), Widened(m))
  {
  }

  /** A bit set among the lowest stays among the lowest, one more of them: it moves
      up, or the odd polynomial is subtracted and sets the lowest. */
  lemma ShiftMeets(x: Word, m: Word)
    requires Meets(x, m) && !Leads(m)
    ensures Meets(Shift(x), Widened(m))
  {
    hide Meets, Widened, Double, Plus, Leads;
    if Leads(x) {
      OddMeets(x, m);
    } else {
      DoubleMeets(x, m);
    }
  }

  /** The word that a message bit is added as. */
  function BitWord(bit: bool): Word { if bit then 0x80000000 else 0 }

  lemma AddBitMeets(x: Word, a: bool, b: bool, m: Word)
    requires Meets(x, m) && !Leads(m)
    ensures Meets(Plus(x, Plus(BitWord(a), BitWord(b))), m)
  {
  }

  /** The difference of two registers goes on as a register of its own. */
  lemma DifferenceStep(r: Word, s: Word, a: bool, b: bool)
    ensures Plus(BitStep(r, a), BitStep(s, b)) == Shift(Plus(Plus(r, s), Plus(BitWord(a), BitWord(b))))
  {
    hide Plus, Shift;
    ShiftLinear(Plus(r, BitWord(a)), Plus(s, BitWord(b)));
    FourSum(r, s, BitWord(a), BitWord(b));
  }

  lemma FourSum(r: Word, s: Word, a: Word, b: Word)
    ensures Plus(Plus(r, a), Plus(s, b)) == Plus(Plus(r, s), Plus(a, b))
  {
    hide Plus;
    PlusAssociative(r, a, Plus(s, b));
    PlusAssociative(a, s, b);
    PlusCommutes(a, s);
    PlusAssociative(s, a, b);
    PlusAssociative(r, s, Plus(a, b));
  }

  /** Once two registers differ among the lowest bits they go on differing, for as
      many message bits as those have room to move up. */
  lemma {:induction false} DifferenceStays(r: Word, s: Word, u: seq<bool>, w: seq<bool>, m: Word)
    requires |u| == |w| && Room(m, |u|) && Meets(Plus(r, s), m)
    ensures FoldBits(r, u) != FoldBits(s, w)
    decreases |u|
  {
    hide Plus, Shift, Widened, Meets, BitStep, Leads;
    if u == [] {
      SameMeetsNothing(r, s, m);
    } else {
      AddBitMeets(Plus(r, s), u[0], w[0], m);
      ShiftMeets(Plus(Plus(r, s), Plus(BitWord(u[0]), BitWord(w[0]))), m);
      DifferenceStep(r, s, u[0], w[0]);
      DifferenceStays(BitStep(r, u[0]), BitStep(s, w[0]), u[1..], w[1..], Widened(m));
    }
  }

  lemma SameMeetsNothing(r: Word, s: Word, m: Word)
    requires Meets(Plus(r, s), m)
    ensures r != s
  {
  }

  lemma FirstDifference(r: Word, a: bool, b: bool)
    requires a != b
    ensures Meets(Plus(BitStep(r, a), BitStep(r, b)), 1)
  {
    hide Plus, Shift, BitStep;
    DifferenceStep(r, r, a, b);
    DifferentBits(r, a, b);
  }

  lemma DifferentBits(r: Word, a: bool, b: bool)
    requires a != b
    ensures Meets(Shift(Plus(Plus(r, r), Plus(BitWord(a), BitWord(b)))), 1)
  {
  }

  /** Different blocks of at most 32 bits leave different registers. */
  lemma {:induction false} ShortBlocksDiffer(r: Word, u: seq<bool>, w: seq<bool>)
    requires |u| == |w| <= 32 && u != w
    ensures FoldBits(r, u) != FoldBits(r, w)
    decreases |u|
  {
    hide Plus, Shift, Room, Meets, BitStep;
    if u[0] == w[0] {
      assert u == [u[0]] + u[1..] && w == [w[0]] + w[1..];
      ShortBlocksDiffer(BitStep(r, u[0]), u[1..], w[1..]);
    } else {
      FirstDifference(r, u[0], w[0]);
      LowestBitHasRoom();
      LessRoom(1, 31, |u| - 1);
      DifferenceStays(BitStep(r, u[0]), BitStep(r, w[0]), u[1..], w[1..], 1);
    }
  }

  lemma {:induction false} FoldBitsInjective(r: Word, s: Word, bits: seq<bool>)
    requires FoldBits(r, bits) == FoldBits(s, bits)
    ensures r == s
    decreases |bits|
  {
    hide Plus, Shift;
    if bits != [] {
      FoldBitsInjective(BitStep(r, bits[0]), BitStep(s, bits[0]), bits[1..]);
      UnshiftShift(Plus(r, BitWord(bits[0])));
      UnshiftShift(Plus(s, BitWord(bits[0])));
      PlusCancels(r, BitWord(bits[0]));
      PlusCancels(s, BitWord(bits[0]));
    }
  }

  /** The two messages are equal outside the 32 bits from bit p on. */
  ghost predicate EqualOutside(a: seq<bool>, b: seq<bool>, p: nat) {
    |a| == |b| && forall k :: 0 <= k < |a| && (k < p || k >= p + 32) ==> a[k] == b[k]
  }

  lemma BurstInBitsDetected(reg: Word, a: seq<bool>, b: seq<bool>, p: nat)
    requires a != b && EqualOutside(a, b, p)
    ensures FoldBits(reg, a) != FoldBits(reg, b)
  {
    hide FoldBits;
    var from := if p <= |a| then p else |a|;
    var to := if p + 32 <= |a| then p + 32 else |a|;
    var head, u, w, tail := a[..from], a[from..to], b[from..to], a[to..];
    assert a == head + u + tail;
    assert b == head + w + tail;
    FoldBitsConcat(reg, head + u, tail);
    FoldBitsConcat(reg, head + w, tail);
    FoldBitsConcat(reg, head, u);
    FoldBitsConcat(reg, head, w);
    ShortBlocksDiffer(FoldBits(reg, head), u, w);
    if FoldBits(reg, a) == FoldBits(reg, b) {
      FoldBitsInjective(FoldBits(reg, head + u), FoldBits(reg, head + w), tail);
    }
  }

  /** Any change confined to 32 consecutive bits of a message changes its checksum. */
  lemma BurstDetected(reg: Word, a: seq<Octet>, b: seq<Octet>, p: nat)
    requires a != b && |a| == |b| && EqualOutside(MessageBits(a), MessageBits(b), p)
    ensures FoldBytes(reg, a) != FoldBytes(reg, b)
  {
    hide FoldBytes, FoldBits, MessageBits;
    MessageBitsDiffer(a, b);
    BurstInBitsDetected(reg, MessageBits(a), MessageBits(b), p);
    TableFoldIsDivision(reg, a);
    TableFoldIsDivision(reg, b);
  }

  lemma {:induction false} MessageBitsDiffer(a: seq<Octet>, b: seq<Octet>)
    requires a != b && |a| == |b|
    ensures MessageBits(a) != MessageBits(b)
    decreases |a|
  {
    hide Bits;
    BitsInOrder(a[0], 0);
    BitsInOrder(b[0], 0);
    var x, y := MessageBits(a), MessageBits(b);
    assert x[..8] == Bits(a[0], 8) && x[8..] == MessageBits(a[1..]);
    assert y[..8] == Bits(b[0], 8) && y[8..] == MessageBits(b[1..]);
    if a[0] != b[0] {
      ByteBitsDiffer(a[0], b[0]);
    } else {
      assert a == [a[0]] + a[1..] && b == [b[0]] + b[1..];
      MessageBitsDiffer(a[1..], b[1..]);
    }
  }

  lemma ByteBitsDiffer(a: Octet, b: Octet)
    requires a != b
    ensures Bits(a, 8) != Bits(b, 8)
  {
    hide Bits, Mask;
    var k := SomeBitDiffers(a, b);
    BitsInOrder(a, k);
    BitsInOrder(b, k);
  }

  lemma SomeBitDiffers(a: Octet, b: Octet) returns (k: nat)
    requires a != b
    ensures k < 8 && (a & Mask(k) != 0) != (b & Mask(k) != 0)
  {
    k := if a & 0x80 != b & 0x80 then 0 else if a & 0x40 != b & 0x40 then 1
         else if a & 0x20 != b & 0x20 then 2 else if a & 0x10 != b & 0x10 then 3
         else if a & 0x08 != b & 0x08 then 4 else if a & 0x04 != b & 0x04 then 5
         else if a & 0x02 != b & 0x02 then 6 else 7;
  }
}
